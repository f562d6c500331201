/** Two runs of the protocol, for every configuration and every key that has a shard: one in which a get finds what a
    failed reload left, and one in which a clear overtakes a get (cannon_proxy/src/proxy_server.cpp). */
module ReloadExamples {
  import opened Storage
  import opened Proxy
  import opened ReloadProtocol
  import opened SequentialReload
  import opened Wrappers

  // ---------------------------------------------------------------- a left-over key

  /** A load that names a key twice and fails, a load of nothing that succeeds, and a get of the key. */
  ghost function LeftOverSteps(c: Config, k: Key, v: Value, s: nat): seq<Step>
    requires c.n > 0
  {
    ReloadSteps(c, [[KV(k, v), KV(k, v)]], false) + ReloadSteps(c, [], true) + [StartGet(0, [k]), ReplyGet(0, s)]
  }

  lemma FlatOne(block: seq<KV>)
    ensures Flat([block]) == block
  {
    assert [block][..0] == [];
  }

  lemma PairTwice(c: Config, kv: KV, s: nat)
    requires c.n > 0 && ShardIndex(c, kv.key) == s
    ensures KvsOf(c, [kv, kv], s) == [kv, kv] && InsertAll(map[], [kv, kv]) == map[kv.key := kv.value]
  {
    hide ShardIndex, KvsOf, InsertAll;
    NoPairs(c, map[], s);
    assert [] + [kv] == [kv] && [kv] + [kv] == [kv, kv];
    NothingOf(c, s);
    KvsOfLast(c, [], kv, s);
    KvsOfLast(c, [kv], kv, s);
    InsertAllLast(map[], [], kv);
    InsertAllLast(map[], [kv], kv);
  }

  lemma NothingOf(c: Config, s: nat)
    requires c.n > 0
    ensures KvsOf(c, [], s) == []
  {
  }

  /** The first load is refused because of the repeated key, and its pairs stay. */
  lemma RepeatedKey(c: Config, k: Key, v: Value, s: nat)
    requires c.n > 0 && ShardIndex(c, k) == s
    ensures var kvs := [KV(k, v), KV(k, v)];
            Flat([kvs]) == kvs && !Complete(c, Model([], kvs), s) && Remains(c, kvs, s) == map[k := v]
  {
    hide ShardIndex, KvsOf, InsertAll, Flat;
    var kvs := [KV(k, v), KV(k, v)];
    FlatOne(kvs);
    PairTwice(c, KV(k, v), s);
    assert kvs[0].key == kvs[1].key;
  }

  /** The second load has nothing to refuse and adds nothing. */
  lemma EmptyLoad(c: Config, left: seq<KV>, s: nat)
    requires c.n > 0
    ensures Complete(c, Model(left, Flat([])), s) && Content(c, Model(left, Flat([])), s) == Remains(c, left, s)
  {
  }

  /** Both loads, one after the other. */
  lemma LeftOverLoaded(c: Config, st: State, k: Key, v: Value, s: nat)
    requires Init(c, st) && ShardIndex(c, k) == s && s < c.n
    ensures var steps := ReloadSteps(c, [[KV(k, v), KV(k, v)]], false) + ReloadSteps(c, [], true);
            && Reaches(c, st, steps)
            && var loaded := Play(c, st, steps).value;
              && loaded.gets.Keys == {} && loaded.version == 1 && |loaded.models| == 2 && loaded.models[1].input == []
              && Shape(c, loaded) && loaded.stores[s][Index(1)] == map[k := v]
  {
    hide Inv, InsertAll, KvsOf, ReloadSteps, KeysOf, Remains, Content, Complete, ShardIndex, AllFresh;
    var kvs := [KV(k, v), KV(k, v)];
    InitInv(c, st);
    RepeatedKey(c, k, v, s);
    assert Sharded(c, KeysIn(kvs));
    ReloadPlays(c, st, [kvs]);
    assert [] + kvs == kvs && !Accepted(c, st, [kvs]);
    var failed := Play(c, st, ReloadSteps(c, [kvs], false)).value;
    forall t: nat | t < c.n ensures Complete(c, Model(failed.left, Flat([])), t) {
      EmptyLoad(c, failed.left, t);
    }
    ReloadPlays(c, failed, []);
    PlayTwice(c, st, ReloadSteps(c, [kvs], false), ReloadSteps(c, [], true));
    var loaded := Play(c, failed, ReloadSteps(c, [], true)).value;
    InvShape(c, loaded);
    IdleStores(c, loaded, s);
    EmptyLoad(c, kvs, s);
  }

  /** A get of one key that is answered at once. */
  lemma GetAfter(c: Config, st: State, steps: seq<Step>, k: Key, s: nat)
    requires Reaches(c, st, steps) && c.n > 0 && ShardIndex(c, k) == s && s < c.n
    requires 0 !in Play(c, st, steps).value.gets
    ensures var mid := Play(c, st, steps).value;
            var all := steps + [StartGet(0, [k])] + [ReplyGet(0, s)];
            && Reaches(c, st, all) && Shape(c, mid)
            && var st' := Play(c, st, all).value;
              && 0 in st'.gets && st'.models == mid.models && st'.version == mid.version
              && Finished(c, st'.gets[0])
              && st'.gets[0] == Get(mid.version, [k], map[s := [Lookup(mid.stores[s][Index(mid.version)], k)]], {})
  {
    hide Inv, InsertAll, KvsOf, KeysOf, ShardIndex;
    var mid := Play(c, st, steps).value;
    InvShape(c, mid);
    PlayOneMore(c, st, steps, StartGet(0, [k]));
    InvShape(c, Play(c, st, steps + [StartGet(0, [k])]).value);
    forall t: nat ensures KeysOf(c, [k], t) == if t == s then [k] else [] {
      KeysOfOne(c, k, t);
    }
    PlayOneMore(c, st, steps + [StartGet(0, [k])], ReplyGet(0, s));
    var store := mid.stores[s][Index(mid.version)];
    assert LookupAll(store, [k]) == [Lookup(store, k)];
  }

  /** The failed load shows: the get finds the key, although the input of the version that it reads is empty. */
  lemma LeftOverIsFound(c: Config, st: State, k: Key, v: Value, s: nat)
    requires Init(c, st) && ShardIndex(c, k) == s
    ensures Reaches(c, st, LeftOverSteps(c, k, v, s))
    ensures var st' := Play(c, st, LeftOverSteps(c, k, v, s)).value;
            && 0 in st'.gets && var g := st'.gets[0];
              && g.keys == [k] && Finished(c, g) && g.late == {} && s in g.replies && g.replies[s] == [Item(FOUND, v)]
              && g.version == 1 && |st'.models| == 2 && st'.models[1].input == []
  {
    hide Inv, Shape, ReloadSteps, KeysOf, ShardIndex, Play, Reaches, Finished;
    ShardExists(c, k);
    LeftOverLoaded(c, st, k, v, s);
    var steps := ReloadSteps(c, [[KV(k, v), KV(k, v)]], false) + ReloadSteps(c, [], true);
    GetAfter(c, st, steps, k, s);
    assert steps + [StartGet(0, [k])] + [ReplyGet(0, s)] == LeftOverSteps(c, k, v, s);
  }

  // ---------------------------------------------------------------- an overtaken get

  /** A load of one pair, a get of its key that waits, and the next reload up to the clear of the key's shard; then the
      shard answers. */
  ghost function OvertakenSteps(c: Config, k: Key, v: Value, s: nat): seq<Step>
    requires c.n > 0
  {
    ReloadSteps(c, [[KV(k, v)]], true) + [StartGet(0, [k])] + LoadSteps(c, [], 0) + ClearSteps(s) +
    [ClearAt(s)] + [ReplyGet(0, s)]
  }

  /** The first load is accepted, and the get starts on its version. */
  lemma OvertakenStarts(c: Config, st: State, k: Key, v: Value, s: nat)
    requires Init(c, st) && ShardIndex(c, k) == s && s < c.n
    ensures var steps := ReloadSteps(c, [[KV(k, v)]], true) + [StartGet(0, [k])];
            && Reaches(c, st, steps)
            && var mid := Play(c, st, steps).value;
              && mid.phase.Idle? && mid.version == 1 && mid.gets.Keys == {0} && mid.gets[0] == Get(1, [k], map[], {})
              && |mid.models| == 2 && mid.models[1].input == [KV(k, v)]
  {
    hide Inv, InsertAll, KvsOf, ReloadSteps, KeysOf, Remains, Content, ShardIndex, Complete, Flat;
    InitInv(c, st);
    ShardExists(c, k);
    assert Sharded(c, KeysIn([KV(k, v)]));
    forall t: nat | t < c.n ensures Complete(c, Model([], [KV(k, v)]), t) {
      OnePair(c, KV(k, v), t);
    }
    FlatOne([KV(k, v)]);
    ReloadPlays(c, st, [[KV(k, v)]]);
    var loaded := Play(c, st, ReloadSteps(c, [[KV(k, v)]], true)).value;
    InvShape(c, loaded);
    StartFacts(c, loaded, 0, [k]);
    PlayOneMore(c, st, ReloadSteps(c, [[KV(k, v)]], true), StartGet(0, [k]));
  }

  lemma OnePair(c: Config, kv: KV, t: nat)
    requires c.n > 0
    ensures Complete(c, Model([], [kv]), t)
  {
    assert [] + [kv] == [kv];
    KvsOfLast(c, [], kv, t);
  }

  /** The second reload, up to the clear of shard `s`. */
  lemma OvertakenClears(c: Config, mid: State, k: Key, s: nat)
    requires Inv(c, mid) && mid.phase.Idle? && ShardIndex(c, k) == s && s < c.n
    requires 0 in mid.gets && mid.gets[0] == Get(mid.version, [k], map[], {})
    ensures var steps := LoadSteps(c, [], 0) + ClearSteps(s);
            && Reaches(c, mid, steps)
            && var st' := Play(c, mid, steps).value;
              && Shape(c, st') && st'.phase.Clearing? && s in st'.phase.pending && st'.version == mid.version + 1
              && mid.models <= st'.models
              && 0 in st'.gets && st'.gets[0].keys == [k] && st'.gets[0].version == mid.version && st'.gets[0].replies == map[]
  {
    hide Inv, InsertAll, KvsOf, KeysOf, ShardIndex, LoadSteps, ClearSteps, Complete, Flat, Play;
    LoadPlays(c, mid, [], 0);
    var loading := Play(c, mid, LoadSteps(c, [], 0)).value;
    forall t: nat | t < c.n ensures Complete(c, Model(loading.left, Flat([])), t) {
      EmptyLoad(c, loading.left, t);
    }
    LoadedFlag(c, loading);
    ClearPlays(c, loading, s);
    PlayTwice(c, mid, LoadSteps(c, [], 0), ClearSteps(s));
    InvShape(c, Play(c, mid, LoadSteps(c, [], 0) + ClearSteps(s)).value);
  }

  /** The get that read version 1 finds nothing at the shard that was cleared, although its pair was loaded. */
  lemma OvertakenIsLost(c: Config, st: State, k: Key, v: Value, s: nat)
    requires Init(c, st) && ShardIndex(c, k) == s
    ensures Reaches(c, st, OvertakenSteps(c, k, v, s))
    ensures var st' := Play(c, st, OvertakenSteps(c, k, v, s)).value;
            && 0 in st'.gets && var g := st'.gets[0];
              && g.keys == [k] && g.version == 1 && Finished(c, g) && s in g.late
              && s in g.replies && g.replies[s] == [Item(NOT_FOUND, 0.0)]
              && |st'.models| > 1 && st'.models[1].input == [KV(k, v)]
  {
    hide Inv, InsertAll, KvsOf, KeysOf, ShardIndex, LoadSteps, ClearSteps, ReloadSteps, Play;
    ShardExists(c, k);
    OvertakenStarts(c, st, k, v, s);
    var first, second := ReloadSteps(c, [[KV(k, v)]], true) + [StartGet(0, [k])], LoadSteps(c, [], 0) + ClearSteps(s);
    var mid := Play(c, st, first).value;
    OvertakenClears(c, mid, k, s);
    PlayTwice(c, st, first, second);
    OvertakenAnswers(c, st, first + second, k, s);
    assert first + second + [ClearAt(s)] + [ReplyGet(0, s)] == OvertakenSteps(c, k, v, s);
  }

  /** The clear of the shard, and then its answer. */
  lemma OvertakenAnswers(c: Config, st: State, steps: seq<Step>, k: Key, s: nat)
    requires Reaches(c, st, steps) && c.n > 0 && ShardIndex(c, k) == s && s < c.n
    requires var cl := Play(c, st, steps).value;
             && Shape(c, cl) && cl.phase.Clearing? && s in cl.phase.pending && cl.version > 0 && 0 in cl.gets
             && cl.gets[0].keys == [k] && cl.gets[0].version + 1 == cl.version && cl.gets[0].replies == map[]
    ensures var all := steps + [ClearAt(s)] + [ReplyGet(0, s)];
            && Reaches(c, st, all)
            && var st' := Play(c, st, all).value;
              && st'.models == Play(c, st, steps).value.models
              && 0 in st'.gets && st'.gets[0].keys == [k] && st'.gets[0].version == Play(c, st, steps).value.gets[0].version
              && Finished(c, st'.gets[0]) && s in st'.gets[0].late
              && s in st'.gets[0].replies && st'.gets[0].replies[s] == [Item(NOT_FOUND, 0.0)]
  {
    hide Inv, InsertAll, KvsOf, KeysOf, ShardIndex, Play;
    var cl := Play(c, st, steps).value;
    forall t: nat ensures KeysOf(c, [k], t) == if t == s then [k] else [] {
      KeysOfOne(c, k, t);
    }
    PlayOneMore(c, st, steps, ClearAt(s));
    var cleared := Play(c, st, steps + [ClearAt(s)]).value;
    InvShape(c, cleared);
    GetKept(c, cl, ClearAt(s), 0);
    ReplyFacts(c, cleared, 0, s);
    PlayOneMore(c, st, steps + [ClearAt(s)], ReplyGet(0, s));
    assert LookupAll(map[], [k]) == [Item(NOT_FOUND, 0.0)];
    TwoParities(cl.version - 1);
  }
}

/** The sequential handler and the protocol are two accounts of the same calls: a reload of the handler is a run of
    protocol steps, and the handler's gathering turns a get of the protocol into its response
    (cannon_proxy/src/proxy_server.cpp). */
module SequentialReload {
  import opened Wrappers
  import opened Storage
  import opened Proxy
  import opened ReloadProtocol

  // ---------------------------------------------------------------- playing steps

  /** The state after `steps`, if each of them is enabled when its turn comes. */
  ghost function Play(c: Config, st: State, steps: seq<Step>): Option<State> {
    if steps == [] then Some(st)
    else
      var n := |steps| - 1;
      match Play(c, st, steps[..n])
      case None => None
      case Some(mid) => if Shape(c, mid) && Enabled(c, mid, steps[n]) then Some(After(c, mid, steps[n])) else None
  }

  lemma {:induction false} PlayTwice(c: Config, st: State, xs: seq<Step>, ys: seq<Step>)
    requires Play(c, st, xs).Some?
    ensures Play(c, st, xs + ys) == Play(c, Play(c, st, xs).value, ys)
  {
    if ys == [] {
      assert xs + ys == xs;
    } else {
      PlayTwice(c, st, xs, ys[..|ys| - 1]);
      assert (xs + ys)[..|xs + ys| - 1] == xs + ys[..|ys| - 1];
    }
  }

  /** Steps played from an initial state are a run. */
  lemma {:induction false} PlayIsRun(c: Config, st: State, steps: seq<Step>)
    requires Init(c, st) && Play(c, st, steps).Some?
    ensures exists states :: IsRun(c, states, steps) && states[|steps|] == Play(c, st, steps).value
  {
    hide Init, Shape, Enabled, After;
    if steps == [] {
      assert IsRun(c, [st], []);
    } else {
      var n := |steps| - 1;
      PlayIsRun(c, st, steps[..n]);
      var before :| IsRun(c, before, steps[..n]) && before[n] == Play(c, st, steps[..n]).value;
      var states := before + [Play(c, st, steps).value];
      forall i | 0 <= i < |steps|
        ensures Shape(c, states[i]) && Enabled(c, states[i], steps[i]) && states[i + 1] == After(c, states[i], steps[i])
      {
        assert i < n ==> steps[i] == steps[..n][i];
      }
      assert IsRun(c, states, steps);
    }
  }

  /** The steps can be played from `st`, and the invariant holds where they end. */
  ghost predicate Reaches(c: Config, st: State, steps: seq<Step>) {
    Play(c, st, steps).Some? && Inv(c, Play(c, st, steps).value)
  }

  /** The same gets with the same replies; a clear may have overtaken them. */
  ghost predicate SameGets(st: State, st': State) {
    && st'.gets.Keys == st.gets.Keys
    && forall id <- st.gets ::
      var g, g' := st.gets[id], st'.gets[id]; g'.keys == g.keys && g'.version == g.version && g'.replies == g.replies
  }

  ghost predicate SameHistory(st: State, st': State) {
    st'.version == st.version && st'.models == st.models && st'.left == st.left && SameGets(st, st')
  }

  /** One more step after steps that were played. */
  lemma PlayOneMore(c: Config, st: State, steps: seq<Step>, step: Step)
    requires Reaches(c, st, steps) && Enabled(c, Play(c, st, steps).value, step)
    ensures Reaches(c, st, steps + [step])
    ensures Play(c, st, steps + [step]) == Some(After(c, Play(c, st, steps).value, step))
  {
    hide Enabled, After;
    assert (steps + [step])[..|steps|] == steps;
    StepInv(c, Play(c, st, steps).value, step);
  }

  lemma PlayOnly(c: Config, st: State, step: Step)
    requires Inv(c, st) && Enabled(c, st, step)
    ensures Reaches(c, st, [step]) && Play(c, st, [step]) == Some(After(c, st, step))
  {
    hide Inv, Enabled, After;
    assert [] + [step] == [step];
    PlayOneMore(c, st, [], step);
  }

  // ---------------------------------------------------------------- the steps of one reload

  ghost function InsertSteps(c: Config, block: seq<KV>, n: nat): seq<Step>
    requires c.n > 0
  {
    if n == 0 then []
    else InsertSteps(c, block, n - 1) + (if KvsOf(c, block, n - 1) == [] then [] else [InsertAt(n - 1)])
  }

  ghost function BlockSteps(c: Config, block: seq<KV>): seq<Step>
    requires c.n > 0
  {
    [StartBlock] + InsertSteps(c, block, c.n) + [EndBlock]
  }

  ghost function LoadSteps(c: Config, blocks: seq<seq<KV>>, n: nat): seq<Step>
    requires c.n > 0 && n <= |blocks|
  {
    if n == 0 then [StartReload(blocks)] else LoadSteps(c, blocks, n - 1) + BlockSteps(c, blocks[n - 1])
  }

  ghost function ClearSteps(n: nat): seq<Step> {
    if n == 0 then [Commit] else ClearSteps(n - 1) + [ClearAt(n - 1)]
  }

  /** The calls of one reload in the order in which the handler makes them. */
  ghost function ReloadSteps(c: Config, blocks: seq<seq<KV>>, ret: bool): seq<Step>
    requires c.n > 0
  {
    LoadSteps(c, blocks, |blocks|) + if ret then ClearSteps(c.n) + [EndReload] else [Abort]
  }

  /** The shards from `n` on still wait for their part of the block. */
  ghost predicate Waiting(c: Config, p: Phase, n: nat)
    requires c.n > 0 && p.Inserting? && p.done < |p.blocks|
  {
    forall s: nat :: s in p.pending <==> n <= s < c.n && KvsOf(c, p.blocks[p.done], s) != []
  }

  lemma {:induction false} InsertsPlay(c: Config, st: State, n: nat)
    requires Inv(c, st) && st.phase.Inserting? && st.phase.done < |st.phase.blocks| && Waiting(c, st.phase, 0) && n <= c.n
    ensures var steps := InsertSteps(c, st.phase.blocks[st.phase.done], n);
            && Reaches(c, st, steps)
            && var st' := Play(c, st, steps).value;
              && SameHistory(st, st') && st'.phase.Inserting? && st'.phase.blocks == st.phase.blocks
              && st'.phase.done == st.phase.done && Waiting(c, st'.phase, n)
  {
    hide Inv, KvsOf, InsertAll, AllFresh;
    if n > 0 {
      var block := st.phase.blocks[st.phase.done];
      var steps := InsertSteps(c, block, n - 1);
      InsertsPlay(c, st, n - 1);
      if KvsOf(c, block, n - 1) == [] {
        assert steps + [] == steps;
      } else {
        InvShape(c, Play(c, st, steps).value);
        PlayOneMore(c, st, steps, InsertAt(n - 1));
      }
    }
  }

  lemma InvShape(c: Config, st: State)
    requires Inv(c, st)
    ensures Shape(c, st)
    ensures st.phase.Clearing? ==> st.version > 0
  {
  }

  lemma BlockPlays(c: Config, st: State)
    requires Inv(c, st) && st.phase.Loading? && st.phase.done < |st.phase.blocks|
    ensures var steps := BlockSteps(c, st.phase.blocks[st.phase.done]);
            && Reaches(c, st, steps)
            && var st' := Play(c, st, steps).value;
              && SameHistory(st, st') && st'.phase.Loading? && st'.phase.blocks == st.phase.blocks
              && st'.phase.done == st.phase.done + 1
  {
    hide Inv, KvsOf, InsertAll, AllFresh;
    InvShape(c, st);
    var block := st.phase.blocks[st.phase.done];
    PlayOnly(c, st, StartBlock);
    var mid := Play(c, st, [StartBlock]).value;
    InsertsPlay(c, mid, c.n);
    PlayTwice(c, st, [StartBlock], InsertSteps(c, block, c.n));
    var done := Play(c, st, [StartBlock] + InsertSteps(c, block, c.n)).value;
    assert done.phase.pending == {};
    InvShape(c, done);
    PlayOneMore(c, st, [StartBlock] + InsertSteps(c, block, c.n), EndBlock);
  }

  lemma {:induction false} LoadPlays(c: Config, st: State, blocks: seq<seq<KV>>, n: nat)
    requires Inv(c, st) && st.phase.Idle? && n <= |blocks|
    requires forall i | 0 <= i < |blocks| :: Sharded(c, KeysIn(blocks[i]))
    ensures Reaches(c, st, LoadSteps(c, blocks, n))
    ensures var st' := Play(c, st, LoadSteps(c, blocks, n)).value;
            SameHistory(st, st') && st'.phase.Loading? && st'.phase.blocks == blocks && st'.phase.done == n
  {
    hide Inv, KvsOf, BlockSteps, Sharded;
    InvShape(c, st);
    if n == 0 {
      PlayOnly(c, st, StartReload(blocks));
    } else {
      LoadPlays(c, st, blocks, n - 1);
      BlockPlays(c, Play(c, st, LoadSteps(c, blocks, n - 1)).value);
      PlayTwice(c, st, LoadSteps(c, blocks, n - 1), BlockSteps(c, blocks[n - 1]));
    }
  }

  lemma CommitFacts(c: Config, st: State)
    requires Shape(c, st) && st.phase.Loading? && st.phase.done == |st.phase.blocks| && st.phase.ok
    ensures Enabled(c, st, Commit)
    ensures var st' := After(c, st, Commit);
            && st'.version == st.version + 1 && st'.models == st.models + [Model(st.left, Flat(st.phase.blocks))]
            && st'.left == [] && st'.gets == st.gets && st'.phase == Clearing(Below(c.n))
  {
  }

  lemma ClearFacts(c: Config, st: State, s: nat)
    requires Shape(c, st) && st.phase.Clearing? && s in st.phase.pending && s < c.n && st.version > 0
    ensures Enabled(c, st, ClearAt(s))
    ensures var st' := After(c, st, ClearAt(s));
            SameHistory(st, st') && st'.phase == Clearing(st.phase.pending - {s})
  {
    hide KeysOf;
  }

  lemma {:induction false} ClearPlays(c: Config, st: State, n: nat)
    requires Inv(c, st) && st.phase.Loading? && st.phase.done == |st.phase.blocks| && st.phase.ok && n <= c.n
    ensures Reaches(c, st, ClearSteps(n))
    ensures var st' := Play(c, st, ClearSteps(n)).value;
            && st'.version == st.version + 1 && st'.models == st.models + [Model(st.left, Flat(st.phase.blocks))]
            && st'.left == [] && SameGets(st, st')
            && st'.phase.Clearing? && forall s: nat :: s in st'.phase.pending <==> n <= s < c.n
  {
    hide Inv, KvsOf, KeysOf, Enabled, After;
    InvShape(c, st);
    if n == 0 {
      CommitFacts(c, st);
      PlayOnly(c, st, Commit);
    } else {
      ClearPlays(c, st, n - 1);
      var mid := Play(c, st, ClearSteps(n - 1)).value;
      InvShape(c, mid);
      ClearFacts(c, mid, n - 1);
      PlayOneMore(c, st, ClearSteps(n - 1), ClearAt(n - 1));
    }
  }

  lemma SameGetsTwice(st: State, mid: State, st': State)
    requires SameGets(st, mid) && SameGets(mid, st')
    ensures SameGets(st, st')
  {
  }

  lemma EndFacts(c: Config, st: State)
    requires Shape(c, st) && st.phase.Clearing? && st.phase.pending == {}
    ensures Enabled(c, st, EndReload) && After(c, st, EndReload) == st.(phase := Idle)
    ensures SameGets(st, After(c, st, EndReload))
  {
  }

  lemma AbortFacts(c: Config, st: State)
    requires Shape(c, st) && st.phase.Loading? && st.phase.done == |st.phase.blocks| && !st.phase.ok
    ensures Enabled(c, st, Abort)
    ensures After(c, st, Abort) == st.(phase := Idle, left := st.left + Flat(st.phase.blocks))
    ensures SameGets(st, After(c, st, Abort))
  {
  }

  /** No pair of the input is refused anywhere. */
  ghost predicate Accepted(c: Config, st: State, blocks: seq<seq<KV>>)
    requires c.n > 0
  {
    forall s: nat | s < c.n :: Complete(c, Model(st.left, Flat(blocks)), s)
  }

  /** From every idle state a reload runs to its end, and what it does to the history depends on whether all its
      pairs were new. */
  lemma ReloadPlays(c: Config, st: State, blocks: seq<seq<KV>>)
    requires Inv(c, st) && st.phase.Idle? && forall i | 0 <= i < |blocks| :: Sharded(c, KeysIn(blocks[i]))
    ensures var ret := Accepted(c, st, blocks);
            && Reaches(c, st, ReloadSteps(c, blocks, ret))
            && var st' := Play(c, st, ReloadSteps(c, blocks, ret)).value;
              && st'.phase.Idle? && SameGets(st, st')
              && st'.version == st.version + (if ret then 1 else 0)
              && st'.models == st.models + (if ret then [Model(st.left, Flat(blocks))] else [])
              && st'.left == if ret then [] else st.left + Flat(blocks)
  {
    hide Inv, KvsOf, KeysOf, Sharded, LoadSteps, ClearSteps, Complete, Flat, SameGets, Enabled, After;
    InvShape(c, st);
    var steps := LoadSteps(c, blocks, |blocks|);
    LoadPlays(c, st, blocks, |blocks|);
    var loaded := Play(c, st, steps).value;
    InvShape(c, loaded);
    LoadedFlag(c, loaded);
    if Accepted(c, st, blocks) {
      ClearPlays(c, loaded, c.n);
      PlayTwice(c, st, steps, ClearSteps(c.n));
      var cleared := Play(c, loaded, ClearSteps(c.n)).value;
      InvShape(c, cleared);
      assert cleared.phase.pending == {};
      EndFacts(c, cleared);
      SameGetsTwice(st, loaded, cleared);
      SameGetsTwice(st, cleared, After(c, cleared, EndReload));
      PlayOneMore(c, st, steps + ClearSteps(c.n), EndReload);
      assert steps + ClearSteps(c.n) + [EndReload] == steps + (ClearSteps(c.n) + [EndReload]);
    } else {
      AbortFacts(c, loaded);
      SameGetsTwice(st, loaded, After(c, loaded, Abort));
      PlayOneMore(c, st, steps, Abort);
      assert st.models + [] == st.models;
    }
  }

  lemma LoadedFlag(c: Config, st: State)
    requires Inv(c, st) && st.phase.Loading? && st.phase.done == |st.phase.blocks|
    ensures st.phase.ok <==> Accepted(c, st, st.phase.blocks)
  {
    hide Complete, Content, Flat;
    LoadedAll(c, st);
    if st.phase.ok {
      forall s: nat | s < c.n ensures Complete(c, Model(st.left, Flat(st.phase.blocks)), s) {
        assert Complete(c, Partial(st, s), s);
      }
    } else {
      var s: nat :| s < c.n && !Complete(c, Partial(st, s), s);
    }
  }

  // ---------------------------------------------------------------- the handler plays these steps

  /** The handler and its clients are in the state `st`, between two calls. */
  ghost predicate Stands(h: CannonServiceHandler, st: State)
    reads h, h.clients
  {
    && h.Valid() && Inv(h.c, st) && st.stores == h.AllStores() && st.version == h.dataVersion
    && st.phase == if h.isLoading then Locked else Idle
  }

  /** A new handler with empty clients stands where the protocol starts. */
  lemma HandlerStarts(h: CannonServiceHandler, st: State)
    requires h.Valid() && h.c.n > 0 && h.dataVersion == 0 && !h.isLoading && Init(h.c, st)
    requires forall i | 0 <= i < |h.clients| :: h.clients[i].stores == [map[], map[]]
    ensures Stands(h, st)
  {
    InitInv(h.c, st);
  }

  /** An idle state's stores are determined by its history. */
  lemma IdleStores(c: Config, st: State, s: nat)
    requires Inv(c, st) && st.phase.Idle? && s < c.n
    ensures |st.stores| == c.n && |st.stores[s]| == 2 && |st.models| == st.version + 1
    ensures st.stores[s][Index(st.version)] == Content(c, st.models[st.version], s)
    ensures st.stores[s][Index(st.version + 1)] == Remains(c, st.left, s)
  {
  }

  /** What one client stores after a reload, from the store contents before it. */
  ghost function Reloaded(h: CannonServiceHandler, stores: seq<Store>, version: nat, input: seq<KV>, ret: bool, s: nat): seq<Store>
    requires h.c.n > 0 && |stores| == 2
  {
    var loaded := h.Inserted(stores, version + 1, input, s);
    if ret then loaded[Index(version) := map[]] else loaded
  }

  lemma TwoParities(version: int)
    ensures Index(version + 2) == Index(version) != Index(version + 1) && Index(version) < 2
  {
  }

  lemma SameStores(xs: seq<Store>, ys: seq<Store>, version: int)
    requires |xs| == |ys| == 2
    requires xs[Index(version)] == ys[Index(version)] && xs[Index(version + 1)] == ys[Index(version + 1)]
    ensures xs == ys
  {
  }

  lemma ReloadedStores(h: CannonServiceHandler, st: State, st': State, input: seq<KV>, ret: bool, s: nat)
    requires Inv(h.c, st) && st.phase.Idle? && Inv(h.c, st') && st'.phase.Idle? && s < h.c.n
    requires st'.version == st.version + (if ret then 1 else 0)
    requires st'.models == st.models + (if ret then [Model(st.left, input)] else [])
    requires st'.left == if ret then [] else st.left + input
    ensures |st.stores| == |st'.stores| == h.c.n && |st.stores[s]| == 2
    ensures st'.stores[s] == Reloaded(h, st.stores[s], st.version, input, ret, s)
  {
    hide Inv, InsertAll, KvsOf, Index;
    IdleStores(h.c, st, s);
    IdleStores(h.c, st', s);
    TwoParities(st.version);
    TwoParities(st.version + 1);
    if ret {
      NothingRemains(h.c, s);
    } else {
      ContentIsRemains(h.c, Model(st.left, input), s);
    }
    SameStores(st'.stores[s], Reloaded(h, st.stores[s], st.version, input, ret, s), st.version);
  }

  lemma ReloadedAll(h: CannonServiceHandler, st: State, st': State, input: seq<KV>, ret: bool, after: seq<seq<Store>>)
    requires Inv(h.c, st) && st.phase.Idle? && Inv(h.c, st') && st'.phase.Idle?
    requires st'.version == st.version + (if ret then 1 else 0)
    requires st'.models == st.models + (if ret then [Model(st.left, input)] else [])
    requires st'.left == if ret then [] else st.left + input
    requires |after| == |st.stores| == h.c.n && forall s | 0 <= s < h.c.n :: |st.stores[s]| == 2
    requires forall s: nat | s < h.c.n :: after[s] == Reloaded(h, st.stores[s], st.version, input, ret, s)
    ensures st'.stores == after
  {
    hide Inv, Reloaded;
    InvShape(h.c, st');
    forall s: nat | s < h.c.n ensures st'.stores[s] == after[s] {
      ReloadedStores(h, st, st', input, ret, s);
    }
  }

  /** The steps by which the handler's `Reload` is one run of the protocol. */
  ghost function CallSteps(c: Config, st: State, noPaths: bool, blocks: seq<seq<KV>>): seq<Step>
    requires c.n > 0
  {
    if !st.phase.Idle? then [RejectReload]
    else if noPaths then [StartEmptyReload]
    else ReloadSteps(c, blocks, Accepted(c, st, blocks))
  }

  /** Calling the handler is playing these steps: same stores, same version, same loading flag, and the result tells
      whether every pair was new. */
  method ReloadRefines(h: CannonServiceHandler, noPaths: bool, blocks: seq<seq<KV>>, ghost st: State)
      returns (ret: bool, ghost st': State)
    requires Stands(h, st) && forall i | 0 <= i < |blocks| :: Sharded(h.c, KeysIn(blocks[i]))
    modifies h, h.clients
    ensures h.c.n > 0 && Play(h.c, st, CallSteps(h.c, st, noPaths, blocks)) == Some(st') && Stands(h, st')
    ensures ret <==> st.phase.Idle? && (noPaths || Accepted(h.c, st, blocks))
  {
    hide Inv, InsertAll, KvsOf, AllFresh, Sharded, ReloadSteps, Accepted, h.Inserted, h.FreshBelow, Shape, Play;
    InvShape(h.c, st);
    ret := h.Reload(noPaths, blocks);
    if !st.phase.Idle? {
      PlayOnly(h.c, st, RejectReload);
      st' := st;
    } else if noPaths {
      PlayOnly(h.c, st, StartEmptyReload);
      st' := After(h.c, st, StartEmptyReload);
    } else {
      ReloadPlays(h.c, st, blocks);
      st' := Play(h.c, st, ReloadSteps(h.c, blocks, Accepted(h.c, st, blocks))).value;
      AcceptedIsFresh(h, st, blocks);
      InvShape(h.c, st');
      ReloadedAll(h, st, st', Flat(blocks), ret, h.AllStores());
    }
  }

  /** The handler's result is the protocol's flag. */
  lemma AcceptedIsFresh(h: CannonServiceHandler, st: State, blocks: seq<seq<KV>>)
    requires Inv(h.c, st) && st.phase.Idle?
    ensures |st.stores| == h.c.n && forall s | 0 <= s < |st.stores| :: |st.stores[s]| == 2
    ensures Accepted(h.c, st, blocks) <==> h.FreshBelow(st.stores, st.version + 1, Flat(blocks), h.c.n)
  {
    hide Inv, KvsOf, InsertAll, Remains, Flat, AllFresh;
    InvShape(h.c, st);
    forall s: nat | s < h.c.n
      ensures Complete(h.c, Model(st.left, Flat(blocks)), s) <==> h.FreshFor(st.stores[s], st.version + 1, Flat(blocks), s)
    {
      IdleStores(h.c, st, s);
    }
  }

  // ---------------------------------------------------------------- a get as steps

  /** A get and the answers of its shards below `n`, in shard order. */
  ghost function GetSteps(c: Config, id: nat, keys: seq<Key>, n: nat): seq<Step>
    requires c.n > 0
  {
    if n == 0 then [StartGet(id, keys)]
    else GetSteps(c, id, keys, n - 1) + (if KeysOf(c, keys, n - 1) == [] then [] else [ReplyGet(id, n - 1)])
  }

  /** Of two states: the second has one get more, answered by the shards below `n` from the live stores. */
  ghost predicate Answered(c: Config, st: State, st': State, id: nat, keys: seq<Key>, n: nat)
    requires Shape(c, st) && n <= c.n
  {
    && id in st'.gets && st' == st.(gets := st.gets[id := st'.gets[id]])
    && st'.gets[id].keys == keys && st'.gets[id].version == st.version && st'.gets[id].late == {}
    && (forall s: nat :: s in st'.gets[id].replies <==> s < n && KeysOf(c, keys, s) != [])
    && forall s <- st'.gets[id].replies ::
      s < c.n && st'.gets[id].replies[s] == LookupAll(st.stores[s][Index(st.version)], KeysOf(c, keys, s))
  }

  lemma AnswerOne(c: Config, st: State, mid: State, id: nat, keys: seq<Key>, n: nat)
    requires Shape(c, st) && Shape(c, mid) && n < c.n && Answered(c, st, mid, id, keys, n)
    ensures KeysOf(c, keys, n) == [] ==> Answered(c, st, mid, id, keys, n + 1)
    ensures KeysOf(c, keys, n) != [] ==> Enabled(c, mid, ReplyGet(id, n))
    ensures KeysOf(c, keys, n) != [] ==> Answered(c, st, After(c, mid, ReplyGet(id, n)), id, keys, n + 1)
  {
    hide KeysOf, LookupAll, Index;
    if KeysOf(c, keys, n) != [] {
      ReplyFacts(c, mid, id, n);
    }
  }

  /** In every state a new get can be started and answered by shard after shard; nothing but the get changes. */
  lemma {:induction false} GetPlays(c: Config, st: State, id: nat, keys: seq<Key>, n: nat)
    requires Inv(c, st) && id !in st.gets && Sharded(c, keys) && n <= c.n
    ensures Shape(c, st) && Reaches(c, st, GetSteps(c, id, keys, n))
    ensures Answered(c, st, Play(c, st, GetSteps(c, id, keys, n)).value, id, keys, n)
  {
    hide Inv, KeysOf, Sharded, KvsOf, Answered, Enabled, After, Play;
    InvShape(c, st);
    if n == 0 {
      StartAnswered(c, st, id, keys);
      PlayOnly(c, st, StartGet(id, keys));
    } else {
      var before := GetSteps(c, id, keys, n - 1);
      GetPlays(c, st, id, keys, n - 1);
      var mid := Play(c, st, before).value;
      InvShape(c, mid);
      AnswerOne(c, st, mid, id, keys, n - 1);
      if KeysOf(c, keys, n - 1) == [] {
        assert before + [] == before;
      } else {
        PlayOneMore(c, st, before, ReplyGet(id, n - 1));
      }
    }
  }

  lemma StartAnswered(c: Config, st: State, id: nat, keys: seq<Key>)
    requires Shape(c, st) && id !in st.gets && Sharded(c, keys)
    ensures Enabled(c, st, StartGet(id, keys)) && Answered(c, st, After(c, st, StartGet(id, keys)), id, keys, 0)
  {
    StartFacts(c, st, id, keys);
  }

  lemma StartFacts(c: Config, st: State, id: nat, keys: seq<Key>)
    requires Shape(c, st) && id !in st.gets && Sharded(c, keys)
    ensures Enabled(c, st, StartGet(id, keys))
    ensures After(c, st, StartGet(id, keys)) == st.(gets := st.gets[id := Get(st.version, keys, map[], {})])
  {
  }

  lemma ReplyFacts(c: Config, st: State, id: nat, s: nat)
    requires Shape(c, st) && id in st.gets && s < c.n && s !in st.gets[id].replies && KeysOf(c, st.gets[id].keys, s) != []
    ensures Enabled(c, st, ReplyGet(id, s))
    ensures var g := st.gets[id];
            var reply := LookupAll(st.stores[s][Index(g.version)], KeysOf(c, g.keys, s));
            After(c, st, ReplyGet(id, s)) == st.(gets := st.gets[id := g.(replies := g.replies[s := reply])])
  {
  }

  /** Calling the handler's get is playing these steps: the finished get gathers the replies that the handler's
      clients give. */
  lemma GetRefines(h: CannonServiceHandler, st: State, id: nat, keys: seq<Key>)
    requires Stands(h, st) && id !in st.gets && Sharded(h.c, keys)
    ensures h.c.n > 0 && Reaches(h.c, st, GetSteps(h.c, id, keys, h.c.n))
    ensures var st' := Play(h.c, st, GetSteps(h.c, id, keys, h.c.n)).value;
            && Stands(h, st') && id in st'.gets && Finished(h.c, st'.gets[id]) && st'.gets[id].late == {}
            && Results(h.c, st'.gets[id], 0) == Replies(Sharding(h.c, keys), FromStores(h.Stored(h.dataVersion)), 0)
  {
    hide Inv, KeysOf, Sharded, KvsOf, Play;
    GetPlays(h.c, st, id, keys, h.c.n);
    var g := Play(h.c, st, GetSteps(h.c, id, keys, h.c.n)).value.gets[id];
    var answer := FromStores(h.Stored(h.dataVersion));
    forall t: nat | t < h.c.n && KeysOf(h.c, keys, t) != []
      ensures g.replies[t] == AnswerAll(answer, t, KeysOf(h.c, keys, t))
    {
    }
    ResultsAreReplies(h.c, g, answer, 0);
  }

  // ---------------------------------------------------------------- the response of a get

  /** Gathering the replies of a finished get of a version that was loaded with no failed reload just before it: a
      position whose key does not come again gets the value of the first pair of the input that names the key, or not
      found when none does, and the status tells whether all keys are named. */
  method GatherFinished(h: CannonServiceHandler, keys: seq<Key>, sharding: seq<seq<Key>>, keyIdx: map<Key, nat>,
                        results: seq<seq<Item>>, ghost states: seq<State>, ghost steps: seq<Step>, ghost i: nat,
                        ghost id: nat, ghost a: nat, ghost j: nat)
      returns (response: Response)
    requires Sharded(h.c, keys)
    requires |sharding| == h.c.n && forall s | 0 <= s < h.c.n :: sharding[s] == KeysOf(h.c, keys, s)
    requires forall k <- keys :: k in keyIdx && keyIdx[k] == LastIndex(keys, k)
    requires IsRun(h.c, states, steps) && a < i < |states| && steps[a] == StartGet(id, keys) && id in states[i].gets
    requires Finished(h.c, states[i].gets[id]) && results == Results(h.c, states[i].gets[id], 0)
    requires states[i].gets[id].late == {} && j < i && Commits(states, steps, j, states[a].version) && NoneFails(steps, j)
    ensures |response.values| == |keys|
    ensures forall p | 0 <= p < |keys| :: response.values[p] == Cell(h.c, keys, InputAnswer(Flat(Started(steps, j))), p)
    ensures response.status == Overall(h.c, KeySet(keys), InputAnswer(Flat(Started(steps, j))))
    ensures forall p, o | 0 <= p < |keys| && (forall r | p < r < |keys| :: keys[r] != keys[p]) &&
                          FirstPair(Flat(Started(steps, j)), keys[p], o) ::
              response.values[p] == Item(FOUND, Flat(Started(steps, j))[o].value)
    ensures forall p | 0 <= p < |keys| && (forall r | p < r < |keys| :: keys[r] != keys[p]) &&
                       !Names(Flat(Started(steps, j)), keys[p]) ::
              response.values[p] == Item(NOT_FOUND, 0.0)
    ensures response.status == if forall k <- keys :: Names(Flat(Started(steps, j)), k) then OK else PARTIAL_OK
  {
    hide IsRun, NoneFails, KeysOf, Cell, Overall, LastIndex, Results;
    FinishedGetReturnsOneInput(h.c, states, steps, i, id, a, keys, j);
    assert sharding == Sharding(h.c, keys);
    ghost var input := Flat(Started(steps, j));
    response := h.Gather(keys, sharding, keyIdx, results, InputAnswer(input));
    InputCells(h.c, keys, input);
    InputStatus(h.c, keys, input);
  }

  lemma InputCells(c: Config, keys: seq<Key>, input: seq<KV>)
    requires Sharded(c, keys)
    ensures forall p, o | 0 <= p < |keys| && (forall r | p < r < |keys| :: keys[r] != keys[p]) && FirstPair(input, keys[p], o) ::
              Cell(c, keys, InputAnswer(input), p) == Item(FOUND, input[o].value)
    ensures forall p | 0 <= p < |keys| && (forall r | p < r < |keys| :: keys[r] != keys[p]) && !Names(input, keys[p]) ::
              Cell(c, keys, InputAnswer(input), p) == Item(NOT_FOUND, 0.0)
  {
    hide InsertAll, Lookup, Names, ShardIndex;
    forall k <- keys
      ensures !Names(input, k) ==> Lookup(InsertAll(map[], input), k) == Item(NOT_FOUND, 0.0)
      ensures forall o | FirstPair(input, k, o) :: Lookup(InsertAll(map[], input), k) == Item(FOUND, input[o].value)
    {
      InputItem(input, k);
    }
  }

  lemma InputStatus(c: Config, keys: seq<Key>, input: seq<KV>)
    requires Sharded(c, keys)
    ensures Overall(c, KeySet(keys), InputAnswer(input)) == if forall k <- keys :: Names(input, k) then OK else PARTIAL_OK
  {
    hide InsertAll, Lookup, Names, ShardIndex;
    forall k <- keys
      ensures Names(input, k) <==> Lookup(InsertAll(map[], input), k).status == FOUND
      ensures Lookup(InsertAll(map[], input), k).status != ItemStatus.ERROR
    {
      InputItem(input, k);
    }
  }
}

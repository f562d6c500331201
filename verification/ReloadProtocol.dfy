/** The versioned double-buffer protocol: concurrent gets, block inserts, commit and clear, each request to a
    server being one step (cannon_proxy/src/proxy_server.cpp, cannon_proxy/cannon/src/cannon/storage.cpp). */
module ReloadProtocol {
  import opened Storage
  import opened Proxy

  /** A `get` in flight or finished: the version read at its start and the replies of its shards. The shards whose
      store of that version was cleared before they replied are recorded in `late`. */
  datatype Get = Get(version: nat, keys: seq<Key>, replies: map<nat, seq<Item>>, late: set<nat>)

  /** The history of a version: the inputs of the reloads that failed just before it, and its own input. */
  datatype Model = Model(left: seq<KV>, input: seq<KV>)

  /** Where the reload is. `Locked`: the loading flag was left set. In `Inserting` the shards in `pending` have not
      got their part of block `done` yet. */
  datatype Phase =
    | Idle
    | Locked
    | Loading(blocks: seq<seq<KV>>, done: nat, ok: bool)
    | Inserting(blocks: seq<seq<KV>>, done: nat, ok: bool, pending: set<nat>)
    | Clearing(pending: set<nat>)

  /** `models` and `left` only record the past: the committed versions, and the inputs of the reloads that failed
      since the last of them. */
  datatype State = State(stores: seq<seq<Store>>, version: nat, phase: Phase, gets: map<nat, Get>,
                         models: seq<Model>, left: seq<KV>)

  datatype Step =
    | StartGet(id: nat, keys: seq<Key>)
    | ReplyGet(id: nat, s: nat)
    | RejectReload
    | StartEmptyReload
    | StartReload(blocks: seq<seq<KV>>)
    | StartBlock
    | InsertAt(s: nat)
    | EndBlock
    | Commit
    | Abort
    | ClearAt(s: nat)
    | EndReload

  ghost predicate Shape(c: Config, st: State) {
    && c.n > 0 && |st.stores| == c.n && |st.models| == st.version + 1
    && forall s | 0 <= s < c.n :: |st.stores[s]| == 2
  }

  ghost function Below(n: nat): (r: set<nat>)
    ensures forall s: nat :: s in r <==> s < n
  {
    if n == 0 then {} else Below(n - 1) + {n - 1}
  }

  ghost predicate Enabled(c: Config, st: State, step: Step)
    requires Shape(c, st)
  {
    match step
    case StartGet(id, keys) => id !in st.gets && Sharded(c, keys)
    case ReplyGet(id, s) =>
      id in st.gets && s < c.n && s !in st.gets[id].replies && KeysOf(c, st.gets[id].keys, s) != []
    case RejectReload => !st.phase.Idle?
    case StartEmptyReload => st.phase.Idle?
    case StartReload(blocks) => st.phase.Idle? && forall i | 0 <= i < |blocks| :: Sharded(c, KeysIn(blocks[i]))
    case StartBlock => st.phase.Loading? && st.phase.done < |st.phase.blocks|
    case InsertAt(s) => st.phase.Inserting? && s in st.phase.pending && s < c.n && st.phase.done < |st.phase.blocks|
    case EndBlock => st.phase.Inserting? && st.phase.pending == {}
    case Commit => st.phase.Loading? && st.phase.done == |st.phase.blocks| && st.phase.ok
    case Abort => st.phase.Loading? && st.phase.done == |st.phase.blocks| && !st.phase.ok
    case ClearAt(s) => st.phase.Clearing? && s in st.phase.pending && s < c.n && st.version > 0
    case EndReload => st.phase.Clearing? && st.phase.pending == {}
  }

  ghost function After(c: Config, st: State, step: Step): State
    requires Shape(c, st) && Enabled(c, st, step)
  {
    match step
    case StartGet(id, keys) => st.(gets := st.gets[id := Get(st.version, keys, map[], {})])
    case ReplyGet(id, s) =>
      var g := st.gets[id];
      var reply := LookupAll(st.stores[s][Index(g.version)], KeysOf(c, g.keys, s));
      st.(gets := st.gets[id := g.(replies := g.replies[s := reply])])
    case RejectReload => st
    case StartEmptyReload => st.(phase := Locked)
    case StartReload(blocks) => st.(phase := Loading(blocks, 0, true))
    case StartBlock =>
      var p := st.phase;
      st.(phase := Inserting(p.blocks, p.done, p.ok, set s: nat | s < c.n && KvsOf(c, p.blocks[p.done], s) != []))
    case InsertAt(s) =>
      var p, i := st.phase, Index(st.version + 1);
      var kvs := KvsOf(c, p.blocks[p.done], s);
      st.(stores := st.stores[s := st.stores[s][i := InsertAll(st.stores[s][i], kvs)]],
          phase := p.(pending := p.pending - {s}, ok := p.ok && AllFresh(st.stores[s][i], kvs)))
    case EndBlock => st.(phase := Loading(st.phase.blocks, st.phase.done + 1, st.phase.ok))
    case Commit =>
      st.(version := st.version + 1, phase := Clearing(Below(c.n)),
          models := st.models + [Model(st.left, Flat(st.phase.blocks))], left := [])
    case Abort => st.(phase := Idle, left := st.left + Flat(st.phase.blocks))
    case ClearAt(s) =>
      st.(stores := st.stores[s := st.stores[s][Index(st.version - 1) := map[]]],
          phase := Clearing(st.phase.pending - {s}),
          gets := map id | id in st.gets :: Overtaken(c, st.gets[id], st.version - 1, s))
    case EndReload => st.(phase := Idle)
  }

  /** A get that still waits for shard `s` when its version is cleared there. */
  ghost function Overtaken(c: Config, g: Get, version: nat, s: nat): Get
    requires c.n > 0
  {
    if g.version == version && s !in g.replies && KeysOf(c, g.keys, s) != [] then g.(late := g.late + {s}) else g
  }

  ghost predicate Init(c: Config, st: State) {
    && c.n > 0
    && st == State(seq(c.n, _ => [map[], map[]]), 0, Idle, map[], [Model([], [])], [])
  }

  /** States that follow each other by enabled steps, from an initial one. */
  ghost predicate IsRun(c: Config, states: seq<State>, steps: seq<Step>) {
    Follows(c, states, steps) && Init(c, states[0])
  }

  ghost predicate Follows(c: Config, states: seq<State>, steps: seq<Step>) {
    && |states| == |steps| + 1
    && forall i | 0 <= i < |steps| ::
      Shape(c, states[i]) && Enabled(c, states[i], steps[i]) && states[i + 1] == After(c, states[i], steps[i])
  }

  // ---------------------------------------------------------------- the invariant

  /** What the inputs of failed reloads leave in the spare store of shard `s`. */
  ghost function Remains(c: Config, left: seq<KV>, s: nat): Store
    requires c.n > 0
  {
    InsertAll(map[], KvsOf(c, left, s))
  }

  /** What shard `s` stores of a complete model. */
  ghost function Content(c: Config, m: Model, s: nat): Store
    requires c.n > 0
  {
    InsertAll(Remains(c, m.left, s), KvsOf(c, m.input, s))
  }

  /** No pair of the input is refused at shard `s`. */
  ghost predicate Complete(c: Config, m: Model, s: nat)
    requires c.n > 0
  {
    AllFresh(Remains(c, m.left, s), KvsOf(c, m.input, s))
  }

  /** How many blocks shard `s` has got. */
  ghost function Progress(p: Phase, s: nat): nat
    requires p.Loading? || p.Inserting?
  {
    if p.Inserting? && s !in p.pending then p.done + 1 else p.done
  }

  /** What shard `s` has got so far. */
  ghost function Partial(st: State, s: nat): Model
    requires (st.phase.Loading? || st.phase.Inserting?) && Progress(st.phase, s) <= |st.phase.blocks|
  {
    Model(st.left, Flat(st.phase.blocks[..Progress(st.phase, s)]))
  }

  /** The live stores hold the whole committed model. */
  ghost predicate LiveOk(c: Config, st: State)
    requires Shape(c, st)
  {
    forall s: nat | s < c.n :: st.stores[s][Index(st.version)] == Content(c, st.models[st.version], s)
  }

  ghost predicate LoadOk(c: Config, st: State)
    requires Shape(c, st)
  {
    var p := st.phase;
    p.Loading? || p.Inserting? ==>
      && (forall s: nat | s < c.n :: Progress(p, s) <= |p.blocks|)
      && (forall s: nat | s < c.n :: st.stores[s][Index(st.version + 1)] == Content(c, Partial(st, s), s))
      && (p.ok <==> forall s: nat | s < c.n :: Complete(c, Partial(st, s), s))
  }

  /** While clearing, the old stores are still whole where the clear has not arrived, and empty where it has. */
  ghost predicate ClearOk(c: Config, st: State)
    requires Shape(c, st)
  {
    st.phase.Clearing? ==>
      && st.version > 0
      && forall s: nat | s < c.n ::
        st.stores[s][Index(st.version - 1)] ==
        if s in st.phase.pending then Content(c, st.models[st.version - 1], s) else map[]
  }

  /** Shard `s` still stores the model of version `v`. */
  ghost predicate Available(st: State, v: nat, s: nat) {
    v == st.version || (st.phase.Clearing? && v + 1 == st.version && s in st.phase.pending)
  }

  ghost predicate GetOk(c: Config, st: State, g: Get)
    requires Shape(c, st)
  {
    && g.version <= st.version
    && forall s: nat | s < c.n && s !in g.late && KeysOf(c, g.keys, s) != [] ::
      if s in g.replies then g.replies[s] == LookupAll(Content(c, st.models[g.version], s), KeysOf(c, g.keys, s))
      else Available(st, g.version, s)
  }

  ghost predicate GetsOk(c: Config, st: State)
    requires Shape(c, st)
  {
    forall id <- st.gets :: GetOk(c, st, st.gets[id])
  }

  /** Every committed model was loaded without a refused pair. */
  ghost predicate ModelsOk(c: Config, st: State)
    requires Shape(c, st)
  {
    forall v: nat, s: nat | v <= st.version && s < c.n :: Complete(c, st.models[v], s)
  }

  /** Between reloads the spare stores hold what the reloads that failed since the last commit left there. */
  ghost predicate LeftOk(c: Config, st: State)
    requires Shape(c, st)
  {
    && (st.phase.Clearing? ==> st.left == [])
    && (st.phase.Idle? || st.phase.Locked? ==>
      forall s: nat | s < c.n :: st.stores[s][Index(st.version + 1)] == Remains(c, st.left, s))
  }

  ghost predicate Inv(c: Config, st: State) {
    && Shape(c, st)
    && LiveOk(c, st) && LoadOk(c, st) && ClearOk(c, st) && GetsOk(c, st) && ModelsOk(c, st) && LeftOk(c, st)
  }

  // ---------------------------------------------------------------- every step keeps it

  lemma InitInv(c: Config, st: State)
    requires Init(c, st)
    ensures Inv(c, st)
  {
  }

  lemma StepShape(c: Config, st: State, step: Step)
    requires Inv(c, st) && Enabled(c, st, step)
    ensures Shape(c, After(c, st, step))
  {
    hide KvsOf, KeysOf, InsertAll, AllFresh;
  }

  lemma StepLive(c: Config, st: State, step: Step)
    requires Inv(c, st) && Enabled(c, st, step)
    ensures Shape(c, After(c, st, step)) && LiveOk(c, After(c, st, step))
  {
    hide KvsOf, KeysOf, InsertAll, AllFresh, GetsOk, LeftOk, ModelsOk, Content, Complete;
    StepShape(c, st, step);
    if step.Commit? {
      LoadedAll(c, st);
    }
  }

  /** When all blocks are done every shard has got the whole input. */
  lemma LoadedAll(c: Config, st: State)
    requires Shape(c, st) && st.phase.Loading? && st.phase.done == |st.phase.blocks|
    ensures forall s: nat | s < c.n :: Partial(st, s) == Model(st.left, Flat(st.phase.blocks))
  {
    assert st.phase.blocks[..st.phase.done] == st.phase.blocks;
  }

  /** One shard's part of a block takes it one block further. */
  lemma PartialGrows(c: Config, left: seq<KV>, blocks: seq<seq<KV>>, done: nat, s: nat)
    requires c.n > 0 && done < |blocks|
    ensures var m, m' := Model(left, Flat(blocks[..done])), Model(left, Flat(blocks[..done + 1]));
            var kvs := KvsOf(c, blocks[done], s);
            && Content(c, m', s) == InsertAll(Content(c, m, s), kvs)
            && (Complete(c, m', s) <==> Complete(c, m, s) && AllFresh(Content(c, m, s), kvs))
            && (kvs == [] ==> Content(c, m', s) == Content(c, m, s) && (Complete(c, m', s) <==> Complete(c, m, s)))
  {
    assert blocks[..done + 1][..done] == blocks[..done] && blocks[..done + 1][done] == blocks[done];
    KvsOfAppend(c, Flat(blocks[..done]), blocks[done], s);
    InsertAllTwice(Remains(c, left, s), KvsOf(c, Flat(blocks[..done]), s), KvsOf(c, blocks[done], s));
    AllFreshTwice(Remains(c, left, s), KvsOf(c, Flat(blocks[..done]), s), KvsOf(c, blocks[done], s));
  }

  lemma StartLoad(c: Config, left: seq<KV>, blocks: seq<seq<KV>>, s: nat)
    requires c.n > 0
    ensures var m := Model(left, Flat(blocks[..0])); Content(c, m, s) == Remains(c, left, s) && Complete(c, m, s)
  {
  }

  /** Inserting at shard `t` moves that shard alone one block on. */
  lemma StepInsert(c: Config, st: State, t: nat)
    requires Inv(c, st) && Enabled(c, st, InsertAt(t))
    ensures Shape(c, After(c, st, InsertAt(t))) && LoadOk(c, After(c, st, InsertAt(t)))
  {
    hide KvsOf, KeysOf, InsertAll, AllFresh, GetsOk, LeftOk, ModelsOk, Content, Complete, Flat, ClearOk, LiveOk;
    var p, st' := st.phase, After(c, st, InsertAt(t));
    PartialGrows(c, st.left, p.blocks, p.done, t);
    assert Partial(st, t) == Model(st.left, Flat(p.blocks[..p.done]));
    assert Partial(st', t) == Model(st.left, Flat(p.blocks[..p.done + 1]));
    forall s: nat | s < c.n && s != t ensures Partial(st', s) == Partial(st, s) {
    }
    assert st'.phase.ok <==> p.ok && Complete(c, Partial(st', t), t);
    if p.ok && Complete(c, Partial(st', t), t) {
      forall s: nat | s < c.n ensures Complete(c, Partial(st', s), s) {
        assert s != t ==> Complete(c, Partial(st, s), s);
      }
    }
    if !p.ok {
      var s: nat :| s < c.n && !Complete(c, Partial(st, s), s);
      assert !Complete(c, Partial(st', s), s);
    }
  }

  lemma StepEndBlock(c: Config, st: State)
    requires Inv(c, st) && Enabled(c, st, EndBlock)
    ensures Shape(c, After(c, st, EndBlock)) && LoadOk(c, After(c, st, EndBlock))
  {
    hide KvsOf, KeysOf, InsertAll, AllFresh, GetsOk, LeftOk, ModelsOk, Content, Complete, Flat, ClearOk, LiveOk;
    var p, st' := st.phase, After(c, st, EndBlock);
    forall s: nat | s < c.n
      ensures Progress(st'.phase, s) == Progress(p, s) <= |p.blocks| && Partial(st', s) == Partial(st, s)
    {
    }
    if p.ok {
      forall s: nat | s < c.n ensures Complete(c, Partial(st', s), s) {
        assert Complete(c, Partial(st, s), s);
      }
    } else {
      var s: nat :| s < c.n && !Complete(c, Partial(st, s), s);
      assert !Complete(c, Partial(st', s), s);
    }
  }

  lemma SameLoad(c: Config, st: State, st': State)
    requires Shape(c, st) && LoadOk(c, st) && Shape(c, st')
    requires st'.stores == st.stores && st'.version == st.version && st'.phase == st.phase && st'.left == st.left
    ensures LoadOk(c, st')
  {
    hide KvsOf, InsertAll, AllFresh, Content, Complete, Flat;
    if st.phase.Loading? || st.phase.Inserting? {
      forall s: nat | s < c.n ensures Progress(st.phase, s) <= |st.phase.blocks| && Partial(st', s) == Partial(st, s) {
      }
    }
  }

  lemma StepLoad(c: Config, st: State, step: Step)
    requires Inv(c, st) && Enabled(c, st, step)
    ensures Shape(c, After(c, st, step)) && LoadOk(c, After(c, st, step))
  {
    hide KvsOf, KeysOf, InsertAll, AllFresh, GetsOk, ModelsOk, Content, Complete, Flat, ClearOk, LiveOk, Remains;
    StepShape(c, st, step);
    var st' := After(c, st, step);
    match step
    case StartReload(blocks) =>
      forall s: nat | s < c.n
        ensures Content(c, Partial(st', s), s) == Remains(c, st.left, s) && Complete(c, Partial(st', s), s)
      {
        StartLoad(c, st.left, blocks, s);
      }
    case StartBlock =>
      forall s: nat | s < c.n
        ensures Content(c, Partial(st', s), s) == Content(c, Partial(st, s), s)
        ensures Complete(c, Partial(st', s), s) <==> Complete(c, Partial(st, s), s)
      {
        PartialGrows(c, st.left, st.phase.blocks, st.phase.done, s);
      }
    case InsertAt(t) =>
      StepInsert(c, st, t);
    case EndBlock =>
      StepEndBlock(c, st);
    case StartGet(_, _) =>
      SameLoad(c, st, st');
    case ReplyGet(_, _) =>
      SameLoad(c, st, st');
    case _ =>
  }

  lemma StepClear(c: Config, st: State, step: Step)
    requires Inv(c, st) && Enabled(c, st, step)
    ensures Shape(c, After(c, st, step)) && ClearOk(c, After(c, st, step))
  {
    hide KvsOf, KeysOf, InsertAll, AllFresh, GetsOk, LeftOk, ModelsOk, Content, LoadOk;
    StepShape(c, st, step);
  }

  lemma StepGets(c: Config, st: State, step: Step)
    requires Inv(c, st) && Enabled(c, st, step)
    ensures Shape(c, After(c, st, step)) && GetsOk(c, After(c, st, step))
  {
    hide KvsOf, KeysOf, InsertAll, AllFresh, LeftOk, ModelsOk, Content, LoadOk, LookupAll;
    StepShape(c, st, step);
    var st' := After(c, st, step);
    forall id | id in st'.gets ensures GetOk(c, st', st'.gets[id]) {
      assert id in st.gets ==> GetOk(c, st, st.gets[id]);
    }
  }

  lemma StepModels(c: Config, st: State, step: Step)
    requires Inv(c, st) && Enabled(c, st, step)
    ensures Shape(c, After(c, st, step)) && ModelsOk(c, After(c, st, step))
  {
    hide KvsOf, KeysOf, InsertAll, AllFresh, GetsOk, LeftOk, Content, Complete;
    StepShape(c, st, step);
    if step.Commit? {
      LoadedAll(c, st);
      forall s: nat | s < c.n ensures Complete(c, Model(st.left, Flat(st.phase.blocks)), s) {
        assert Complete(c, Partial(st, s), s);
      }
    }
  }

  /** A complete load on top of what was left is what both inputs leave. */
  lemma ContentIsRemains(c: Config, m: Model, s: nat)
    requires c.n > 0
    ensures Content(c, m, s) == Remains(c, m.left + m.input, s)
  {
    KvsOfAppend(c, m.left, m.input, s);
    InsertAllTwice(map[], KvsOf(c, m.left, s), KvsOf(c, m.input, s));
  }

  lemma StepLeft(c: Config, st: State, step: Step)
    requires Inv(c, st) && Enabled(c, st, step)
    ensures Shape(c, After(c, st, step)) && LeftOk(c, After(c, st, step))
  {
    hide KvsOf, KeysOf, InsertAll, AllFresh, GetsOk, Content, Complete, LiveOk, Remains;
    StepShape(c, st, step);
    match step
    case Abort =>
      LoadedAll(c, st);
      forall s: nat | s < c.n
        ensures st.stores[s][Index(st.version + 1)] == Remains(c, st.left + Flat(st.phase.blocks), s)
      {
        ContentIsRemains(c, Model(st.left, Flat(st.phase.blocks)), s);
      }
    case EndReload =>
      forall s: nat | s < c.n ensures Remains(c, [], s) == map[] {
        NothingRemains(c, s);
      }
    case _ =>
  }

  lemma NothingRemains(c: Config, s: nat)
    requires c.n > 0
    ensures Remains(c, [], s) == map[]
  {
  }

  lemma StepInv(c: Config, st: State, step: Step)
    requires Inv(c, st) && Enabled(c, st, step)
    ensures Inv(c, After(c, st, step))
  {
    hide Enabled, After, LiveOk, LoadOk, ClearOk, GetsOk, ModelsOk, LeftOk;
    StepLive(c, st, step);
    StepLoad(c, st, step);
    StepClear(c, st, step);
    StepGets(c, st, step);
    StepModels(c, st, step);
    StepLeft(c, st, step);
  }

  /** The invariant holds in every state of every run. */
  lemma {:induction false} RunKeepsInv(c: Config, states: seq<State>, steps: seq<Step>, i: nat)
    requires IsRun(c, states, steps) && i < |states|
    ensures Inv(c, states[i])
  {
    hide Inv, Enabled, After;
    if i == 0 {
      InitInv(c, states[0]);
    } else {
      RunKeepsInv(c, states, steps, i - 1);
      StepInv(c, states[i - 1], steps[i - 1]);
    }
  }

  // ---------------------------------------------------------------- the history, told by the steps

  /** The blocks of the reload that was started last among the first `j` steps. */
  ghost function Started(steps: seq<Step>, j: nat): seq<seq<KV>>
    requires j <= |steps|
  {
    if j == 0 then []
    else match steps[j - 1]
      case StartReload(blocks) => blocks
      case _ => Started(steps, j - 1)
  }

  /** The inputs, in order, of the reloads that failed among the first `j` steps, since the last commit. */
  ghost function Failed(steps: seq<Step>, j: nat): seq<KV>
    requires j <= |steps|
  {
    if j == 0 then []
    else match steps[j - 1]
      case Commit => []
      case Abort => Failed(steps, j - 1) + Flat(Started(steps, j - 1))
      case _ => Failed(steps, j - 1)
  }

  lemma {:induction false} HistoryOfRun(c: Config, states: seq<State>, steps: seq<Step>, i: nat)
    requires IsRun(c, states, steps) && i < |states|
    ensures states[i].left == Failed(steps, i)
    ensures states[i].phase.Loading? || states[i].phase.Inserting? ==> states[i].phase.blocks == Started(steps, i)
  {
    if i > 0 {
      HistoryOfRun(c, states, steps, i - 1);
    }
  }

  /** The history only grows: the model of a version, once committed, is never another one. */
  lemma {:induction false} HistoryKept(c: Config, states: seq<State>, steps: seq<Step>, i: nat, j: nat)
    requires IsRun(c, states, steps) && i <= j < |states|
    ensures states[i].models <= states[j].models && states[i].version <= states[j].version
    decreases j - i
  {
    if i < j {
      HistoryKept(c, states, steps, i, j - 1);
    }
  }

  /** Step `j` commits version `v`. */
  ghost predicate Commits(states: seq<State>, steps: seq<Step>, j: nat, v: nat) {
    |states| == |steps| + 1 && j < |steps| && steps[j].Commit? && states[j].version + 1 == v
  }

  /** The model of a version is the input of the reload that committed it, on top of the inputs that failed before. */
  lemma ModelOfCommit(c: Config, states: seq<State>, steps: seq<Step>, i: nat, j: nat, v: nat)
    requires IsRun(c, states, steps) && j < i < |states| && Commits(states, steps, j, v)
    ensures v < |states[i].models| && states[i].models[v] == Model(Failed(steps, j), Flat(Started(steps, j)))
  {
    HistoryOfRun(c, states, steps, j);
    HistoryKept(c, states, steps, j + 1, i);
    assert states[j + 1] == After(c, states[j], steps[j]);
  }

  /** Every version but the first was committed by one step. */
  lemma {:induction false} EveryVersionCommitted(c: Config, states: seq<State>, steps: seq<Step>, i: nat, v: nat)
    requires IsRun(c, states, steps) && i < |states| && 0 < v <= states[i].version
    ensures exists j: nat | j < i :: Commits(states, steps, j, v)
  {
    if i > 0 {
      assert states[i] == After(c, states[i - 1], steps[i - 1]);
      if v <= states[i - 1].version {
        EveryVersionCommitted(c, states, steps, i - 1, v);
      } else {
        assert Commits(states, steps, i - 1, v);
      }
    }
  }

  ghost predicate Names(kvs: seq<KV>, k: Key) {
    exists i | 0 <= i < |kvs| :: kvs[i].key == k
  }

  /** Step `a` ends a reload without success, and nothing was committed between it and step `j`. */
  ghost predicate FailsBefore(steps: seq<Step>, a: nat, j: nat) {
    a < j <= |steps| && steps[a].Abort? && forall p | a < p < j :: !steps[p].Commit?
  }

  /** A reload that failed since the last commit before step `j` had the key in its input. */
  ghost predicate LeftOver(steps: seq<Step>, j: nat, k: Key) {
    exists a: nat :: FailsBefore(steps, a, j) && Names(Flat(Started(steps, a)), k)
  }

  lemma {:induction false} FailedNames(steps: seq<Step>, j: nat, k: Key)
    requires j <= |steps|
    ensures Names(Failed(steps, j), k) <==> LeftOver(steps, j, k)
  {
    hide Started, Names, Flat;
    if j > 0 {
      FailedNames(steps, j - 1, k);
      FailsOneMore(steps, j, k);
      NamesEither(Failed(steps, j - 1), Flat(Started(steps, j - 1)), k);
    }
    NamesNothing(k);
  }

  lemma NamesNothing(k: Key)
    ensures !Names([], k)
  {
  }

  lemma NamesEither(xs: seq<KV>, ys: seq<KV>, k: Key)
    ensures Names(xs + ys, k) <==> Names(xs, k) || Names(ys, k)
  {
    if i :| 0 <= i < |xs| && xs[i].key == k {
      assert (xs + ys)[i].key == k;
    }
    if i :| 0 <= i < |ys| && ys[i].key == k {
      assert (xs + ys)[|xs| + i].key == k;
    }
  }

  /** How one more step changes what is left over. */
  lemma FailsOneMore(steps: seq<Step>, j: nat, k: Key)
    requires 0 < j <= |steps|
    ensures LeftOver(steps, j, k) <==>
            !steps[j - 1].Commit? && (LeftOver(steps, j - 1, k) || (steps[j - 1].Abort? && Names(Flat(Started(steps, j - 1)), k)))
  {
    hide Started, Names, Flat;
    if a: nat :| FailsBefore(steps, a, j) && Names(Flat(Started(steps, a)), k) {
      assert a < j - 1 ==> FailsBefore(steps, a, j - 1);
    }
    if !steps[j - 1].Commit? {
      if a: nat :| FailsBefore(steps, a, j - 1) && Names(Flat(Started(steps, a)), k) {
        assert FailsBefore(steps, a, j);
      }
      assert steps[j - 1].Abort? ==> FailsBefore(steps, j - 1, j);
    }
  }

  /** The reload started last is the one whose step has no later start behind it. */
  lemma {:induction false} StartedLast(steps: seq<Step>, a: nat, j: nat)
    requires a < j <= |steps| && steps[a].StartReload? && forall p | a < p < j :: !steps[p].StartReload?
    ensures Started(steps, j) == steps[a].blocks
  {
    if a < j - 1 {
      StartedLast(steps, a, j - 1);
    }
  }

  /** The clear of shard `s` overtakes the get: the version it read is cleared there before the shard answered. */
  ghost predicate Overtakes(c: Config, st: State, step: Step, id: nat, s: nat)
    requires c.n > 0
  {
    && step == ClearAt(s) && id in st.gets
    && st.gets[id].version + 1 == st.version && s !in st.gets[id].replies && KeysOf(c, st.gets[id].keys, s) != []
  }

  /** What one step does to a get that was started before. */
  lemma GetKept(c: Config, st: State, step: Step, id: nat)
    requires Shape(c, st) && Enabled(c, st, step) && id in st.gets
    ensures var g, gets' := st.gets[id], After(c, st, step).gets;
            && id in gets' && gets'[id].keys == g.keys && gets'[id].version == g.version
            && (forall s: nat :: s in gets'[id].replies <==> s in g.replies || step == ReplyGet(id, s))
            && (forall s: nat :: s in gets'[id].late <==> s in g.late || Overtakes(c, st, step, id, s))
  {
    hide KeysOf, KvsOf, InsertAll, AllFresh;
  }

  lemma GetStarts(c: Config, st: State, step: Step, id: nat)
    requires Shape(c, st) && Enabled(c, st, step) && id !in st.gets && id in After(c, st, step).gets
    ensures step.StartGet? && step == StartGet(id, After(c, st, step).gets[id].keys)
    ensures var g := After(c, st, step).gets[id];
            g.version == st.version && g.replies == map[] && g.late == {}
  {
    hide KeysOf, KvsOf, InsertAll, AllFresh;
  }

  /** A get asks for the keys of the call that started it, at the version committed at that moment. */
  lemma {:induction false} GetOfRequest(c: Config, states: seq<State>, steps: seq<Step>, i: nat, id: nat, a: nat, keys: seq<Key>)
    requires IsRun(c, states, steps) && a < i < |states| && steps[a] == StartGet(id, keys)
    ensures id !in states[a].gets && id in states[i].gets
    ensures states[i].gets[id].keys == keys && states[i].gets[id].version == states[a].version
  {
    if i == a + 1 {
      assert states[i] == After(c, states[a], steps[a]);
    } else {
      GetOfRequest(c, states, steps, i - 1, id, a, keys);
      GetKept(c, states[i - 1], steps[i - 1], id);
    }
  }

  /** Every get was started by a call. */
  lemma {:induction false} GetWasStarted(c: Config, states: seq<State>, steps: seq<Step>, i: nat, id: nat)
    requires IsRun(c, states, steps) && i < |states| && id in states[i].gets
    ensures exists a: nat | a < i :: steps[a] == StartGet(id, states[i].gets[id].keys) && states[a].version == states[i].gets[id].version
  {
    hide Enabled, After;
    NoGetsYet(c, states[0]);
    if i > 0 {
      if id in states[i - 1].gets {
        GetWasStarted(c, states, steps, i - 1, id);
        GetKept(c, states[i - 1], steps[i - 1], id);
      } else {
        GetStarts(c, states[i - 1], steps[i - 1], id);
      }
    }
  }

  lemma NoGetsYet(c: Config, st: State)
    requires Init(c, st)
    ensures st.gets == map[]
  {
  }

  ghost predicate Replied(steps: seq<Step>, i: nat, id: nat, s: nat) {
    exists j: nat | j < i && j < |steps| :: steps[j] == ReplyGet(id, s)
  }

  /** A get has the replies of exactly those shards that answered. */
  lemma {:induction false} RepliedExactly(c: Config, states: seq<State>, steps: seq<Step>, i: nat, id: nat, s: nat)
    requires IsRun(c, states, steps) && i < |states|
    ensures Replied(steps, i, id, s) <==> id in states[i].gets && s in states[i].gets[id].replies
  {
    hide After;
    if i == 0 {
      NoGetsYet(c, states[0]);
    } else {
      RepliedExactly(c, states, steps, i - 1, id, s);
      assert Replied(steps, i, id, s) <==> Replied(steps, i - 1, id, s) || steps[i - 1] == ReplyGet(id, s);
      if id in states[i - 1].gets {
        GetKept(c, states[i - 1], steps[i - 1], id);
      } else if id in states[i].gets {
        GetStarts(c, states[i - 1], steps[i - 1], id);
      }
    }
  }

  /** A get is late at exactly those shards where a clear overtook it. */
  lemma {:induction false} LateExactly(c: Config, states: seq<State>, steps: seq<Step>, i: nat, id: nat, s: nat)
    requires IsRun(c, states, steps) && i < |states| && id in states[i].gets && c.n > 0
    ensures s in states[i].gets[id].late <==> exists p: nat | p < i :: Overtakes(c, states[p], steps[p], id, s)
  {
    hide After, Overtakes;
    NoGetsYet(c, states[0]);
    if i == 0 {
    } else if id in states[i - 1].gets {
      LateExactly(c, states, steps, i - 1, id, s);
      GetKept(c, states[i - 1], steps[i - 1], id);
    } else {
      GetStarts(c, states[i - 1], steps[i - 1], id);
      forall p: nat | p < i ensures !Overtakes(c, states[p], steps[p], id, s) {
        NotBeforeStart(c, states, steps, p, i - 1, id, s);
      }
    }
  }

  lemma {:induction false} NotBeforeStart(c: Config, states: seq<State>, steps: seq<Step>, p: nat, i: nat, id: nat, s: nat)
    requires IsRun(c, states, steps) && p <= i < |steps| && id !in states[i].gets && c.n > 0
    ensures id !in states[p].gets && !Overtakes(c, states[p], steps[p], id, s)
    decreases i - p
  {
    hide After;
    if p < i {
      NotBeforeStart(c, states, steps, p + 1, i, id, s);
      if id in states[p].gets {
        GetKept(c, states[p], steps[p], id);
      }
    }
  }

  /** Shard `s` answers the get of step `a` before step `i`, and before the version read in step `a` is cleared there. */
  ghost predicate InTime(states: seq<State>, steps: seq<Step>, a: nat, i: nat, id: nat, s: nat)
    requires a < i < |states| == |steps| + 1
  {
    exists j | a < j < i :: steps[j] == ReplyGet(id, s) &&
      forall p | a < p < j && steps[p] == ClearAt(s) :: states[p].version != states[a].version + 1
  }

  /** A get is finished and not overtaken exactly when all its shards answer in time. */
  lemma OnTimeExactly(c: Config, states: seq<State>, steps: seq<Step>, i: nat, id: nat, a: nat, keys: seq<Key>)
    requires IsRun(c, states, steps) && a < i < |states| && steps[a] == StartGet(id, keys) && id in states[i].gets && c.n > 0
    ensures Finished(c, states[i].gets[id]) && states[i].gets[id].late == {} <==>
            forall s: nat | s < c.n && KeysOf(c, keys, s) != [] :: InTime(states, steps, a, i, id, s)
  {
    hide After, Enabled, Overtakes, KeysOf, InTime, Replied;
    GetOfRequest(c, states, steps, i, id, a, keys);
    var g := states[i].gets[id];
    forall s: nat
      ensures s in g.replies && s !in g.late && KeysOf(c, keys, s) != [] ==> InTime(states, steps, a, i, id, s)
      ensures InTime(states, steps, a, i, id, s) ==> s in g.replies && s !in g.late
      ensures s in g.late ==> s < c.n && KeysOf(c, keys, s) != []
    {
      ShardInTime(c, states, steps, i, id, a, keys, s);
      if s in g.late {
        LateWithin(c, states, steps, i, id, s);
      }
    }
  }

  /** Step `p` clears shard `s` for the version read in step `a`, before the shard answered. */
  ghost predicate ClearsFirst(states: seq<State>, steps: seq<Step>, a: nat, p: nat, id: nat, s: nat)
    requires a < |states| && p < |steps| < |states|
  {
    a < p && steps[p] == ClearAt(s) && states[p].version == states[a].version + 1 && !Replied(steps, p, id, s)
  }

  lemma OvertakesWhen(c: Config, states: seq<State>, steps: seq<Step>, p: nat, id: nat, a: nat, keys: seq<Key>, s: nat)
    requires IsRun(c, states, steps) && a < |steps| && steps[a] == StartGet(id, keys) && p < |steps| && c.n > 0
    ensures Overtakes(c, states[p], steps[p], id, s) <==> ClearsFirst(states, steps, a, p, id, s) && KeysOf(c, keys, s) != []
  {
    hide After, Enabled, KeysOf, Replied;
    RepliedExactly(c, states, steps, p, id, s);
    if p <= a {
      GetOfRequest(c, states, steps, a + 1, id, a, keys);
      NotBeforeStart(c, states, steps, p, a, id, s);
    } else {
      GetOfRequest(c, states, steps, p, id, a, keys);
    }
  }

  /** Of an answer and the clears around it: in time when no clear comes first. */
  lemma AnswerInTime(states: seq<State>, steps: seq<Step>, a: nat, i: nat, id: nat, s: nat)
    requires a < i < |states| == |steps| + 1
    requires forall j: nat | j < i && steps[j] == ReplyGet(id, s) :: a < j && !Replied(steps, j, id, s)
    ensures InTime(states, steps, a, i, id, s) <==>
            Replied(steps, i, id, s) && forall p: nat | p < i :: !ClearsFirst(states, steps, a, p, id, s)
  {
    if Replied(steps, i, id, s) && forall p: nat | p < i :: !ClearsFirst(states, steps, a, p, id, s) {
      var j: nat :| j < i && steps[j] == ReplyGet(id, s);
      forall p | a < p < j && steps[p] == ClearAt(s) ensures states[p].version != states[a].version + 1 {
        assert !ClearsFirst(states, steps, a, p, id, s);
      }
    }
  }

  lemma ShardInTime(c: Config, states: seq<State>, steps: seq<Step>, i: nat, id: nat, a: nat, keys: seq<Key>, s: nat)
    requires IsRun(c, states, steps) && a < i < |states| && steps[a] == StartGet(id, keys) && id in states[i].gets && c.n > 0
    ensures var g := states[i].gets[id];
            && (s in g.replies && s !in g.late && KeysOf(c, keys, s) != [] ==> InTime(states, steps, a, i, id, s))
            && (InTime(states, steps, a, i, id, s) ==> s in g.replies && s !in g.late)
            && (s in g.late ==> KeysOf(c, keys, s) != [])
  {
    hide After, Enabled, KeysOf, Overtakes, ClearsFirst, Replied, InTime;
    RepliedExactly(c, states, steps, i, id, s);
    LateExactly(c, states, steps, i, id, s);
    forall p: nat | p < i
      ensures Overtakes(c, states[p], steps[p], id, s) <==> ClearsFirst(states, steps, a, p, id, s) && KeysOf(c, keys, s) != []
    {
      OvertakesWhen(c, states, steps, p, id, a, keys, s);
    }
    forall j: nat | j < i && steps[j] == ReplyGet(id, s) ensures a < j && !Replied(steps, j, id, s) {
      ReplyAfterStart(c, states, steps, j, id, a, keys, s);
    }
    AnswerInTime(states, steps, a, i, id, s);
  }

  /** A clear is sent to the clients that there are. */
  lemma LateWithin(c: Config, states: seq<State>, steps: seq<Step>, i: nat, id: nat, s: nat)
    requires IsRun(c, states, steps) && i < |states| && id in states[i].gets && s in states[i].gets[id].late
    ensures s < c.n
  {
    hide KeysOf, After;
    assert Shape(c, states[0]);
    LateExactly(c, states, steps, i, id, s);
  }

  /** A shard answers a get after its start, and once only. */
  lemma ReplyAfterStart(c: Config, states: seq<State>, steps: seq<Step>, j: nat, id: nat, a: nat, keys: seq<Key>, s: nat)
    requires IsRun(c, states, steps) && a < |steps| && steps[a] == StartGet(id, keys) && j < |steps| && steps[j] == ReplyGet(id, s)
    ensures a < j && !Replied(steps, j, id, s)
  {
    hide After, KeysOf;
    RepliedExactly(c, states, steps, j, id, s);
    if j <= a && Shape(c, states[0]) {
      NotBeforeStart(c, states, steps, j, a, id, s);
    }
  }

  /** Calls are accepted in every state: a get may start at any time, its shards answer in any order and at any time, and
      a reload is turned away exactly while the flag is set. */
  lemma CallsAnyTime(c: Config, states: seq<State>, steps: seq<Step>, i: nat, id: nat, keys: seq<Key>, blocks: seq<seq<KV>>)
    requires IsRun(c, states, steps) && i < |states| && Sharded(c, keys)
    requires forall b | 0 <= b < |blocks| :: Sharded(c, KeysIn(blocks[b]))
    ensures Shape(c, states[i])
    ensures Enabled(c, states[i], StartGet(id, keys)) <==> !exists a: nat, ks | a < i :: steps[a] == StartGet(id, ks)
    ensures forall s: nat | id in states[i].gets && s < c.n && KeysOf(c, states[i].gets[id].keys, s) != [] ::
              Enabled(c, states[i], ReplyGet(id, s)) <==> !Replied(steps, i, id, s)
    ensures Enabled(c, states[i], RejectReload) <==> !states[i].phase.Idle?
    ensures Enabled(c, states[i], StartEmptyReload) <==> states[i].phase.Idle?
    ensures Enabled(c, states[i], StartReload(blocks)) <==> states[i].phase.Idle?
  {
    hide KeysOf, After, Sharded;
    RunKeepsInv(c, states, steps, i);
    forall s: nat ensures Replied(steps, i, id, s) <==> id in states[i].gets && s in states[i].gets[id].replies {
      RepliedExactly(c, states, steps, i, id, s);
    }
    if id in states[i].gets {
      GetWasStarted(c, states, steps, i, id);
    }
    if a: nat, ks :| a < i && steps[a] == StartGet(id, ks) {
      GetOfRequest(c, states, steps, i, id, a, ks);
    }
  }

  // ---------------------------------------------------------------- what a finished get returns

  ghost function Sharding(c: Config, keys: seq<Key>): (r: seq<seq<Key>>)
    requires c.n > 0
    ensures |r| == c.n
  {
    seq(c.n, s requires 0 <= s < c.n => KeysOf(c, keys, s))
  }

  ghost predicate Finished(c: Config, g: Get)
    requires c.n > 0
  {
    forall s: nat | s < c.n && KeysOf(c, g.keys, s) != [] :: s in g.replies
  }

  /** The replies that the gathering loop gets, in shard order from `s` on. */
  ghost function Results(c: Config, g: Get, s: nat): seq<seq<Item>>
    requires c.n > 0 && Finished(c, g) && s <= c.n
    decreases c.n - s
  {
    if s == c.n then []
    else (if KeysOf(c, g.keys, s) == [] then [] else [g.replies[s]]) + Results(c, g, s + 1)
  }

  /** The stored contents of a committed model, shard by shard. */
  ghost function ModelAnswer(c: Config, m: Model): (nat, Key) -> Item
    requires c.n > 0
  {
    (s: nat, k: Key) => Lookup(Content(c, m, s), k)
  }

  /** The input of a reload, as one map in which the first pair of a key wins. */
  ghost function InputAnswer(input: seq<KV>): (nat, Key) -> Item {
    (s: nat, k: Key) => Lookup(InsertAll(map[], input), k)
  }

  lemma {:induction false} ResultsAreReplies(c: Config, g: Get, answer: (nat, Key) -> Item, s: nat)
    requires c.n > 0 && Finished(c, g) && s <= c.n
    requires forall t: nat | t < c.n && KeysOf(c, g.keys, t) != [] ::
               g.replies[t] == AnswerAll(answer, t, KeysOf(c, g.keys, t))
    ensures Results(c, g, s) == Replies(Sharding(c, g.keys), answer, s)
    decreases c.n - s
  {
    if s < c.n {
      ResultsAreReplies(c, g, answer, s + 1);
    }
  }

  /** A get that finished before the version it read was cleared anywhere it still waited: what it gathers for the keys
      of the call are the contents of the one model that was committed when the call came, on every shard. */
  lemma FinishedGetSeesOneModel(c: Config, states: seq<State>, steps: seq<Step>, i: nat, id: nat, a: nat, keys: seq<Key>)
    requires IsRun(c, states, steps) && a < i < |states| && steps[a] == StartGet(id, keys) && id in states[i].gets
    requires Finished(c, states[i].gets[id]) && states[i].gets[id].late == {}
    ensures states[a].version < |states[i].models|
    ensures Results(c, states[i].gets[id], 0) ==
            Replies(Sharding(c, keys), ModelAnswer(c, states[i].models[states[a].version]), 0)
  {
    hide KeysOf, Inv, Content;
    var g := states[i].gets[id];
    RunKeepsInv(c, states, steps, i);
    GetOfRequest(c, states, steps, i, id, a, keys);
    FinishedHasReplies(c, states[i], g);
    ResultsAreReplies(c, g, ModelAnswer(c, states[i].models[g.version]), 0);
  }

  lemma FinishedHasReplies(c: Config, st: State, g: Get)
    requires Inv(c, st) && g in st.gets.Values && Finished(c, g) && g.late == {}
    ensures g.version < |st.models|
    ensures forall t: nat | t < c.n && KeysOf(c, g.keys, t) != [] ::
              g.replies[t] == LookupAll(Content(c, st.models[g.version], t), KeysOf(c, g.keys, t))
  {
    hide KeysOf, KvsOf, InsertAll, LiveOk, LoadOk, ClearOk, ModelsOk, LeftOk, Content;
    assert GetOk(c, st, g);
  }

  /** A shard that does not know the key yet stores for it what the whole input says. */
  lemma {:induction false} ShardAgrees(c: Config, base: Store, input: seq<KV>, k: Key, s: nat)
    requires c.n > 0 && ShardIndex(c, k) == s && k !in base
    ensures Lookup(InsertAll(base, KvsOf(c, input, s)), k) == Lookup(InsertAll(map[], input), k)
  {
    hide InsertAll, KvsOf;
    if input == [] {
      NoPairs(c, base, s);
    } else {
      var n := |input| - 1;
      ShardAgrees(c, base, input[..n], k, s);
      KvsOfLast(c, input[..n], input[n], s);
      InsertAllLast(base, KvsOf(c, input[..n], s), input[n]);
      InsertAllLast(map[], input[..n], input[n]);
      assert input == input[..n] + [input[n]];
    }
  }

  lemma NoPairs(c: Config, base: Store, s: nat)
    requires c.n > 0
    ensures InsertAll(base, KvsOf(c, [], s)) == base && InsertAll(map[], []) == map[]
  {
  }

  lemma {:induction false} KvsOfMember(c: Config, kvs: seq<KV>, s: nat, kv: KV)
    requires c.n > 0
    ensures kv in KvsOf(c, kvs, s) <==> kv in kvs && ShardIndex(c, kv.key) == s
  {
    if kvs != [] {
      KvsOfMember(c, kvs[..|kvs| - 1], s, kv);
      assert kvs == kvs[..|kvs| - 1] + [kvs[|kvs| - 1]];
    }
  }

  /** The store of a key's shard has the key exactly when the list names it. */
  lemma RemainsNames(c: Config, left: seq<KV>, k: Key, s: nat)
    requires c.n > 0 && ShardIndex(c, k) == s
    ensures k in Remains(c, left, s) <==> Names(left, k)
  {
    var shard := KvsOf(c, left, s);
    InsertAllKeys(map[], shard, k);
    if i :| 0 <= i < |shard| && shard[i].key == k {
      KvsOfMember(c, left, s, shard[i]);
    }
    if i :| 0 <= i < |left| && left[i].key == k {
      KvsOfMember(c, left, s, left[i]);
    }
  }

  /** A load that was not refused names no key that was already stored. */
  lemma NotInInput(c: Config, m: Model, k: Key, s: nat)
    requires c.n > 0 && ShardIndex(c, k) == s && Complete(c, m, s) && k in Remains(c, m.left, s)
    ensures !Names(m.input, k)
  {
    if i :| 0 <= i < |m.input| && m.input[i].key == k {
      KvsOfMember(c, m.input, s, m.input[i]);
    }
  }

  lemma ModelAgrees(c: Config, m: Model, k: Key, s: nat)
    requires c.n > 0 && s == ShardIndex(c, k) && Complete(c, m, s)
    ensures Lookup(Content(c, m, s), k) == Lookup(InsertAll(map[], m.input), k) <==> !Names(m.left, k)
  {
    RemainsNames(c, m.left, k, s);
    if k !in Remains(c, m.left, s) {
      ShardAgrees(c, Remains(c, m.left, s), m.input, k, s);
    } else {
      InsertAllKeys(Remains(c, m.left, s), KvsOf(c, m.input, s), k);
      assert Lookup(Content(c, m, s), k).status == FOUND;
      NotInInput(c, m, k, s);
      InsertAllKeys(map[], m.input, k);
      assert Lookup(InsertAll(map[], m.input), k).status == NOT_FOUND;
    }
  }

  /** A committed version stores for a key what its input says, exactly when no reload that failed since the commit
      before had the key in its input. */
  lemma ContentIsInput(c: Config, states: seq<State>, steps: seq<Step>, i: nat, j: nat, v: nat, k: Key)
    requires IsRun(c, states, steps) && j < i < |states| && Commits(states, steps, j, v) && 0 <= ShardIndex(c, k)
    ensures c.n > 0 && v < |states[i].models|
    ensures var s: nat := ShardIndex(c, k);
            ModelAnswer(c, states[i].models[v])(s, k) == InputAnswer(Flat(Started(steps, j)))(s, k) <==> !LeftOver(steps, j, k)
  {
    hide Inv, Commits, LeftOver, Names, InsertAll, KvsOf;
    RunKeepsInv(c, states, steps, i);
    ShardExists(c, k);
    ModelOfCommit(c, states, steps, i, j, v);
    CommittedComplete(c, states[i], v, ShardIndex(c, k));
    ModelAgrees(c, states[i].models[v], k, ShardIndex(c, k));
    FailedNames(steps, j, k);
  }

  lemma CommittedComplete(c: Config, st: State, v: nat, s: nat)
    requires Inv(c, st) && v < |st.models| && s < c.n
    ensures Complete(c, st.models[v], s)
  {
  }

  /** Every reply of a finished get that no clear overtook is what the input of the version it read says about the
      key, exactly when that key is not left over from a failed reload. */
  lemma ReplyIsInput(c: Config, states: seq<State>, steps: seq<Step>, i: nat, id: nat, a: nat, keys: seq<Key>, j: nat, t: nat, q: nat)
    requires IsRun(c, states, steps) && a < i < |states| && steps[a] == StartGet(id, keys) && id in states[i].gets
    requires Finished(c, states[i].gets[id]) && states[i].gets[id].late == {}
    requires j < i && Commits(states, steps, j, states[a].version)
    requires t < c.n && q < |KeysOf(c, keys, t)|
    ensures t in states[i].gets[id].replies && |states[i].gets[id].replies[t]| == |KeysOf(c, keys, t)|
    ensures var k := KeysOf(c, keys, t)[q];
            states[i].gets[id].replies[t][q] == InputAnswer(Flat(Started(steps, j)))(t, k) <==> !LeftOver(steps, j, k)
  {
    hide Commits, LeftOver, KeysOf, Inv, InsertAll, Content;
    RunKeepsInv(c, states, steps, i);
    GetOfRequest(c, states, steps, i, id, a, keys);
    FinishedHasReplies(c, states[i], states[i].gets[id]);
    var k := KeysOf(c, keys, t)[q];
    KeysOfMember(c, keys, t, k);
    ContentIsInput(c, states, steps, i, j, states[a].version, k);
  }

  /** Pair `o` is the first that names the key. */
  ghost predicate FirstPair(kvs: seq<KV>, k: Key, o: int) {
    0 <= o < |kvs| && kvs[o].key == k && forall p | 0 <= p < o :: kvs[p].key != k
  }

  lemma InputItem(input: seq<KV>, k: Key)
    ensures !Names(input, k) ==> Lookup(InsertAll(map[], input), k) == Item(NOT_FOUND, 0.0)
    ensures forall o | FirstPair(input, k, o) :: Lookup(InsertAll(map[], input), k) == Item(FOUND, input[o].value)
    ensures Names(input, k) <==> Lookup(InsertAll(map[], input), k).status == FOUND
    ensures Lookup(InsertAll(map[], input), k).status != ItemStatus.ERROR
  {
    ItemOfPairs(input, k);
    InsertAllKeys(map[], input, k);
  }

  /** The item itself: the value of the first pair of the input that names the key, or not found when none does. */
  lemma ReplyItem(c: Config, states: seq<State>, steps: seq<Step>, i: nat, id: nat, a: nat, keys: seq<Key>, j: nat, t: nat, q: nat)
    requires IsRun(c, states, steps) && a < i < |states| && steps[a] == StartGet(id, keys) && id in states[i].gets
    requires Finished(c, states[i].gets[id]) && states[i].gets[id].late == {}
    requires j < i && Commits(states, steps, j, states[a].version)
    requires t < c.n && q < |KeysOf(c, keys, t)| && !LeftOver(steps, j, KeysOf(c, keys, t)[q])
    ensures t in states[i].gets[id].replies && |states[i].gets[id].replies[t]| == |KeysOf(c, keys, t)|
    ensures var k, item, input := KeysOf(c, keys, t)[q], states[i].gets[id].replies[t][q], Flat(Started(steps, j));
            && (!Names(input, k) ==> item == Item(NOT_FOUND, 0.0))
            && forall o | FirstPair(input, k, o) :: item == Item(FOUND, input[o].value)
  {
    hide Enabled, After, LeftOver, KeysOf, InsertAll, Lookup, Shape, Finished, Flat, Started, Names;
    ReplyIsInput(c, states, steps, i, id, a, keys, j, t, q);
    InputItem(Flat(Started(steps, j)), KeysOf(c, keys, t)[q]);
  }

  /** No reload failed between the last commit before step `j` and step `j`. */
  ghost predicate NoneFails(steps: seq<Step>, j: nat) {
    forall a: nat :: !FailsBefore(steps, a, j)
  }

  lemma NoneFailsMeans(steps: seq<Step>, j: nat)
    requires j <= |steps|
    ensures NoneFails(steps, j) <==>
            forall f | 0 <= f < j && steps[f].Abort? :: exists p | f < p < j :: steps[p].Commit?
  {
    if NoneFails(steps, j) {
      forall f | 0 <= f < j && steps[f].Abort? ensures exists p | f < p < j :: steps[p].Commit? {
        assert !FailsBefore(steps, f, j);
      }
    }
  }

  /** A get of a version that was loaded with no failed reload between it and the version before, whatever failed
      earlier or later: if it finished before its version was cleared where it still waited, it gathers for every key
      of the call what the input of that version says. Never a partial load, never two versions. */
  lemma FinishedGetReturnsOneInput(c: Config, states: seq<State>, steps: seq<Step>, i: nat, id: nat, a: nat, keys: seq<Key>, j: nat)
    requires IsRun(c, states, steps) && a < i < |states| && steps[a] == StartGet(id, keys) && id in states[i].gets
    requires Finished(c, states[i].gets[id]) && states[i].gets[id].late == {}
    requires j < i && Commits(states, steps, j, states[a].version) && NoneFails(steps, j)
    ensures Results(c, states[i].gets[id], 0) == Replies(Sharding(c, keys), InputAnswer(Flat(Started(steps, j))), 0)
  {
    hide Commits, FailsBefore, KeysOf, InsertAll;
    var g := states[i].gets[id];
    var answer := InputAnswer(Flat(Started(steps, j)));
    GetOfRequest(c, states, steps, i, id, a, keys);
    forall t: nat | t < c.n && KeysOf(c, keys, t) != [] ensures g.replies[t] == AnswerAll(answer, t, KeysOf(c, keys, t)) {
      var part := KeysOf(c, keys, t);
      forall q: nat | q < |part| ensures |g.replies[t]| == |part| && g.replies[t][q] == answer(t, part[q]) {
        ReplyIsInput(c, states, steps, i, id, a, keys, j, t, q);
      }
      assert |part| > 0 && |g.replies[t]| == |part| by {
        ReplyIsInput(c, states, steps, i, id, a, keys, j, t, 0);
      }
    }
    ResultsAreReplies(c, g, answer, 0);
  }

  /** Before anything was committed a get finds nothing. */
  lemma FirstVersionIsEmpty(c: Config, states: seq<State>, steps: seq<Step>, i: nat, id: nat, a: nat, keys: seq<Key>)
    requires IsRun(c, states, steps) && a < i < |states| && steps[a] == StartGet(id, keys) && id in states[i].gets
    requires Finished(c, states[i].gets[id]) && states[i].gets[id].late == {} && states[a].version == 0
    ensures Results(c, states[i].gets[id], 0) == Replies(Sharding(c, keys), InputAnswer([]), 0)
    ensures forall t: nat | t < c.n && KeysOf(c, keys, t) != [] ::
              t in states[i].gets[id].replies && forall item <- states[i].gets[id].replies[t] :: item == Item(NOT_FOUND, 0.0)
  {
    hide KeysOf, Inv;
    var g := states[i].gets[id];
    RunKeepsInv(c, states, steps, i);
    GetOfRequest(c, states, steps, i, id, a, keys);
    HistoryKept(c, states, steps, 0, i);
    FinishedHasReplies(c, states[i], g);
    forall t: nat | t < c.n && KeysOf(c, keys, t) != []
      ensures g.replies[t] == AnswerAll(InputAnswer([]), t, KeysOf(c, keys, t))
    {
      assert Content(c, Model([], []), t) == map[];
    }
    ResultsAreReplies(c, g, InputAnswer([]), 0);
  }

  /** Why the clear must wait: a get that is overtaken at a shard and asks it next finds none of its keys. */
  lemma OvertakenGetLosesKeys(c: Config, st: State, id: nat, s: nat)
    requires Inv(c, st) && Enabled(c, st, ClearAt(s)) && Enabled(c, st, ReplyGet(id, s))
    requires st.gets[id].version + 1 == st.version
    ensures var cleared := After(c, st, ClearAt(s));
            && Shape(c, cleared) && Enabled(c, cleared, ReplyGet(id, s))
            && var g := After(c, cleared, ReplyGet(id, s)).gets[id];
              && s in g.late
              && forall i | 0 <= i < |g.replies[s]| :: g.replies[s][i].status == NOT_FOUND
  {
    hide KeysOf, KvsOf, InsertAll;
    StepShape(c, st, ClearAt(s));
  }

  /** A failed reload leaves its pairs in the spare stores, on top of what was there, and the next one starts from them. */
  lemma FailedReloadLeavesData(c: Config, st: State, blocks: seq<seq<KV>>, s: nat)
    requires Inv(c, st) && Enabled(c, st, Abort) && s < c.n
    requires forall i | 0 <= i < |blocks| :: Sharded(c, KeysIn(blocks[i]))
    ensures var failed := After(c, st, Abort);
            && Shape(c, failed) && Enabled(c, failed, StartReload(blocks))
            && After(c, failed, StartReload(blocks)).stores[s][Index(st.version + 1)] ==
              Remains(c, st.left + Flat(st.phase.blocks), s)
  {
    hide KeysOf, KvsOf, InsertAll, AllFresh, Remains;
    StepLeft(c, st, Abort);
  }

  /** After a reload without paths no reload starts again: the version and the stores stay as they are. */
  lemma {:induction false} EmptyReloadLocks(c: Config, states: seq<State>, steps: seq<Step>, i: nat, j: nat)
    requires IsRun(c, states, steps) && i <= j < |states| && states[i].phase.Locked?
    ensures states[j].phase.Locked? && states[j].version == states[i].version && states[j].stores == states[i].stores
    decreases j - i
  {
    if i < j {
      EmptyReloadLocks(c, states, steps, i, j - 1);
    }
  }
}

/** A pattern of literals, `.` and `x*`, compiled to an NFA and simulated with two state lists
    (SimpleRexMatch/Source.cpp). */
module SimpleRex {

  /** Label of a split state; no `char` has this value. */
  const SPLIT := 256
  const DOT := 46
  const STAR := 42

  /** A C++ `char` seen as an int: the range covers signed and unsigned platforms. */
  type Char = c: int | -128 <= c < SPLIT

  // ---------------------------------------------------------------- patterns and their language

  datatype Atom = Literal(c: Char) | Repeat(c: Char)

  /** The atoms of a pattern: a character followed by `*` repeats, any other is a literal. */
  function Parse(ptn: seq<Char>): seq<Atom> {
    if ptn == [] then []
    else if |ptn| > 1 && ptn[1] == STAR then [Repeat(ptn[0])] + Parse(ptn[2..])
    else [Literal(ptn[0])] + Parse(ptn[1..])
  }

  function Show(atoms: seq<Atom>): seq<Char> {
    if atoms == [] then []
    else (match atoms[0] case Literal(c) => [c] case Repeat(c) => [c, STAR]) + Show(atoms[1..])
  }

  predicate Accepts(c: int, x: Char) {
    c == x || c == DOT
  }

  predicate AtomMatches(a: Atom, w: seq<Char>) {
    match a
    case Literal(c) => |w| == 1 && Accepts(c, w[0])
    case Repeat(c) => forall i | 0 <= i < |w| :: Accepts(c, w[i])
  }

  /** `w` is the concatenation of `k` pieces, one matching each of the first `k` atoms. */
  ghost predicate InPrefix(atoms: seq<Atom>, k: nat, w: seq<Char>)
    requires k <= |atoms|
  {
    if k == 0 then w == []
    else exists cut | 0 <= cut <= |w| ::
        InPrefix(atoms, k - 1, w[..cut]) && AtomMatches(atoms[k - 1], w[cut..])
  }

  ghost predicate InLanguage(ptn: seq<Char>, w: seq<Char>) {
    InPrefix(Parse(ptn), |Parse(ptn)|, w)
  }

  /** No character of the pattern is lost or invented by splitting it into atoms. */
  lemma {:induction false} ShowParse(ptn: seq<Char>)
    ensures Show(Parse(ptn)) == ptn
  {
    if ptn == [] {
    } else if |ptn| > 1 && ptn[1] == STAR {
      ShowParse(ptn[2..]);
      assert Parse(ptn)[1..] == Parse(ptn[2..]);
    } else {
      ShowParse(ptn[1..]);
      assert Parse(ptn)[1..] == Parse(ptn[1..]);
    }
  }

  // ---------------------------------------------------------------- the language, pattern by pattern

  /** The first atom takes a front part of the word, the others the rest. */
  lemma {:induction false} FrontAtom(atoms: seq<Atom>, k: nat, w: seq<Char>)
    requires 0 < k <= |atoms|
    ensures InPrefix(atoms, k, w) <==>
            exists cut | 0 <= cut <= |w| :: AtomMatches(atoms[0], w[..cut]) && InPrefix(atoms[1..], k - 1, w[cut..])
    decreases k, 1
  {
    hide AtomMatches;
    if k == 1 {
      assert w[0..] == w && w[..|w|] == w && w[..0] == [] && w[|w|..] == [];
      if cut :| 0 <= cut <= |w| && InPrefix(atoms, 0, w[..cut]) && AtomMatches(atoms[0], w[cut..]) {
        assert cut == 0;
        assert AtomMatches(atoms[0], w[..|w|]) && InPrefix(atoms[1..], 0, w[|w|..]);
      }
      if cut :| 0 <= cut <= |w| && AtomMatches(atoms[0], w[..cut]) && InPrefix(atoms[1..], 0, w[cut..]) {
        assert cut == |w|;
        assert InPrefix(atoms, 0, w[..0]) && AtomMatches(atoms[0], w[0..]);
      }
    } else {
      if InPrefix(atoms, k, w) {
        FirstTakesFront(atoms, k, w);
      }
      if cut :| 0 <= cut <= |w| && AtomMatches(atoms[0], w[..cut]) && InPrefix(atoms[1..], k - 1, w[cut..]) {
        LastTakesBack(atoms, k, w, cut);
      }
    }
  }

  lemma {:induction false} FirstTakesFront(atoms: seq<Atom>, k: nat, w: seq<Char>)
    requires 1 < k <= |atoms| && InPrefix(atoms, k, w)
    ensures exists cut | 0 <= cut <= |w| :: AtomMatches(atoms[0], w[..cut]) && InPrefix(atoms[1..], k - 1, w[cut..])
    decreases k, 0
  {
    hide AtomMatches;
    var back :| 0 <= back <= |w| && InPrefix(atoms, k - 1, w[..back]) && AtomMatches(atoms[k - 1], w[back..]);
    var v := w[..back];
    FrontAtom(atoms, k - 1, v);
    var cut :| 0 <= cut <= |v| && AtomMatches(atoms[0], v[..cut]) && InPrefix(atoms[1..], k - 2, v[cut..]);
    var u := w[cut..];
    assert v[..cut] == w[..cut] && v[cut..] == u[..back - cut] && w[back..] == u[back - cut..];
    assert InPrefix(atoms[1..], k - 1, u);
  }

  lemma {:induction false} LastTakesBack(atoms: seq<Atom>, k: nat, w: seq<Char>, cut: nat)
    requires 1 < k <= |atoms| && cut <= |w|
    requires AtomMatches(atoms[0], w[..cut]) && InPrefix(atoms[1..], k - 1, w[cut..])
    ensures InPrefix(atoms, k, w)
    decreases k, 0
  {
    hide AtomMatches;
    var u := w[cut..];
    var more :| 0 <= more <= |u| && InPrefix(atoms[1..], k - 2, u[..more]) && AtomMatches(atoms[k - 1], u[more..]);
    var back := cut + more;
    var v := w[..back];
    assert v[..cut] == w[..cut] && v[cut..] == u[..more] && w[back..] == u[more..];
    FrontAtom(atoms, k - 1, v);
  }

  /** The empty pattern matches the empty word only. */
  lemma LanguageOfNothing(w: seq<Char>)
    ensures InLanguage([], w) <==> w == []
  {
  }

  /** A character without a star takes one character: its own, or any when it is a dot. */
  lemma LanguageOfCharacter(c: Char, rest: seq<Char>, w: seq<Char>)
    requires rest == [] || rest[0] != '*' as int
    ensures InLanguage([c] + rest, w) <==> w != [] && (w[0] == c || c == '.' as int) && InLanguage(rest, w[1..])
  {
    var ptn, atoms := [c] + rest, Parse([c] + rest);
    assert ptn[1..] == rest;
    assert atoms == [Literal(c)] + Parse(rest) && atoms[1..] == Parse(rest);
    FrontAtom(atoms, |atoms|, w);
    if InLanguage(ptn, w) {
      var cut :| 0 <= cut <= |w| && AtomMatches(atoms[0], w[..cut]) && InPrefix(atoms[1..], |atoms| - 1, w[cut..]);
      assert cut == 1;
    }
    if w != [] && (w[0] == c || c == '.' as int) && InLanguage(rest, w[1..]) {
      assert AtomMatches(atoms[0], w[..1]);
    }
  }

  lemma ParseStar(c: Char, rest: seq<Char>)
    ensures Parse([c, '*' as int] + rest) == [Repeat(c)] + Parse(rest)
  {
    assert ([c, '*' as int] + rest)[2..] == rest;
  }

  lemma RepeatMatches(c: Char, w: seq<Char>, n: nat)
    requires n <= |w|
    ensures AtomMatches(Repeat(c), w[..n]) <==> forall i | 0 <= i < n :: w[i] == c || c == '.' as int
  {
    if AtomMatches(Repeat(c), w[..n]) {
      forall i | 0 <= i < n ensures w[i] == c || c == '.' as int {
        assert w[..n][i] == w[i];
      }
    }
  }

  /** A character with a star takes any number of characters, each its own, or any when it is a dot. */
  lemma LanguageOfStar(c: Char, rest: seq<Char>, w: seq<Char>)
    ensures InLanguage([c, '*' as int] + rest, w) <==>
            exists n | 0 <= n <= |w| ::
              (forall i | 0 <= i < n :: w[i] == c || c == '.' as int) && InLanguage(rest, w[n..])
  {
    hide AtomMatches, InPrefix, Parse;
    var atoms := Parse([c, '*' as int] + rest);
    ParseStar(c, rest);
    assert atoms[1..] == Parse(rest);
    FrontAtom(atoms, |atoms|, w);
    forall n: nat | n <= |w|
      ensures AtomMatches(atoms[0], w[..n]) && InPrefix(atoms[1..], |atoms| - 1, w[n..]) <==>
              (forall i | 0 <= i < n :: w[i] == c || c == '.' as int) && InLanguage(rest, w[n..])
    {
      RepeatMatches(c, w, n);
    }
  }

  /** A dot alone matches every word of one character, whatever it is. */
  lemma DotMatchesAny(w: seq<Char>)
    ensures InLanguage(['.' as int], w) <==> |w| == 1
  {
    assert ['.' as int] + [] == ['.' as int];
    LanguageOfCharacter('.' as int, [], w);
    if w != [] {
      LanguageOfNothing(w[1..]);
    }
  }

  /** A starred character alone matches exactly the words that repeat it. */
  lemma StarRepeats(c: Char, w: seq<Char>)
    requires c != '.' as int
    ensures InLanguage([c, '*' as int], w) <==> forall i | 0 <= i < |w| :: w[i] == c
  {
    assert [c, '*' as int] + [] == [c, '*' as int];
    LanguageOfStar(c, [], w);
    forall n: nat | n <= |w| ensures InLanguage([], w[n..]) <==> n == |w| {
      LanguageOfNothing(w[n..]);
    }
    assert InLanguage([], w[|w|..]);
  }

  // ---------------------------------------------------------------- the automaton, by atom index

  predicate Repeats(atoms: seq<Atom>, k: nat) {
    k < |atoms| && atoms[k].Repeat?
  }

  /** Position `k` stands in front of atom `k`, or inside it when it repeats. */
  ghost predicate Active(atoms: seq<Atom>, w: seq<Char>, k: nat)
    requires k <= |atoms|
  {
    InPrefix(atoms, if Repeats(atoms, k) then k + 1 else k, w)
  }

  ghost function ActiveSet(atoms: seq<Atom>, w: seq<Char>): set<nat> {
    set k: nat | k <= |atoms| && Active(atoms, w, k)
  }

  /** Positions reached from `t` by skipping repeats. */
  function Closure(atoms: seq<Atom>, t: nat): (r: set<nat>)
    requires t <= |atoms|
    ensures forall k <- r :: k <= |atoms|
    decreases |atoms| - t
  {
    {t} + (if Repeats(atoms, t) then Closure(atoms, t + 1) else {})
  }

  lemma ClosureUnfolds(atoms: seq<Atom>, k: nat, ks: set<nat>)
    requires k <= |atoms|
    ensures ks + Closure(atoms, k) == if Repeats(atoms, k) then ks + {k} + Closure(atoms, k + 1) else ks + {k}
  {
  }

  /** Where position `k` moves after consuming a character: `None` when it cannot. */
  function Moves(atoms: seq<Atom>, k: nat, x: Char): (r: set<nat>)
    requires k <= |atoms|
    ensures forall q <- r :: q <= |atoms|
  {
    if k < |atoms| && Accepts(atoms[k].c, x) then
      Closure(atoms, if Repeats(atoms, k) then k else k + 1)
    else {}
  }

  ghost function MovesOf(atoms: seq<Atom>, ks: set<nat>, x: Char): set<nat>
    requires forall k <- ks :: k <= |atoms|
  {
    set k, q | k in ks && q in Moves(atoms, k, x) :: q
  }

  lemma ExtendPrefix(atoms: seq<Atom>, k: nat, w: seq<Char>, v: seq<Char>)
    requires k < |atoms| && InPrefix(atoms, k, w) && AtomMatches(atoms[k], v)
    ensures InPrefix(atoms, k + 1, w + v)
  {
    assert (w + v)[..|w|] == w && (w + v)[|w|..] == v;
  }

  /** Every position in the closure of one that `w` reaches is reached by `w`. */
  lemma {:induction false} ClosureReached(atoms: seq<Atom>, t: nat, w: seq<Char>)
    requires t <= |atoms| && InPrefix(atoms, t, w)
    ensures Closure(atoms, t) <= ActiveSet(atoms, w)
    decreases |atoms| - t
  {
    if Repeats(atoms, t) {
      assert w + [] == w;
      ExtendPrefix(atoms, t, w, []);
      ClosureReached(atoms, t + 1, w);
    }
  }

  lemma {:induction false} ClosureOfStart(atoms: seq<Atom>, k: nat, t: nat)
    requires t <= k <= |atoms| && forall q | t <= q < k :: Repeats(atoms, q)
    ensures k in Closure(atoms, t)
    decreases k - t
  {
    if t < k {
      ClosureOfStart(atoms, k, t + 1);
    }
  }

  lemma {:induction false} EmptyWord(atoms: seq<Atom>, k: nat)
    requires k <= |atoms| && InPrefix(atoms, k, [])
    ensures forall q | 0 <= q < k :: Repeats(atoms, q)
  {
    if k > 0 {
      var w: seq<Char> := [];
      var cut :| 0 <= cut <= |w| && InPrefix(atoms, k - 1, w[..cut]) && AtomMatches(atoms[k - 1], w[cut..]);
      EmptyWord(atoms, k - 1);
    }
  }

  /** Before any character, exactly the closure of the start is active. */
  lemma ActiveAtStart(atoms: seq<Atom>)
    ensures ActiveSet(atoms, []) == Closure(atoms, 0)
  {
    ClosureReached(atoms, 0, []);
    forall k: nat | k <= |atoms| && Active(atoms, [], k) ensures k in Closure(atoms, 0) {
      EmptyWord(atoms, if Repeats(atoms, k) then k + 1 else k);
      ClosureOfStart(atoms, k, 0);
    }
  }

  /** A position that accepts `x` carries everything it moves to over that character. */
  lemma MovesAreActive(atoms: seq<Atom>, w: seq<Char>, k: nat, x: Char)
    requires k <= |atoms| && Active(atoms, w, k)
    ensures Moves(atoms, k, x) <= ActiveSet(atoms, w + [x])
  {
    if k < |atoms| && Accepts(atoms[k].c, x) {
      if Repeats(atoms, k) {
        var cut :| 0 <= cut <= |w| && InPrefix(atoms, k, w[..cut]) && AtomMatches(atoms[k], w[cut..]);
        assert w[..cut] + (w[cut..] + [x]) == w + [x];
        ExtendPrefix(atoms, k, w[..cut], w[cut..] + [x]);
        assert Active(atoms, w + [x], k);
        if Repeats(atoms, k + 1) {
          assert (w + [x]) + [] == w + [x];
          ExtendPrefix(atoms, k + 1, w + [x], []);
        }
        ClosureReached(atoms, k + 1, w + [x]);
      } else {
        ExtendPrefix(atoms, k, w, [x]);
        ClosureReached(atoms, k + 1, w + [x]);
      }
    }
  }

  /** The atom that consumed the last character, with only repeats after it. */
  lemma {:induction false} LastConsumer(atoms: seq<Atom>, n: nat, w: seq<Char>, x: Char) returns (j: nat)
    requires n <= |atoms| && InPrefix(atoms, n, w + [x])
    ensures j < n && Active(atoms, w, j) && Accepts(atoms[j].c, x)
    ensures forall q | j < q < n :: Repeats(atoms, q)
  {
    var v := w + [x];
    var cut :| 0 <= cut <= |v| && InPrefix(atoms, n - 1, v[..cut]) && AtomMatches(atoms[n - 1], v[cut..]);
    if cut == |v| {
      assert v[..cut] == v;
      j := LastConsumer(atoms, n - 1, w, x);
    } else {
      j := n - 1;
      assert v[..cut] == w[..cut];
      assert v[cut..][|v| - 1 - cut] == x;
      if Repeats(atoms, j) {
        forall i | 0 <= i < |w[cut..]| ensures Accepts(atoms[j].c, w[cut..][i]) {
          assert w[cut..][i] == v[cut..][i];
        }
        ExtendPrefix(atoms, j, w[..cut], w[cut..]);
        assert w[..cut] + w[cut..] == w;
      } else {
        assert w[..cut] == w;
      }
    }
  }

  /** One simulated character: the positions active on `w + [x]` are what those active on `w` move to. */
  lemma ActiveStep(atoms: seq<Atom>, w: seq<Char>, x: Char)
    ensures ActiveSet(atoms, w + [x]) == MovesOf(atoms, ActiveSet(atoms, w), x)
  {
    forall k: nat | k <= |atoms| && Active(atoms, w + [x], k)
      ensures k in MovesOf(atoms, ActiveSet(atoms, w), x)
    {
      var j := LastConsumer(atoms, if Repeats(atoms, k) then k + 1 else k, w, x);
      ClosureOfStart(atoms, k, if Repeats(atoms, j) then j else j + 1);
      assert j in ActiveSet(atoms, w) && k in Moves(atoms, j, x);
    }
    forall k | k in ActiveSet(atoms, w) ensures Moves(atoms, k, x) <= ActiveSet(atoms, w + [x]) {
      MovesAreActive(atoms, w, k, x);
    }
  }

  /** Once nothing is active, no longer word is in the language. */
  lemma {:induction false} DeadStaysDead(atoms: seq<Atom>, w: seq<Char>, v: seq<Char>)
    requires ActiveSet(atoms, w) == {}
    ensures ActiveSet(atoms, w + v) == {}
    decreases |v|
  {
    if v == [] {
      assert w + v == w;
    } else {
      ActiveStep(atoms, w, v[0]);
      assert w + v == (w + [v[0]]) + v[1..];
      DeadStaysDead(atoms, w + [v[0]], v[1..]);
    }
  }

  /** A word is in the language exactly when it makes the position after the last atom active. */
  lemma AcceptsIffLastActive(ptn: seq<Char>, w: seq<Char>)
    ensures InLanguage(ptn, w) <==> |Parse(ptn)| in ActiveSet(Parse(ptn), w)
  {
  }

  // ---------------------------------------------------------------- the compiled state array

  datatype State = State(c: int, out: int, out1: int, lastList: int)

  const FRESH := State(-1, -1, -1, -1)

  /** Index of the first state of atom `k`. */
  function Pos(atoms: seq<Atom>, k: nat): nat
    requires k <= |atoms|
  {
    if k == 0 then 0 else Pos(atoms, k - 1) + (if atoms[k - 1].Repeat? then 2 else 1)
  }

  /** Index of the state that stands for position `k` in the lists: never a split state. */
  function Slot(atoms: seq<Atom>, k: nat): nat
    requires k <= |atoms|
  {
    Pos(atoms, k) + (if Repeats(atoms, k) then 1 else 0)
  }

  lemma {:induction false} PosGrows(atoms: seq<Atom>, j: nat, k: nat)
    requires j < k <= |atoms|
    ensures Slot(atoms, j) < Pos(atoms, k)
  {
    if j < k - 1 {
      PosGrows(atoms, j, k - 1);
    }
  }

  lemma SlotInjective(atoms: seq<Atom>, j: nat, k: nat)
    requires j <= |atoms| && k <= |atoms| && Slot(atoms, j) == Slot(atoms, k)
    ensures j == k
  {
    if j < k {
      PosGrows(atoms, j, k);
    } else if k < j {
      PosGrows(atoms, k, j);
    }
  }

  lemma {:induction false} PosOfExtension(atoms: seq<Atom>, a: Atom, k: nat)
    requires k <= |atoms|
    ensures Pos(atoms + [a], k) == Pos(atoms, k)
  {
    if k > 0 {
      PosOfExtension(atoms, a, k - 1);
    }
  }

  /** Atom `k` is compiled in its cells and leaves to `next`. */
  ghost predicate Compiled(states: seq<State>, atoms: seq<Atom>, k: nat, next: int)
    requires k < |atoms| && Slot(atoms, k) < |states|
  {
    var p := Pos(atoms, k);
    match atoms[k]
    case Literal(c) => states[p].c == c && states[p].out == next && states[p].out1 == -1
    case Repeat(c) =>
      && states[p].c == SPLIT && states[p].out == p + 1 && states[p].out1 == next
      && states[p + 1].c == c && states[p + 1].out == p && states[p + 1].out1 == -1
  }

  /** Where atom `k` leaves to: the next atom, or `end` after the last one. */
  function Next(atoms: seq<Atom>, k: nat, end: int): int
    requires k < |atoms|
  {
    if k + 1 < |atoms| then Pos(atoms, k + 1) else end
  }

  /** All atoms are compiled and chained in order; the last one leaves to `end`. */
  ghost predicate Chained(states: seq<State>, atoms: seq<Atom>, end: int) {
    && |states| >= Pos(atoms, |atoms|)
    && forall k: nat | k < |atoms| ::
      && Slot(atoms, k) < |states|
      && Compiled(states, atoms, k, Next(atoms, k, end))
  }

  /** The automaton of `atoms`: the chain, closed by one state without label and exits. */
  ghost predicate IsNfa(states: seq<State>, atoms: seq<Atom>) {
    var last := Pos(atoms, |atoms|);
    && Chained(states, atoms, last)
    && |states| == last + 1
    && states[last].c == -1 && states[last].out == -1 && states[last].out1 == -1
  }

  /** The `ins.out`/`ins.out1` patch of the constructor. */
  function Patch(states: seq<State>, at: int, target: int): seq<State>
    requires at == -1 || 0 <= at < |states|
  {
    if at == -1 then states
    else if states[at].c == SPLIT then states[at := states[at].(out1 := target)]
    else states[at := states[at].(out := target)]
  }

  /** The states appended for one atom. */
  function StatesOf(a: Atom, size: nat): seq<State> {
    match a
    case Literal(c) => [FRESH.(c := c)]
    case Repeat(c) => [FRESH.(c := SPLIT, out := size + 1), FRESH.(c := c, out := size)]
  }

  /** First state of the last atom, or -1. */
  function LastPos(atoms: seq<Atom>): (r: int)
    ensures r >= -1
  {
    if atoms == [] then -1 else Pos(atoms, |atoms| - 1)
  }

  lemma FirstAtom(ptn: seq<Char>, i: nat)
    requires i < |ptn|
    ensures var rest := Parse(ptn[i..]);
            && |rest| > 0
            && if i + 1 < |ptn| && ptn[i + 1] == STAR then rest[0] == Repeat(ptn[i]) && rest[1..] == Parse(ptn[i + 2..])
               else rest[0] == Literal(ptn[i]) && rest[1..] == Parse(ptn[i + 1..])
  {
    assert ptn[i..][1..] == ptn[i + 1..];
    if i + 1 < |ptn| {
      assert ptn[i..][2..] == ptn[i + 2..];
    }
  }

  lemma ParseEnd()
    ensures Parse([]) == []
  {
  }

  lemma ChainEmpty()
    ensures Chained([], [], -1) && Pos([], 0) == 0 && LastPos([]) == -1
  {
  }

  /** Appending states and patching the last atom's exit keeps every compiled atom, and links the last one. */
  lemma Linked(states: seq<State>, atoms: seq<Atom>, added: seq<State>, k: nat)
    requires Chained(states, atoms, -1) && |states| == Pos(atoms, |atoms|) && |added| > 0
    requires k < |atoms|
    ensures LastPos(atoms) < |states| && Slot(atoms, k) < |states|
    ensures Compiled(Patch(states + added, LastPos(atoms), |states|), atoms, k, Pos(atoms, k + 1))
  {
    if k < |atoms| - 1 {
      PosGrows(atoms, k, |atoms| - 1);
    }
    assert Slot(atoms, k) < |states|;
    assert Compiled(states, atoms, k, Next(atoms, k, -1));
  }

  /** One round of the constructor extends the chain by one atom. */
  lemma ChainExtended(states: seq<State>, atoms: seq<Atom>, a: Atom)
    requires Chained(states, atoms, -1) && |states| == Pos(atoms, |atoms|)
    ensures LastPos(atoms) < |states| && LastPos(atoms + [a]) == |states|
    ensures var s := Patch(states + StatesOf(a, |states|), LastPos(atoms), |states|);
            Chained(s, atoms + [a], -1) && |s| == Pos(atoms + [a], |atoms + [a]|)
  {
    var more := atoms + [a];
    forall k: nat | k <= |atoms| ensures Pos(more, k) == Pos(atoms, k) {
      PosOfExtension(atoms, a, k);
    }
    var s := Patch(states + StatesOf(a, |states|), LastPos(atoms), |states|);
    forall k: nat | k < |atoms|
      ensures Slot(more, k) < |s| && Compiled(s, more, k, Pos(more, k + 1))
    {
      Linked(states, atoms, StatesOf(a, |states|), k);
      assert more[k] == atoms[k];
    }
    if atoms != [] {
      Linked(states, atoms, StatesOf(a, |states|), |atoms| - 1);
    }
  }

  /** Closing the chain with the final state gives the automaton. */
  lemma ChainClosed(states: seq<State>, atoms: seq<Atom>)
    requires Chained(states, atoms, -1) && |states| == Pos(atoms, |atoms|)
    ensures LastPos(atoms) < |states| && IsNfa(Patch(states + [FRESH], LastPos(atoms), |states|), atoms)
  {
    forall k: nat | k < |atoms|
      ensures LastPos(atoms) < |states| && Slot(atoms, k) < |states| + 1
      ensures Compiled(Patch(states + [FRESH], LastPos(atoms), |states|), atoms, k, Pos(atoms, k + 1))
    {
      Linked(states, atoms, [FRESH], k);
    }
  }

  /** What the simulation reads of the automaton at position `k`. */
  lemma StateAt(nfa: seq<State>, atoms: seq<Atom>, k: nat)
    requires IsNfa(nfa, atoms) && k <= |atoms|
    ensures Pos(atoms, k) <= Slot(atoms, k) < |nfa| == Slot(atoms, |atoms|) + 1
    ensures k < |atoms| ==> Slot(atoms, k) < Pos(atoms, k + 1)
    ensures var s, node := nfa[Pos(atoms, k)], nfa[Slot(atoms, k)];
            if k == |atoms| then Slot(atoms, k) == Pos(atoms, k) && s.c == -1 && s.out == -1
            else if Repeats(atoms, k) then
              && s.c == SPLIT && s.out == Slot(atoms, k) && s.out1 == Pos(atoms, k + 1)
              && node.c == atoms[k].c && node.out == Pos(atoms, k)
            else Slot(atoms, k) == Pos(atoms, k) && s.c == atoms[k].c && s.out == Pos(atoms, k + 1)
  {
    if k < |atoms| {
      assert Slot(atoms, k) < |nfa|;
      assert Compiled(nfa, atoms, k, Next(atoms, k, Pos(atoms, |atoms|)));
    }
  }

  // ---------------------------------------------------------------- lists and marks

  /** `list` holds the state of every position in `ks`, each once and no other. */
  ghost predicate Lists(atoms: seq<Atom>, list: seq<int>, ks: set<nat>)
    requires forall k <- ks :: k <= |atoms|
  {
    && (forall i, j | 0 <= i < j < |list| :: list[i] != list[j])
    && (forall i | 0 <= i < |list| :: exists k <- ks :: list[i] == Slot(atoms, k))
    && (forall k <- ks :: Slot(atoms, k) in list)
  }

  /** A state carries mark `l` exactly when it is in list `l`. */
  ghost predicate Marked(states: seq<State>, list: seq<int>, l: int) {
    forall s | 0 <= s < |states| :: states[s].lastList == l <==> s in list
  }

  /** The two arrays agree except for the marks. */
  ghost predicate SameCode(a: seq<State>, b: seq<State>) {
    |a| == |b| && forall s | 0 <= s < |a| :: a[s].(lastList := 0) == b[s].(lastList := 0)
  }

  /** Pushing the state of position `k`, unless it is already there, adds `k`. */
  lemma ListsAdd(atoms: seq<Atom>, list: seq<int>, ks: set<nat>, k: nat)
    requires k <= |atoms| && (forall q <- ks :: q <= |atoms|) && Lists(atoms, list, ks)
    ensures var s := Slot(atoms, k);
            Lists(atoms, if s in list then list else list + [s], ks + {k})
  {
    var s := Slot(atoms, k);
    if s in list {
      var q :| q in ks && s == Slot(atoms, q);
      SlotInjective(atoms, k, q);
      assert ks + {k} == ks;
    } else {
      var more := list + [s];
      forall i | 0 <= i < |more| ensures exists q <- ks + {k} :: more[i] == Slot(atoms, q) {
        if i < |list| {
          assert more[i] == list[i];
          var q :| q in ks && list[i] == Slot(atoms, q);
          assert q in ks + {k};
        } else {
          assert k in ks + {k};
        }
      }
      forall q | q in ks + {k} ensures Slot(atoms, q) in more {
        if q == k {
          assert more[|list|] == s;
        } else {
          assert Slot(atoms, q) in list;
        }
      }
    }
  }

  /** Pushing and marking one state, as `_add_state` does when it is not yet marked. */
  lemma MarkPushed(states: seq<State>, nfa: seq<State>, list: seq<int>, l: int, s: int)
    requires SameCode(states, nfa) && Marked(states, list, l) && 0 <= s < |states|
    ensures var after, more := states[s := states[s].(lastList := l)], if s in list then list else list + [s];
            && SameCode(after, nfa) && Marked(after, more, l)
            && (s in list ==> after == states)
            && forall q | 0 <= q < |states| && q !in more :: after[q] == states[q]
  {
    var after, more := states[s := states[s].(lastList := l)], if s in list then list else list + [s];
    assert forall q :: q in more <==> q in list || q == s;
  }

  lemma NoLists(atoms: seq<Atom>)
    ensures Lists(atoms, [], {})
  {
  }

  lemma ListsMember(atoms: seq<Atom>, list: seq<int>, ks: set<nat>, i: nat) returns (k: nat)
    requires (forall q <- ks :: q <= |atoms|) && Lists(atoms, list, ks) && i < |list|
    ensures k in ks && list[i] == Slot(atoms, k) && list[i] !in list[..i] && list[i] !in list[i + 1..]
  {
    var s := list[i];
    k :| k in ks && s == Slot(atoms, k);
  }

  lemma ListsContains(atoms: seq<Atom>, list: seq<int>, ks: set<nat>, k: nat)
    requires (forall q <- ks :: q <= |atoms|) && Lists(atoms, list, ks) && k <= |atoms|
    ensures Slot(atoms, k) in list <==> k in ks
  {
    ListsAdd(atoms, list, ks, k);
    if i: nat :| i < |list| && list[i] == Slot(atoms, k) {
      var j := ListsMember(atoms, list, ks, i);
      SlotInjective(atoms, j, k);
    }
  }

  /** A list determines the positions it stands for. */
  lemma ListsUnique(atoms: seq<Atom>, list: seq<int>, ks: set<nat>, js: set<nat>)
    requires (forall q <- ks :: q <= |atoms|) && (forall q <- js :: q <= |atoms|)
    requires Lists(atoms, list, ks) && Lists(atoms, list, js)
    ensures ks <= js
  {
    forall k | k in ks ensures k in js {
      assert k in ks + js;
      var i :| 0 <= i < |list| && list[i] == Slot(atoms, k);
      var j :| j in js && list[i] == Slot(atoms, j);
      assert j in ks + js;
      SlotInjective(atoms, k, j);
    }
  }

  class SimpleRexNFA {
    var states: seq<State>
    var lists: seq<seq<int>>
    var clist: int
    var lastState: int
    ghost const ptn: seq<Char>
    ghost var nfa: seq<State>

    ghost predicate Valid()
      reads this
    {
      |states| == |nfa| && SameCode(states, nfa) && IsNfa(nfa, Parse(ptn)) && lastState == |states| - 1 && |lists| == 2
    }

    constructor (ptn: seq<Char>)
      ensures Valid() && this.ptn == ptn
    {
      this.ptn := ptn;
      states, lists, clist, lastState := [], [[], []], 0, -1;
      new;
      hide Compiled, Chained, IsNfa, Pos, LastPos, Parse, Patch;
      var i, last := 0, -1;
      ghost var atoms: seq<Atom> := [];
      ChainEmpty();
      assert ptn[0..] == ptn;
      while i < |ptn|
        invariant 0 <= i <= |ptn| && |lists| == 2
        invariant Parse(ptn) == atoms + Parse(ptn[i..])
        invariant Chained(states, atoms, -1) && |states| == Pos(atoms, |atoms|)
        invariant last == LastPos(atoms)
      {
        var size := |states|;
        ghost var before, rest := states, Parse(ptn[i..]);
        FirstAtom(ptn, i);
        ChainExtended(states, atoms, rest[0]);
        if i + 1 < |ptn| && ptn[i + 1] == STAR {
          states := states + [FRESH];
          states := states[size := states[size].(c := SPLIT, out := size + 1)];
          states := states + [FRESH];
          states := states[size + 1 := states[size + 1].(c := ptn[i], out := size)];
          i := i + 2;
        } else {
          states := states + [FRESH];
          states := states[size := states[size].(c := ptn[i])];
          i := i + 1;
        }
        assert states == before + StatesOf(rest[0], size);
        PatchLast(last, size);
        assert atoms + rest == (atoms + [rest[0]]) + rest[1..];
        atoms := atoms + [rest[0]];
        last := size;
      }
      ParseEnd();
      assert ptn[i..] == [];
      assert atoms == Parse(ptn);
      ChainClosed(states, atoms);
      lastState := |states|;
      states := states + [FRESH];
      PatchLast(last, lastState);
      clist := 0;
      nfa := states;
    }

    /** Links the exit of the last atom, if there is one. */
    method PatchLast(last: int, target: int)
      requires last == -1 || 0 <= last < |states|
      modifies this`states
      ensures states == Patch(old(states), last, target)
    {
      if last != -1 {
        if states[last].c == SPLIT {
          states := states[last := states[last].(out1 := target)];
        } else {
          states := states[last := states[last].(out := target)];
        }
      }
    }

    lemma CodeAt(s: int)
      requires Valid() && 0 <= s < |nfa|
      ensures |states| == |nfa| && states[s].(lastList := 0) == nfa[s].(lastList := 0)
    {
    }

    /** Puts the state of position `k` in list `list` unless its mark says it is there. */
    method Push(state: int, list: int, ghost k: nat, ghost ks: set<nat>)
      requires Valid() && 0 <= list < 2
      requires k <= |Parse(ptn)| && state == Slot(Parse(ptn), k)
      requires forall q <- ks :: q <= |Parse(ptn)|
      requires Lists(Parse(ptn), lists[list], ks) && Marked(states, lists[list], list)
      modifies this`states, this`lists
      ensures Valid() && lists == old(lists)[list := lists[list]]
      ensures Lists(Parse(ptn), lists[list], ks + {k}) && Marked(states, lists[list], list)
      ensures forall s <- old(lists)[list] :: s in lists[list]
      ensures forall s | 0 <= s < |states| && s !in lists[list] :: states[s] == old(states)[s]
    {
      hide Parse, IsNfa, Lists;
      StateAt(nfa, Parse(ptn), k);
      ListsAdd(Parse(ptn), lists[list], ks, k);
      MarkPushed(states, nfa, lists[list], list, state);
      if states[state].lastList != list {
        lists := lists[list := lists[list] + [state]];
        states := states[state := states[state].(lastList := list)];
      }
    }

    /** Adds the closure of position `k`, whose first state is `state`, to list `list`. */
    method AddState(state: int, list: int, ghost k: nat, ghost ks: set<nat>)
      requires Valid() && 0 <= list < 2
      requires state == -1 || (k <= |Parse(ptn)| && state == Pos(Parse(ptn), k))
      requires forall q <- ks :: q <= |Parse(ptn)|
      requires Lists(Parse(ptn), lists[list], ks) && Marked(states, lists[list], list)
      modifies this`states, this`lists
      ensures Valid() && lists == old(lists)[list := lists[list]]
      ensures Lists(Parse(ptn), lists[list], if state == -1 then ks else ks + Closure(Parse(ptn), k))
      ensures Marked(states, lists[list], list)
      ensures forall s <- old(lists)[list] :: s in lists[list]
      ensures forall s | 0 <= s < |states| && s !in lists[list] :: states[s] == old(states)[s]
      decreases |states| - state
    {
      hide Parse, IsNfa, Lists, Pos, Slot, SameCode, Marked, Closure;
      if state == -1 {
        return;
      }
      ghost var atoms := Parse(ptn);
      StateAt(nfa, atoms, k);
      CodeAt(state);
      ClosureUnfolds(atoms, k, ks);
      var ins := states[state];
      if ins.c == SPLIT {
        Push(ins.out, list, k, ks);
        AddState(ins.out1, list, k + 1, ks + {k});
      } else {
        Push(state, list, k, ks);
      }
    }

    /** Moves the state of position `k` over `c` into list `next`, and drops its mark unless it moved there itself. */
    method Advance(state: int, c: Char, next: int, ghost k: nat, ghost ks: set<nat>)
      requires Valid() && 0 <= next < 2
      requires k <= |Parse(ptn)| && state == Slot(Parse(ptn), k)
      requires forall q <- ks :: q <= |Parse(ptn)|
      requires Lists(Parse(ptn), lists[next], ks) && Marked(states, lists[next], next)
      modifies this`states, this`lists
      ensures Valid() && state < |states|
      ensures lists == old(lists)[next := lists[next]]
      ensures Lists(Parse(ptn), lists[next], ks + Moves(Parse(ptn), k, c)) && Marked(states, lists[next], next)
      ensures forall s | 0 <= s < |states| && s !in lists[next] ::
          states[s] == if s == state then old(states)[s].(lastList := -1) else old(states)[s]
    {
      hide Parse, IsNfa, Lists;
      ghost var atoms := Parse(ptn);
      StateAt(nfa, atoms, k);
      var ins := states[state];
      if ins.c == c || ins.c == DOT {
        AddState(ins.out, next, if Repeats(atoms, k) then k else k + 1, ks);
      }
      assert Moves(atoms, k, c) == {} ==> ks + Moves(atoms, k, c) == ks;
      if states[state].lastList != next {
        states := states[state := states[state].(lastList := -1)];
      }
    }

    /** The current list stands for the positions active on `w`, the other list is empty, and the marks agree. */
    ghost predicate Front(w: seq<Char>)
      reads this
    {
      && Valid() && 0 <= clist < 2
      && Lists(Parse(ptn), lists[clist], ActiveSet(Parse(ptn), w)) && lists[1 - clist] == []
      && forall s | 0 <= s < |states| :: states[s].lastList == if s in lists[clist] then clist else -1
    }

    /** One character of the simulation. */
    method Consume(c: Char, ghost w: seq<Char>)
      requires Front(w)
      modifies this`states, this`lists, this`clist
      ensures Front(w + [c])
    {
      hide Parse, IsNfa, Active, InPrefix, Lists, Moves;
      ghost var atoms, ks, done := Parse(ptn), ActiveSet(Parse(ptn), w), {};
      var cur, next := lists[clist], 1 - clist;
      assert MovesOf(atoms, done, c) == {};
      assert Lists(atoms, [], {}) by { NoLists(atoms); }
      for i := 0 to |cur|
        invariant Valid() && 0 <= clist < 2 && next == 1 - clist && lists[clist] == cur
        invariant done <= ks && Lists(atoms, cur[..i], done)
        invariant Lists(atoms, lists[next], MovesOf(atoms, done, c))
        invariant forall s | 0 <= s < |states| ::
            states[s].lastList == if s in lists[next] then next else if s in cur[i..] then clist else -1
      {
        ghost var k := ListsMember(atoms, cur, ks, i);
        assert forall s :: s in cur[i..] <==> s == cur[i] || s in cur[i + 1..];
        Advance(cur[i], c, next, k, MovesOf(atoms, done, c));
        assert MovesOf(atoms, done + {k}, c) == MovesOf(atoms, done, c) + Moves(atoms, k, c);
        ListsAdd(atoms, cur[..i], done, k);
        assert cur[..i + 1] == cur[..i] + [cur[i]];
        done := done + {k};
      }
      assert cur[..|cur|] == cur;
      ListsUnique(atoms, cur, ks, done);
      assert done == ks;
      ActiveStep(atoms, w, c);
      lists := lists[clist := []];
      clist := next;
    }

    method ResetMarks()
      requires Valid()
      modifies this`states
      ensures Valid() && forall s | 0 <= s < |states| :: states[s].lastList == -1
    {
      hide Parse, IsNfa;
      for s := 0 to |states|
        invariant Valid()
        invariant forall q | 0 <= q < s :: states[q].lastList == -1
      {
        states := states[s := states[s].(lastList := -1)];
      }
    }

    /** Before the first character. */
    method Begin()
      requires Valid()
      modifies this`states, this`lists, this`clist
      ensures Front([])
    {
      hide Parse, IsNfa, Active, InPrefix;
      ghost var atoms := Parse(ptn);
      lists, clist := [[], []], 0;
      ResetMarks();
      AddState(0, clist, 0, {});
      ActiveAtStart(atoms);
      assert {} + Closure(atoms, 0) == ActiveSet(atoms, []);
    }

    /** True exactly when the whole of `src` is in the pattern's language, whatever was asked before. */
    method IsMatched(src: seq<Char>) returns (r: bool)
      requires Valid()
      modifies this`states, this`lists, this`clist
      ensures Valid()
      ensures r == InLanguage(ptn, src)
    {
      hide Parse, IsNfa, Active, InPrefix, InLanguage;
      ghost var atoms := Parse(ptn);
      AcceptsIffLastActive(ptn, src);
      Begin();
      assert src[..0] == [];
      for n := 0 to |src|
        invariant Front(src[..n])
      {
        Consume(src[n], src[..n]);
        assert src[..n] + [src[n]] == src[..n + 1];
        if lists[clist] == [] {
          DeadStaysDead(atoms, src[..n + 1], src[n + 1..]);
          assert src[..n + 1] + src[n + 1..] == src;
          return false;
        }
      }
      assert src[..|src|] == src;
      StateAt(nfa, atoms, |atoms|);
      ListsContains(atoms, lists[clist], ActiveSet(atoms, src), |atoms|);
      r := ReachesLast();
    }

    /** The final loop over the current list. */
    method ReachesLast() returns (r: bool)
      requires 0 <= clist < 2 && |lists| == 2
      ensures r <==> lastState in lists[clist]
    {
      for i := 0 to |lists[clist]|
        invariant forall j | 0 <= j < i :: lists[clist][j] != lastState
      {
        if lists[clist][i] == lastState {
          return true;
        }
      }
      return false;
    }
  }
}

/** Infix to postfix translation and the stack machine that evaluates the result
    (ReversePolishExpression/main.cpp). Numbers are exact reals. */
module ReversePolish {
  import opened Wrappers
  import StringMultiply

  type AddOp = c: char | c == '+' || c == '-' witness '+'
  type MulOp = c: char | c == '*' || c == '/' witness '*'

  // ---------------------------------------------------------------- infix expressions

  /** A run of additions and subtractions. */
  datatype Exp = Single(t: Term) | Add(t: Term, op: AddOp, rest: Exp)
  /** A run of multiplications and divisions. */
  datatype Term = Factor(f: Atom) | Mul(f: Atom, op: MulOp, rest: Term)
  datatype Atom = Number(digits: string) | Paren(e: Exp)

  predicate IsDigit(c: char) {
    '0' <= c <= '9'
  }

  lemma DigitsAre(c: char)
    ensures IsDigit(c) <==> c in "0123456789"
  {
  }

  predicate IsNumeral(s: string) {
    s != "" && forall i | 0 <= i < |s| :: IsDigit(s[i])
  }

  predicate WellFormed(e: Exp) {
    match e
    case Single(t) => WellFormedTerm(t)
    case Add(t, _, rest) => WellFormedTerm(t) && WellFormed(rest)
  }

  predicate WellFormedTerm(t: Term) {
    match t
    case Factor(f) => WellFormedAtom(f)
    case Mul(f, _, rest) => WellFormedAtom(f) && WellFormedTerm(rest)
  }

  predicate WellFormedAtom(f: Atom) {
    match f
    case Number(digits) => IsNumeral(digits)
    case Paren(e) => WellFormed(e)
  }

  /** The expression as it is typed. */
  function Show(e: Exp): string {
    match e
    case Single(t) => ShowTerm(t)
    case Add(t, op, rest) => ShowTerm(t) + [op] + Show(rest)
  }

  function ShowTerm(t: Term): string {
    match t
    case Factor(f) => ShowAtom(f)
    case Mul(f, op, rest) => ShowAtom(f) + [op] + ShowTerm(rest)
  }

  function ShowAtom(f: Atom): string {
    match f
    case Number(digits) => digits
    case Paren(e) => "(" + Show(e) + ")"
  }

  function Tokens(e: Exp): seq<string> {
    match e
    case Single(t) => TermTokens(t)
    case Add(t, op, rest) => TermTokens(t) + [[op]] + Tokens(rest)
  }

  function TermTokens(t: Term): seq<string> {
    match t
    case Factor(f) => AtomTokens(f)
    case Mul(f, op, rest) => AtomTokens(f) + [[op]] + TermTokens(rest)
  }

  function AtomTokens(f: Atom): seq<string> {
    match f
    case Number(digits) => [digits]
    case Paren(e) => ["("] + Tokens(e) + [")"]
  }

  /** The postorder of the tree that groups every run to the right. */
  function Postorder(e: Exp): seq<string> {
    match e
    case Single(t) => TermPostorder(t)
    case Add(t, op, rest) => TermPostorder(t) + Postorder(rest) + [[op]]
  }

  function TermPostorder(t: Term): seq<string> {
    match t
    case Factor(f) => AtomPostorder(f)
    case Mul(f, op, rest) => AtomPostorder(f) + TermPostorder(rest) + [[op]]
  }

  function AtomPostorder(f: Atom): seq<string> {
    match f
    case Number(digits) => [digits]
    case Paren(e) => Postorder(e)
  }

  // ---------------------------------------------------------------- splitting into elements

  /** `_is_number`: a string ends in a character that is not a digit. */
  predicate IsNumber(s: string, start: nat) {
    start < |s| && IsDigit(s[start])
  }

  /** Length of the digits at the front. */
  function DigitRun(s: string): (n: nat)
    ensures n <= |s| && (forall i | 0 <= i < n :: IsDigit(s[i])) && !IsNumber(s, n)
  {
    if IsNumber(s, 0) then 1 + DigitRun(s[1..]) else 0
  }

  /** Maximal digit runs, and every other character by itself. */
  function Split(s: string): seq<string>
    decreases |s|
  {
    if s == "" then []
    else
      var n := if IsNumber(s, 0) then DigitRun(s) else 1;
      [s[..n]] + Split(s[n..])
  }

  function Joined(elems: seq<string>): string {
    if elems == [] then "" else elems[0] + Joined(elems[1..])
  }

  lemma JoinedOne(first: string, elems: seq<string>)
    ensures Joined([first] + elems) == first + Joined(elems)
  {
    assert ([first] + elems)[1..] == elems;
  }

  /** Splitting loses and reorders nothing. */
  lemma {:induction false} SplitJoined(s: string)
    ensures Joined(Split(s)) == s
    decreases |s|
  {
    if s != "" {
      var n := if IsNumber(s, 0) then DigitRun(s) else 1;
      SplitJoined(s[n..]);
      JoinedOne(s[..n], Split(s[n..]));
      assert s == s[..n] + s[n..];
    }
  }

  lemma {:induction false} DigitRunOf(digits: string, rest: string)
    requires (forall i | 0 <= i < |digits| :: IsDigit(digits[i])) && !IsNumber(rest, 0)
    ensures DigitRun(digits + rest) == |digits|
  {
    if digits == "" {
      assert digits + rest == rest;
    } else {
      DigitRunOf(digits[1..], rest);
      assert (digits + rest)[1..] == digits[1..] + rest;
    }
  }

  lemma SplitNumeral(digits: string, rest: string)
    requires IsNumeral(digits) && !IsNumber(rest, 0)
    ensures Split(digits + rest) == [digits] + Split(rest)
  {
    DigitRunOf(digits, rest);
    assert (digits + rest)[..|digits|] == digits && (digits + rest)[|digits|..] == rest;
  }

  lemma SplitRun(s: string, n: nat)
    requires IsNumber(s, 0) && n == DigitRun(s)
    ensures Split(s) == [s[..n]] + Split(s[n..])
  {
  }

  lemma SplitNothing()
    ensures Split("") == []
  {
  }

  lemma SplitSymbol(c: char, rest: string)
    requires !IsDigit(c)
    ensures Split([c] + rest) == [[c]] + Split(rest)
  {
    assert ([c] + rest)[..1] == [c] && ([c] + rest)[1..] == rest;
  }

  /** A well-formed expression splits into its tokens. */
  lemma {:induction false} SplitShow(e: Exp, rest: string)
    requires WellFormed(e) && !IsNumber(rest, 0)
    ensures Split(Show(e) + rest) == Tokens(e) + Split(rest)
  {
    match e
    case Single(t) => SplitShowTerm(t, rest);
    case Add(t, op, r) =>
      assert Show(e) + rest == ShowTerm(t) + ([op] + (Show(r) + rest));
      SplitShowTerm(t, [op] + (Show(r) + rest));
      SplitSymbol(op, Show(r) + rest);
      SplitShow(r, rest);
  }

  lemma {:induction false} SplitShowTerm(t: Term, rest: string)
    requires WellFormedTerm(t) && !IsNumber(rest, 0)
    ensures Split(ShowTerm(t) + rest) == TermTokens(t) + Split(rest)
  {
    match t
    case Factor(f) => SplitShowAtom(f, rest);
    case Mul(f, op, r) =>
      assert ShowTerm(t) + rest == ShowAtom(f) + ([op] + (ShowTerm(r) + rest));
      SplitShowAtom(f, [op] + (ShowTerm(r) + rest));
      SplitSymbol(op, ShowTerm(r) + rest);
      SplitShowTerm(r, rest);
  }

  lemma {:induction false} SplitShowAtom(f: Atom, rest: string)
    requires WellFormedAtom(f) && !IsNumber(rest, 0)
    ensures Split(ShowAtom(f) + rest) == AtomTokens(f) + Split(rest)
  {
    match f
    case Number(digits) => SplitNumeral(digits, rest);
    case Paren(e) =>
      assert ShowAtom(f) + rest == ['('] + (Show(e) + ([')'] + rest));
      SplitSymbol('(', Show(e) + ([')'] + rest));
      SplitShow(e, [')'] + rest);
      SplitSymbol(')', rest);
      assert "(" == ['('] && ")" == [')'];
  }

  // ---------------------------------------------------------------- the translation, element by element

  datatype Stacks = Stacks(ops: seq<char>, out: seq<string>)

  function Last<T>(s: seq<T>): T
    requires s != []
  {
    s[|s| - 1]
  }

  /** Pops operators to the output up to and including the open parenthesis; `None` when there is none. */
  function PopToParen(s: Stacks): Option<Stacks>
    decreases |s.ops|
  {
    if s.ops == [] then None
    else if Last(s.ops) == '(' then Some(s.(ops := s.ops[..|s.ops| - 1]))
    else PopToParen(PopOne(s))
  }

  function PopOne(s: Stacks): Stacks
    requires s.ops != []
  {
    Stacks(s.ops[..|s.ops| - 1], s.out + [[Last(s.ops)]])
  }

  predicate OnTop(ops: seq<char>, cs: set<char>) {
    ops != [] && Last(ops) in cs
  }

  function PopMuls(s: Stacks): Stacks
    decreases |s.ops|
  {
    if OnTop(s.ops, {'*', '/'}) then PopMuls(PopOne(s)) else s
  }

  function PopAll(s: Stacks): seq<string>
    decreases |s.ops|
  {
    if s.ops == [] then s.out else PopAll(PopOne(s))
  }

  /** `None`: a closing parenthesis without an open one, where the source reads an empty vector. */
  function Step(elem: string, s: Stacks): Option<Stacks>
    requires elem != ""
  {
    if IsNumber(elem, 0) then Some(s.(out := s.out + [elem]))
    else match elem[0]
      case '(' => Some(s.(ops := s.ops + [elem[0]]))
      case ')' => PopToParen(s)
      case '+' => var p := PopMuls(s); Some(p.(ops := p.ops + [elem[0]]))
      case '-' => var p := PopMuls(s); Some(p.(ops := p.ops + [elem[0]]))
      case '*' => Some(s.(ops := s.ops + [elem[0]]))
      case '/' => Some(s.(ops := s.ops + [elem[0]]))
      case _ => Some(s)
  }

  function Steps(elems: seq<string>, s: Stacks): Option<Stacks>
    requires forall i | 0 <= i < |elems| :: elems[i] != ""
  {
    if elems == [] then Some(s)
    else match Step(elems[0], s)
      case None => None
      case Some(s') => Steps(elems[1..], s')
  }

  lemma {:induction false} SplitNonEmpty(s: string)
    ensures forall i | 0 <= i < |Split(s)| :: Split(s)[i] != ""
    decreases |s|
  {
    if s != "" {
      var n := if IsNumber(s, 0) then DigitRun(s) else 1;
      SplitNonEmpty(s[n..]);
    }
  }

  /** What `set_exp` makes of a string. */
  function Translate(s: string): Option<seq<string>> {
    SplitNonEmpty(s);
    match Steps(Split(s), Stacks([], []))
    case None => None
    case Some(s') => Some(PopAll(s'))
  }

  /** Digits, parentheses and operators; the source answers any other element with a message and goes on. */
  predicate Known(elem: string) {
    elem != "" && elem[0] in "0123456789()+-*/"
  }

  function KnownOnly(elems: seq<string>): seq<string> {
    if elems == [] then []
    else (if Known(elems[0]) then [elems[0]] else []) + KnownOnly(elems[1..])
  }

  lemma {:induction false} KnownNonEmpty(elems: seq<string>)
    ensures forall i | 0 <= i < |KnownOnly(elems)| :: KnownOnly(elems)[i] != ""
  {
    if elems != [] {
      KnownNonEmpty(elems[1..]);
    }
  }

  lemma UnknownStep(elem: string, s: Stacks)
    requires elem != "" && !Known(elem)
    ensures Step(elem, s) == Some(s)
  {
    assert forall c: char :: IsDigit(c) || c in {'(', ')', '+', '-', '*', '/'} ==> c in "0123456789()+-*/";
  }

  /** Elements of unknown characters change nothing: the others are translated as if these were not there. */
  lemma {:induction false} UnknownIsSkipped(elems: seq<string>, s: Stacks)
    requires forall i | 0 <= i < |elems| :: elems[i] != ""
    ensures forall i | 0 <= i < |KnownOnly(elems)| :: KnownOnly(elems)[i] != ""
    ensures Steps(elems, s) == Steps(KnownOnly(elems), s)
  {
    KnownNonEmpty(elems);
    if elems != [] {
      var rest := KnownOnly(elems[1..]);
      if Known(elems[0]) {
        assert KnownOnly(elems)[0] == elems[0] && KnownOnly(elems)[1..] == rest;
        if s' :| Step(elems[0], s) == Some(s') {
          UnknownIsSkipped(elems[1..], s');
        }
      } else {
        UnknownStep(elems[0], s);
        assert KnownOnly(elems) == rest;
        UnknownIsSkipped(elems[1..], s);
      }
    }
  }

  // ---------------------------------------------------------------- what can be translated

  /** No closing parenthesis comes without an open one before it, `depth` of them being open at the start. */
  predicate Closable(s: string, depth: nat) {
    if s == "" then true
    else if s[0] == '(' then Closable(s[1..], depth + 1)
    else if s[0] == ')' then depth > 0 && Closable(s[1..], depth - 1)
    else Closable(s[1..], depth)
  }

  function Parens(ops: seq<char>): nat {
    if ops == [] then 0 else Parens(ops[..|ops| - 1]) + (if Last(ops) == '(' then 1 else 0)
  }

  lemma {:induction false} PopToParenDefined(s: Stacks)
    ensures PopToParen(s).Some? <==> Parens(s.ops) > 0
    ensures PopToParen(s).Some? ==> Parens(PopToParen(s).value.ops) == Parens(s.ops) - 1
    decreases |s.ops|
  {
    if s.ops != [] && Last(s.ops) != '(' {
      PopToParenDefined(PopOne(s));
    }
  }

  lemma {:induction false} PopMulsKeepsParens(s: Stacks)
    ensures Parens(PopMuls(s).ops) == Parens(s.ops)
    decreases |s.ops|
  {
    if OnTop(s.ops, {'*', '/'}) {
      PopMulsKeepsParens(PopOne(s));
    }
  }

  lemma PushParens(ops: seq<char>, op: char)
    ensures Parens(ops + [op]) == Parens(ops) + (if op == '(' then 1 else 0)
  {
    assert (ops + [op])[..|ops|] == ops;
  }

  lemma {:induction false} DigitsClosable(s: string, n: nat, depth: nat)
    requires n <= |s| && forall i | 0 <= i < n :: IsDigit(s[i])
    ensures Closable(s, depth) <==> Closable(s[n..], depth)
  {
    if n > 0 {
      DigitsClosable(s[1..], n - 1, depth);
      assert s[1..][n - 1..] == s[n..];
    } else {
      assert s[n..] == s;
    }
  }

  /** A number changes no parenthesis. */
  lemma StepNumber(elem: string, s: Stacks)
    requires IsNumber(elem, 0)
    ensures Step(elem, s).Some? && Step(elem, s).value.ops == s.ops
  {
  }

  /** A symbol opens a parenthesis, closes one or changes none; closing needs an open one. */
  lemma StepSymbol(c: char, s: Stacks)
    requires !IsDigit(c)
    ensures Step([c], s).Some? <==> (c == ')' ==> Parens(s.ops) > 0)
    ensures Step([c], s).Some? ==>
              Parens(Step([c], s).value.ops) == Parens(s.ops) + (if c == '(' then 1 else if c == ')' then -1 else 0)
  {
    hide PopToParen, PopMuls, Parens;
    PopToParenDefined(s);
    PopMulsKeepsParens(s);
    PushParens(s.ops, c);
    PushParens(PopMuls(s).ops, c);
  }

  /** The translation is defined exactly when the parentheses can be closed. */
  lemma {:induction false} StepsDefined(str: string, s: Stacks)
    ensures NonEmpty(Split(str))
    ensures Steps(Split(str), s).Some? <==> Closable(str, Parens(s.ops))
    decreases |str|
  {
    hide Step, Parens, DigitRun;
    SplitNonEmpty(str);
    if str != "" {
      var n := if IsNumber(str, 0) then DigitRun(str) else 1;
      SplitNonEmpty(str[n..]);
      if IsNumber(str, 0) {
        NumberAtFront(str);
        StepNumber(str[..n], s);
        DigitsClosable(str, n, Parens(s.ops));
      } else {
        assert str[..n] == [str[0]];
        StepSymbol(str[0], s);
      }
      FirstStep(str[..n], Split(str[n..]), s);
      if s' :| Step(str[..n], s) == Some(s') {
        StepsDefined(str[n..], s');
      }
    }
  }

  lemma NumberAtFront(str: string)
    requires IsNumber(str, 0)
    ensures 0 < DigitRun(str) <= |str| && IsNumber(str[..DigitRun(str)], 0)
  {
  }

  lemma TranslateDefined(str: string)
    ensures Translate(str).Some? <==> Closable(str, 0)
  {
    StepsDefined(str, Stacks([], []));
  }

  // ---------------------------------------------------------------- the translation emits the postorder

  /** What a run emits at once, and the operators it leaves on the stack. */
  function Emitted(e: Exp): seq<string> {
    match e
    case Single(t) => TermEmitted(t)
    case Add(t, _, rest) => TermPostorder(t) + Emitted(rest)
  }

  function TermEmitted(t: Term): seq<string> {
    match t
    case Factor(f) => AtomPostorder(f)
    case Mul(f, _, rest) => AtomPostorder(f) + TermEmitted(rest)
  }

  function Pending(e: Exp): seq<char> {
    match e
    case Single(t) => TermPending(t)
    case Add(_, op, rest) => [op] + Pending(rest)
  }

  function TermPending(t: Term): (ops: seq<char>)
    ensures forall i | 0 <= i < |ops| :: ops[i] == '*' || ops[i] == '/'
  {
    match t
    case Factor(_) => []
    case Mul(_, op, rest) => [op] + TermPending(rest)
  }

  lemma {:induction false} PendingOperators(e: Exp)
    ensures forall i | 0 <= i < |Pending(e)| :: Pending(e)[i] != '('
  {
    match e
    case Single(t) =>
    case Add(_, _, rest) => PendingOperators(rest);
  }

  function Flushed(ops: seq<char>): seq<string> {
    if ops == [] then [] else [[Last(ops)]] + Flushed(ops[..|ops| - 1])
  }

  lemma {:induction false} FlushedPush(op: char, ops: seq<char>)
    ensures Flushed([op] + ops) == Flushed(ops) + [[op]]
  {
    if ops != [] {
      FlushedPush(op, ops[..|ops| - 1]);
      assert ([op] + ops)[..|ops|] == [op] + ops[..|ops| - 1];
    }
  }

  /** Emitting what is left pending completes the postorder. */
  lemma {:induction false} FlushCompletes(e: Exp)
    ensures Postorder(e) == Emitted(e) + Flushed(Pending(e))
  {
    match e
    case Single(t) => FlushCompletesTerm(t);
    case Add(t, op, rest) =>
      FlushCompletes(rest);
      FlushedPush(op, Pending(rest));
  }

  lemma {:induction false} FlushCompletesTerm(t: Term)
    ensures TermPostorder(t) == TermEmitted(t) + Flushed(TermPending(t))
  {
    match t
    case Factor(f) =>
    case Mul(f, op, rest) =>
      FlushCompletesTerm(rest);
      FlushedPush(op, TermPending(rest));
  }

  lemma {:induction false} PopAllFlushes(s: Stacks)
    ensures PopAll(s) == s.out + Flushed(s.ops)
    decreases |s.ops|
  {
    if s.ops != [] {
      PopAllFlushes(PopOne(s));
    }
  }

  lemma {:induction false} PopMulsFlushes(below: seq<char>, ops: seq<char>, out: seq<string>)
    requires (forall i | 0 <= i < |ops| :: ops[i] == '*' || ops[i] == '/') && !OnTop(below, {'*', '/'})
    ensures PopMuls(Stacks(below + ops, out)) == Stacks(below, out + Flushed(ops))
    decreases |ops|
  {
    if ops == [] {
      assert below + ops == below;
    } else {
      assert (below + ops)[..|below + ops| - 1] == below + ops[..|ops| - 1];
      PopMulsFlushes(below, ops[..|ops| - 1], out + [[Last(ops)]]);
      assert out + [[Last(ops)]] + Flushed(ops[..|ops| - 1]) == out + Flushed(ops);
    }
  }

  lemma {:induction false} PopToParenFlushes(below: seq<char>, ops: seq<char>, out: seq<string>)
    requires forall i | 0 <= i < |ops| :: ops[i] != '('
    ensures PopToParen(Stacks(below + ['('] + ops, out)) == Some(Stacks(below, out + Flushed(ops)))
    decreases |ops|
  {
    var all := below + ['('] + ops;
    if ops == [] {
      assert all[..|all| - 1] == below && out + Flushed(ops) == out;
    } else {
      assert all[..|all| - 1] == below + ['('] + ops[..|ops| - 1];
      PopToParenFlushes(below, ops[..|ops| - 1], out + [[Last(ops)]]);
      assert out + [[Last(ops)]] + Flushed(ops[..|ops| - 1]) == out + Flushed(ops);
    }
  }

  ghost predicate NonEmpty(elems: seq<string>) {
    forall i | 0 <= i < |elems| :: elems[i] != ""
  }

  lemma FirstStep(elem: string, rest: seq<string>, s: Stacks)
    requires elem != "" && NonEmpty(rest)
    ensures Steps([elem] + rest, s) == match Step(elem, s) case None => None case Some(s') => Steps(rest, s')
  {
    assert ([elem] + rest)[1..] == rest;
  }

  lemma {:induction false} TokensNonEmpty(e: Exp)
    requires WellFormed(e)
    ensures NonEmpty(Tokens(e))
  {
    match e
    case Single(t) => TermTokensNonEmpty(t);
    case Add(t, op, rest) => TermTokensNonEmpty(t); TokensNonEmpty(rest);
  }

  lemma {:induction false} TermTokensNonEmpty(t: Term)
    requires WellFormedTerm(t)
    ensures NonEmpty(TermTokens(t))
  {
    match t
    case Factor(f) => AtomTokensNonEmpty(f);
    case Mul(f, op, rest) => AtomTokensNonEmpty(f); TermTokensNonEmpty(rest);
  }

  lemma {:induction false} AtomTokensNonEmpty(f: Atom)
    requires WellFormedAtom(f)
    ensures NonEmpty(AtomTokens(f))
  {
    match f
    case Number(_) =>
    case Paren(e) => TokensNonEmpty(e);
  }

  /** An addition run leaves its operators pending, each to be emitted after everything to its right. */
  lemma {:induction false} RunExp(e: Exp, more: seq<string>, ops: seq<char>, out: seq<string>)
    requires WellFormed(e) && NonEmpty(more) && !OnTop(ops, {'*', '/'})
    ensures NonEmpty(Tokens(e) + more)
    ensures Steps(Tokens(e) + more, Stacks(ops, out)) == Steps(more, Stacks(ops + Pending(e), out + Emitted(e)))
  {
    hide IsNumeral, TermEmitted, TermPending, TermPostorder, TermTokens, Flushed, Show, PopToParen, PopMuls;
    TokensNonEmpty(e);
    match e
    case Single(t) => RunTerm(t, more, ops, out);
    case Add(t, op, rest) =>
      var tail := Tokens(rest) + more;
      TokensNonEmpty(rest);
      assert Tokens(e) + more == TermTokens(t) + ([[op]] + tail);
      RunTerm(t, [[op]] + tail, ops, out);
      FirstStep([op], tail, Stacks(ops + TermPending(t), out + TermEmitted(t)));
      PopMulsFlushes(ops, TermPending(t), out + TermEmitted(t));
      FlushCompletesTerm(t);
      assert out + TermEmitted(t) + Flushed(TermPending(t)) == out + TermPostorder(t);
      RunExp(rest, more, ops + [op], out + TermPostorder(t));
      assert ops + [op] + Pending(rest) == ops + Pending(e);
      assert out + TermPostorder(t) + Emitted(rest) == out + Emitted(e);
  }

  lemma {:induction false} RunTerm(t: Term, more: seq<string>, ops: seq<char>, out: seq<string>)
    requires WellFormedTerm(t) && NonEmpty(more)
    ensures NonEmpty(TermTokens(t) + more)
    ensures Steps(TermTokens(t) + more, Stacks(ops, out)) == Steps(more, Stacks(ops + TermPending(t), out + TermEmitted(t)))
  {
    TermTokensNonEmpty(t);
    match t
    case Factor(f) =>
      RunAtom(f, more, ops, out);
      assert ops + [] == ops;
    case Mul(f, op, rest) =>
      var tail := TermTokens(rest) + more;
      TermTokensNonEmpty(rest);
      assert TermTokens(t) + more == AtomTokens(f) + ([[op]] + tail);
      RunAtom(f, [[op]] + tail, ops, out);
      FirstStep([op], tail, Stacks(ops, out + AtomPostorder(f)));
      RunTerm(rest, more, ops + [op], out + AtomPostorder(f));
      assert ops + [op] + TermPending(rest) == ops + TermPending(t);
      assert out + AtomPostorder(f) + TermEmitted(rest) == out + TermEmitted(t);
  }

  lemma {:induction false} RunAtom(f: Atom, more: seq<string>, ops: seq<char>, out: seq<string>)
    requires WellFormedAtom(f) && NonEmpty(more)
    ensures NonEmpty(AtomTokens(f) + more)
    ensures Steps(AtomTokens(f) + more, Stacks(ops, out)) == Steps(more, Stacks(ops, out + AtomPostorder(f)))
  {
    AtomTokensNonEmpty(f);
    match f
    case Number(digits) => FirstStep(digits, more, Stacks(ops, out));
    case Paren(e) =>
      TokensNonEmpty(e);
      var tail := Tokens(e) + ([")"] + more);
      assert AtomTokens(f) + more == ["("] + tail;
      FirstStep("(", tail, Stacks(ops, out));
      RunExp(e, [")"] + more, ops + ['('], out);
      PendingOperators(e);
      FirstStep(")", more, Stacks(ops + ['('] + Pending(e), out + Emitted(e)));
      PopToParenFlushes(ops, Pending(e), out + Emitted(e));
      FlushCompletes(e);
      assert out + Emitted(e) + Flushed(Pending(e)) == out + Postorder(e);
  }

  /** Every well-formed expression is translated to the postorder of its right-grouping tree. */
  lemma TranslateIsPostorder(e: Exp)
    requires WellFormed(e)
    ensures Translate(Show(e)) == Some(Postorder(e)) && Closable(Show(e), 0)
  {
    TranslateDefined(Show(e));
    SplitShow(e, "");
    assert Show(e) + "" == Show(e) && Tokens(e) + Split("") == Tokens(e);
    TokensNonEmpty(e);
    RunExp(e, [], [], []);
    assert Tokens(e) + [] == Tokens(e) && [] + Pending(e) == Pending(e) && [] + Emitted(e) == Emitted(e);
    PopAllFlushes(Stacks(Pending(e), Emitted(e)));
    FlushCompletes(e);
  }

  lemma TranslatesAll(exp: string)
    ensures forall e | WellFormed(e) && exp == Show(e) :: Translate(exp) == Some(Postorder(e))
  {
    forall e | WellFormed(e) && exp == Show(e) ensures Translate(exp) == Some(Postorder(e)) {
      TranslateIsPostorder(e);
    }
  }

  lemma TranslatesNothing()
    ensures Translate("") == Some([])
  {
  }

  lemma NoSteps(s: Stacks)
    ensures Steps([], s) == Some(s)
  {
  }

  // ---------------------------------------------------------------- values

  /** `stod` of a digit run. */
  function Value(digits: string): real {
    if digits == "" then 0.0
    else Value(digits[..|digits| - 1]) * 10.0 + (Last(digits) as int - '0' as int) as real
  }

  function Times(x: real, y: real): real {
    x * y
  }

  function Over(x: real, y: real): real
    requires y != 0.0
  {
    x / y
  }

  /** One binary operation; `None` for a zero divisor or an operand without a value. */
  function Apply(op: char, a: Option<real>, b: Option<real>): Option<real> {
    if a.None? || b.None? then None
    else match op
      case '+' => Some(a.value + b.value)
      case '-' => Some(a.value - b.value)
      case '*' => Some(Times(a.value, b.value))
      case _ => if b.value == 0.0 then None else Some(Over(a.value, b.value))
  }

  /** A digit run stands for the number that it writes in decimal. */
  lemma {:induction false} ValueIsNumber(digits: string)
    ensures Value(digits) == StringMultiply.Number(digits) as real
  {
    if digits != "" {
      var front, last := digits[..|digits| - 1], Last(digits) as int - '0' as int;
      ValueIsNumber(front);
      assert StringMultiply.DigitsOf(digits)[..|front|] == StringMultiply.DigitsOf(front);
      TenTimesReal(StringMultiply.Number(front), last);
    }
  }

  lemma TenTimesReal(x: int, d: int)
    ensures x as real * 10.0 + d as real == (10 * x + d) as real
  {
  }

  /** The first digit counts its power of ten. */
  lemma ValueFront(d: char, digits: string)
    ensures Value([d] + digits) == ((d as int - '0' as int) * StringMultiply.Pow10(|digits|)) as real + Value(digits)
  {
    hide Value;
    ValueIsNumber([d] + digits);
    ValueIsNumber(digits);
    assert StringMultiply.DigitsOf([d] + digits) == [d as int - '0' as int] + StringMultiply.DigitsOf(digits);
    StringMultiply.ValueFront(d as int - '0' as int, StringMultiply.DigitsOf(digits));
  }

  /** The operators are those of arithmetic, on operands that have a value. */
  lemma OperatorsMeanArithmetic(x: real, y: real)
    ensures Times(x, y) == x * y && (y != 0.0 ==> Over(x, y) == x / y)
    ensures Apply('+', Some(x), Some(y)) == Some(x + y) && Apply('-', Some(x), Some(y)) == Some(x - y)
    ensures Apply('*', Some(x), Some(y)) == Some(x * y)
    ensures Apply('/', Some(x), Some(y)) == if y == 0.0 then None else Some(x / y)
  {
  }

  /** The value with every run grouped to the right, as the translation groups it. */
  function RightValue(e: Exp): Option<real> {
    match e
    case Single(t) => RightTermValue(t)
    case Add(t, op, rest) => Apply(op, RightTermValue(t), RightValue(rest))
  }

  function RightTermValue(t: Term): Option<real> {
    match t
    case Factor(f) => RightAtomValue(f)
    case Mul(f, op, rest) => Apply(op, RightAtomValue(f), RightTermValue(rest))
  }

  function RightAtomValue(f: Atom): Option<real> {
    match f
    case Number(digits) => Some(Value(digits))
    case Paren(e) => RightValue(e)
  }

  /** The usual value: runs are evaluated from left to right. */
  function UsualValue(e: Exp): Option<real>
    decreases e, 1
  {
    match e
    case Single(t) => UsualTermValue(t)
    case Add(t, op, rest) => UsualFrom(UsualTermValue(t), op, rest)
  }

  function UsualFrom(acc: Option<real>, op: AddOp, e: Exp): Option<real>
    decreases e, 0
  {
    match e
    case Single(t) => Apply(op, acc, UsualTermValue(t))
    case Add(t, op', rest) => UsualFrom(Apply(op, acc, UsualTermValue(t)), op', rest)
  }

  function UsualTermValue(t: Term): Option<real>
    decreases t, 1
  {
    match t
    case Factor(f) => UsualAtomValue(f)
    case Mul(f, op, rest) => UsualTermFrom(UsualAtomValue(f), op, rest)
  }

  function UsualTermFrom(acc: Option<real>, op: MulOp, t: Term): Option<real>
    decreases t, 0
  {
    match t
    case Factor(f) => Apply(op, acc, UsualAtomValue(f))
    case Mul(f, op', rest) => UsualTermFrom(Apply(op, acc, UsualAtomValue(f)), op', rest)
  }

  function UsualAtomValue(f: Atom): Option<real> {
    match f
    case Number(digits) => Some(Value(digits))
    case Paren(e) => UsualValue(e)
  }

  // ---------------------------------------------------------------- the stack machine

  /** `Underflow`: an operator found fewer than two operands. `ZeroDivisor`: a division by zero. */
  datatype Outcome = Underflow | ZeroDivisor | Done(stk: seq<real>)

  function Exec(elems: seq<string>, stk: seq<real>): Outcome {
    if elems == [] then Done(stk)
    else if IsNumber(elems[0], 0) then Exec(elems[1..], stk + [Value(elems[0])])
    else if |stk| < 2 then Underflow
    else
      var rest, a, b := stk[..|stk| - 2], Some(stk[|stk| - 2]), Some(Last(stk));
      var op := if elems[0] == "" then ' ' else elems[0][0];
      if op !in {'+', '-', '*', '/'} then Exec(elems[1..], rest)
      else match Apply(op, a, b)
        case None => ZeroDivisor
        case Some(v) => Exec(elems[1..], rest + [v])
  }

  lemma ExecNumber(digits: string, more: seq<string>, stk: seq<real>)
    requires IsNumeral(digits)
    ensures Exec([digits] + more, stk) == Exec(more, stk + [Value(digits)])
  {
    assert ([digits] + more)[1..] == more;
  }

  lemma ExecOperator(op: char, more: seq<string>, stk: seq<real>, a: real, b: real)
    requires op in {'+', '-', '*', '/'}
    ensures Exec([[op]] + more, stk + [a] + [b]) ==
            match Apply(op, Some(a), Some(b)) case None => ZeroDivisor case Some(v) => Exec(more, stk + [v])
  {
    var s := stk + [a] + [b];
    assert s[..|s| - 2] == stk && ([[op]] + more)[1..] == more;
  }

  /** The postorder never underflows: it pushes the tree's value, or stops at a zero divisor of the tree. */
  lemma {:induction false} ExecPostorder(e: Exp, more: seq<string>, stk: seq<real>)
    requires WellFormed(e)
    ensures Exec(Postorder(e) + more, stk) ==
            match RightValue(e) case None => ZeroDivisor case Some(v) => Exec(more, stk + [v])
  {
    match e
    case Single(t) => ExecTerm(t, more, stk);
    case Add(t, op, rest) =>
      var tail := [[op]] + more;
      assert Postorder(e) + more == TermPostorder(t) + (Postorder(rest) + tail);
      ExecTerm(t, Postorder(rest) + tail, stk);
      if a :| RightTermValue(t) == Some(a) {
        ExecPostorder(rest, tail, stk + [a]);
        if b :| RightValue(rest) == Some(b) {
          ExecOperator(op, more, stk, a, b);
        }
      }
  }

  lemma {:induction false} ExecTerm(t: Term, more: seq<string>, stk: seq<real>)
    requires WellFormedTerm(t)
    ensures Exec(TermPostorder(t) + more, stk) ==
            match RightTermValue(t) case None => ZeroDivisor case Some(v) => Exec(more, stk + [v])
  {
    match t
    case Factor(f) => ExecAtom(f, more, stk);
    case Mul(f, op, rest) =>
      var tail := [[op]] + more;
      assert TermPostorder(t) + more == AtomPostorder(f) + (TermPostorder(rest) + tail);
      ExecAtom(f, TermPostorder(rest) + tail, stk);
      if a :| RightAtomValue(f) == Some(a) {
        ExecTerm(rest, tail, stk + [a]);
        if b :| RightTermValue(rest) == Some(b) {
          ExecOperator(op, more, stk, a, b);
        }
      }
  }

  lemma {:induction false} ExecAtom(f: Atom, more: seq<string>, stk: seq<real>)
    requires WellFormedAtom(f)
    ensures Exec(AtomPostorder(f) + more, stk) ==
            match RightAtomValue(f) case None => ZeroDivisor case Some(v) => Exec(more, stk + [v])
  {
    match f
    case Number(digits) => ExecNumber(digits, more, stk);
    case Paren(e) => ExecPostorder(e, more, stk);
  }

  /** From the typed expression to the number: translating and running gives the right-grouping value. */
  lemma TranslateThenRun(e: Exp)
    requires WellFormed(e)
    ensures Translate(Show(e)).Some?
    ensures Exec(Translate(Show(e)).value, []) ==
            match RightValue(e) case None => ZeroDivisor case Some(v) => Done([v])
  {
    TranslateIsPostorder(e);
    ExecPostorder(e, [], []);
    assert Postorder(e) + [] == Postorder(e);
  }

  // ---------------------------------------------------------------- when grouping to the right is harmless

  /** In every run only the last operator may be `-` or `/`. */
  predicate Harmless(e: Exp) {
    match e
    case Single(t) => HarmlessTerm(t)
    case Add(t, op, rest) => HarmlessTerm(t) && Harmless(rest) && (op == '-' ==> rest.Single?)
  }

  predicate HarmlessTerm(t: Term) {
    match t
    case Factor(f) => HarmlessAtom(f)
    case Mul(f, op, rest) => HarmlessAtom(f) && HarmlessTerm(rest) && (op == '/' ==> rest.Factor?)
  }

  predicate HarmlessAtom(f: Atom) {
    match f
    case Number(_) => true
    case Paren(e) => Harmless(e)
  }

  /** Equal up to the numbers in them. */
  predicate SameShape(e: Exp, w: Exp) {
    match (e, w)
    case (Single(t), Single(u)) => SameShapeTerm(t, u)
    case (Add(t, op, rest), Add(u, op', rest')) => SameShapeTerm(t, u) && op == op' && SameShape(rest, rest')
    case _ => false
  }

  predicate SameShapeTerm(t: Term, u: Term) {
    match (t, u)
    case (Factor(f), Factor(g)) => SameShapeAtom(f, g)
    case (Mul(f, op, rest), Mul(g, op', rest')) => SameShapeAtom(f, g) && op == op' && SameShapeTerm(rest, rest')
    case _ => false
  }

  predicate SameShapeAtom(f: Atom, g: Atom) {
    match (f, g)
    case (Number(_), Number(digits)) => IsNumeral(digits)
    case (Paren(e), Paren(w)) => SameShape(e, w)
    case _ => false
  }

  lemma Regroup(acc: Option<real>, op: char, a: Option<real>, b: Option<real>)
    requires op in {'+', '-'}
    ensures Apply(op, Apply('+', acc, a), b) == Apply('+', acc, Apply(op, a, b))
  {
  }

  lemma RegroupMul(acc: Option<real>, op: char, a: Option<real>, b: Option<real>)
    requires op in {'*', '/'}
    ensures Apply(op, Apply('*', acc, a), b) == Apply('*', acc, Apply(op, a, b))
  {
    if acc.Some? && a.Some? && b.Some? {
      if op == '*' {
        MulAssociates(acc.value, a.value, b.value);
      } else if b.value != 0.0 {
        DivAfterMul(acc.value, a.value, b.value);
      }
    }
  }

  lemma MulAssociates(x: real, y: real, z: real)
    ensures Times(Times(x, y), z) == Times(x, Times(y, z))
  {
  }

  lemma InversesDiffer(a: real, b: real)
    requires a != b && a != 0.0 && b != 0.0
    ensures 1.0 / a != 1.0 / b && 1.0 / a != 0.0 && 1.0 / b != 0.0
  {
    assert 1.0 / a * a == 1.0 && 1.0 / b * b == 1.0;
  }

  lemma DivAfterMul(x: real, y: real, z: real)
    requires z != 0.0
    ensures Times(x, y) / z == Times(x, y / z)
  {
    assert x * (y / z) * z == x * y;
  }

  lemma {:induction false} HarmlessEqual(e: Exp)
    requires Harmless(e)
    ensures UsualValue(e) == RightValue(e)
    decreases e, 1
  {
    match e
    case Single(t) => HarmlessTermEqual(t);
    case Add(t, op, rest) =>
      HarmlessTermEqual(t);
      HarmlessFrom(RightTermValue(t), op, rest);
  }

  lemma {:induction false} HarmlessFrom(acc: Option<real>, op: AddOp, e: Exp)
    requires Harmless(e) && (op == '-' ==> e.Single?)
    ensures UsualFrom(acc, op, e) == Apply(op, acc, RightValue(e))
    decreases e, 0
  {
    match e
    case Single(t) => HarmlessTermEqual(t);
    case Add(t, op', rest) =>
      HarmlessTermEqual(t);
      HarmlessFrom(Apply(op, acc, RightTermValue(t)), op', rest);
      Regroup(acc, op', RightTermValue(t), RightValue(rest));
  }

  lemma {:induction false} HarmlessTermEqual(t: Term)
    requires HarmlessTerm(t)
    ensures UsualTermValue(t) == RightTermValue(t)
    decreases t, 1
  {
    match t
    case Factor(f) => HarmlessAtomEqual(f);
    case Mul(f, op, rest) =>
      HarmlessAtomEqual(f);
      HarmlessTermFrom(RightAtomValue(f), op, rest);
  }

  lemma {:induction false} HarmlessTermFrom(acc: Option<real>, op: MulOp, t: Term)
    requires HarmlessTerm(t) && (op == '/' ==> t.Factor?)
    ensures UsualTermFrom(acc, op, t) == Apply(op, acc, RightTermValue(t))
    decreases t, 0
  {
    match t
    case Factor(f) => HarmlessAtomEqual(f);
    case Mul(f, op', rest) =>
      HarmlessAtomEqual(f);
      HarmlessTermFrom(Apply(op, acc, RightAtomValue(f)), op', rest);
      RegroupMul(acc, op', RightAtomValue(f), RightTermValue(rest));
  }

  lemma {:induction false} HarmlessAtomEqual(f: Atom)
    requires HarmlessAtom(f)
    ensures UsualAtomValue(f) == RightAtomValue(f)
  {
    match f
    case Number(_) =>
    case Paren(e) => HarmlessEqual(e);
  }

  lemma {:induction false} ShapeDecides(e: Exp, w: Exp)
    requires SameShape(e, w)
    ensures Harmless(e) == Harmless(w)
  {
    match (e, w)
    case (Single(t), Single(u)) => ShapeDecidesTerm(t, u);
    case (Add(t, _, rest), Add(u, _, rest')) => ShapeDecidesTerm(t, u); ShapeDecides(rest, rest');
  }

  lemma {:induction false} ShapeDecidesTerm(t: Term, u: Term)
    requires SameShapeTerm(t, u)
    ensures HarmlessTerm(t) == HarmlessTerm(u)
  {
    match (t, u)
    case (Factor(f), Factor(g)) => ShapeDecidesAtom(f, g);
    case (Mul(f, _, rest), Mul(g, _, rest')) => ShapeDecidesAtom(f, g); ShapeDecidesTerm(rest, rest');
  }

  lemma {:induction false} ShapeDecidesAtom(f: Atom, g: Atom)
    requires SameShapeAtom(f, g)
    ensures HarmlessAtom(f) == HarmlessAtom(g)
  {
    match (f, g)
    case (Number(_), Number(_)) =>
    case (Paren(e), Paren(w)) => ShapeDecides(e, w);
  }

  // Numbers can be put into any shape so that both groupings give 0, 1 or 2 ...

  function Filled(e: Exp, c: char): Exp {
    match e
    case Single(t) => Single(FilledTerm(t, c))
    case Add(t, op, rest) => Add(FilledTerm(t, c), op, Filled(rest, '0'))
  }

  function FilledTerm(t: Term, c: char): Term {
    match t
    case Factor(f) => Factor(FilledAtom(f, c))
    case Mul(f, op, rest) => Mul(FilledAtom(f, c), op, FilledTerm(rest, '1'))
  }

  function FilledAtom(f: Atom, c: char): Atom {
    match f
    case Number(_) => Number([c])
    case Paren(e) => Paren(Filled(e, c))
  }

  predicate Small(c: char) {
    '0' <= c <= '2'
  }

  function Num(c: char): real
    requires Small(c)
  {
    if c == '0' then 0.0 else if c == '1' then 1.0 else 2.0
  }

  lemma {:induction false} FilledValue(e: Exp, c: char)
    requires Small(c)
    ensures SameShape(e, Filled(e, c))
    ensures RightValue(Filled(e, c)) == UsualValue(Filled(e, c)) == Some(Num(c))
    decreases e, 1
  {
    match e
    case Single(t) => FilledTermValue(t, c);
    case Add(t, op, rest) =>
      FilledTermValue(t, c);
      FilledValue(rest, '0');
      FilledFrom(Num(c), op, rest, '0');
  }

  /** Continuing a run with a filled rest applies just the first operator to the rest's value. */
  lemma {:induction false} FilledFrom(acc: real, op: AddOp, e: Exp, c: char)
    requires Small(c)
    ensures UsualFrom(Some(acc), op, Filled(e, c)) == Apply(op, Some(acc), Some(Num(c)))
    decreases e, 0
  {
    match e
    case Single(t) => FilledTermValue(t, c);
    case Add(t, op', rest) =>
      FilledTermValue(t, c);
      FilledFrom(Apply(op, Some(acc), Some(Num(c))).value, op', rest, '0');
  }

  lemma {:induction false} FilledTermValue(t: Term, c: char)
    requires Small(c)
    ensures SameShapeTerm(t, FilledTerm(t, c))
    ensures RightTermValue(FilledTerm(t, c)) == UsualTermValue(FilledTerm(t, c)) == Some(Num(c))
    decreases t, 1
  {
    match t
    case Factor(f) => FilledAtomValue(f, c);
    case Mul(f, op, rest) =>
      FilledAtomValue(f, c);
      FilledTermValue(rest, '1');
      FilledTermFrom(Num(c), op, rest, '1');
  }

  lemma {:induction false} FilledTermFrom(acc: real, op: MulOp, t: Term, c: char)
    requires Small(c) && c != '0'
    ensures UsualTermFrom(Some(acc), op, FilledTerm(t, c)) == Apply(op, Some(acc), Some(Num(c)))
    decreases t, 0
  {
    match t
    case Factor(f) => FilledAtomValue(f, c);
    case Mul(f, op', rest) =>
      FilledAtomValue(f, c);
      FilledTermFrom(Apply(op, Some(acc), Some(Num(c))).value, op', rest, '1');
  }

  lemma {:induction false} FilledAtomValue(f: Atom, c: char)
    requires Small(c)
    ensures SameShapeAtom(f, FilledAtom(f, c))
    ensures RightAtomValue(FilledAtom(f, c)) == UsualAtomValue(FilledAtom(f, c)) == Some(Num(c))
  {
    match f
    case Number(_) =>
      assert Value([c]) == Num(c) by { assert [c][..0] == ""; }
    case Paren(e) => FilledValue(e, c);
  }

  // ... and, unless the shape is harmless, so that they differ.

  ghost predicate Differ(usual: Option<real>, right: Option<real>) {
    usual.Some? && right.Some? && usual != right && usual.value != 0.0 && right.value != 0.0
  }

  lemma {:induction false} HarmfulDiffers(e: Exp) returns (w: Exp)
    requires !Harmless(e)
    ensures SameShape(e, w) && Differ(UsualValue(w), RightValue(w))
  {
    match e
    case Single(t) =>
      var u := HarmfulTermDiffers(t);
      w := Single(u);
    case Add(t, op, rest) =>
      FilledTermValue(t, '0');
      FilledValue(rest, '0');
      if !HarmlessTerm(t) {
        var u := HarmfulTermDiffers(t);
        w := Add(u, op, Filled(rest, '0'));
        FilledFrom(UsualTermValue(u).value, op, rest, '0');
      } else if !Harmless(rest) && op == '+' {
        var r := HarmfulDiffers(rest);
        w := Add(FilledTerm(t, '0'), op, r);
        FromZero(r);
      } else if rest.Single? {
        var r := HarmfulDiffers(rest);
        w := Add(FilledTerm(t, '0'), op, r);
      } else {
        var r := Add(FilledTerm(rest.t, '0'), rest.op, Filled(rest.rest, '1'));
        w := Add(FilledTerm(t, '0'), op, r);
        FilledTermValue(rest.t, '0');
        FilledValue(rest.rest, '1');
        FilledFrom(0.0, rest.op, rest.rest, '1');
      }
  }

  lemma FromZero(e: Exp)
    ensures UsualFrom(Some(0.0), '+', e) == UsualValue(e)
  {
    match e
    case Single(_) =>
    case Add(t, _, _) =>
      assert Apply('+', Some(0.0), UsualTermValue(t)) == UsualTermValue(t);
  }

  lemma {:induction false} HarmfulTermDiffers(t: Term) returns (u: Term)
    requires !HarmlessTerm(t)
    ensures SameShapeTerm(t, u) && Differ(UsualTermValue(u), RightTermValue(u))
  {
    match t
    case Factor(f) =>
      var g := HarmfulAtomDiffers(f);
      u := Factor(g);
    case Mul(f, op, rest) =>
      FilledAtomValue(f, '1');
      FilledTermValue(rest, '1');
      if !HarmlessAtom(f) {
        var g := HarmfulAtomDiffers(f);
        u := Mul(g, op, FilledTerm(rest, '1'));
        FilledTermFrom(UsualAtomValue(g).value, op, rest, '1');
      } else if !HarmlessTerm(rest) && op == '*' {
        var r := HarmfulTermDiffers(rest);
        u := Mul(FilledAtom(f, '1'), op, r);
        FromOne(r);
      } else if rest.Factor? {
        var r := HarmfulTermDiffers(rest);
        u := Mul(FilledAtom(f, '1'), op, r);
        InversesDiffer(UsualTermValue(r).value, RightTermValue(r).value);
      } else {
        var r := Mul(FilledAtom(rest.f, '1'), rest.op, FilledTerm(rest.rest, '2'));
        u := Mul(FilledAtom(f, '1'), op, r);
        FilledAtomValue(rest.f, '1');
        FilledTermValue(rest.rest, '2');
        FilledTermFrom(1.0, rest.op, rest.rest, '2');
      }
  }

  lemma FromOne(t: Term)
    ensures UsualTermFrom(Some(1.0), '*', t) == UsualTermValue(t)
  {
    match t
    case Factor(_) =>
    case Mul(f, _, _) =>
      assert Apply('*', Some(1.0), UsualAtomValue(f)) == UsualAtomValue(f);
  }

  lemma {:induction false} HarmfulAtomDiffers(f: Atom) returns (g: Atom)
    requires !HarmlessAtom(f)
    ensures SameShapeAtom(f, g) && Differ(UsualAtomValue(g), RightAtomValue(g))
  {
    var w := HarmfulDiffers(f.e);
    g := Paren(w);
  }

  /** The translated expression has the usual value, whatever its numbers are, exactly when in every run only the
      last operator is `-` or `/`. */
  lemma UsualExactlyWhenHarmless(e: Exp)
    requires WellFormed(e)
    ensures Harmless(e) <==> forall w | SameShape(e, w) :: UsualValue(w) == RightValue(w)
  {
    if Harmless(e) {
      forall w | SameShape(e, w) ensures UsualValue(w) == RightValue(w) {
        ShapeDecides(e, w);
        HarmlessEqual(w);
      }
    } else {
      var w := HarmfulDiffers(e);
      assert exists v :: SameShape(e, v) && UsualValue(v) != RightValue(v);
    }
  }

  /** 1-1+1 is evaluated to -1. */
  lemma RightGroupingExample()
    ensures var one := Factor(Number("1"));
            var e := Add(one, '-', Add(one, '+', Single(one)));
            WellFormed(e) && Show(e) == "1-1+1" && UsualValue(e) == Some(1.0) && RightValue(e) == Some(-1.0)
  {
    assert Value("1") == 1.0 by { assert "1"[..0] == ""; }
  }

  /** The value of a numeral of one or two digits. */
  lemma SmallNumeral(a: char, b: char)
    ensures Value([a]) == (a as int - '0' as int) as real
    ensures Value([a, b]) == (10 * (a as int - '0' as int) + (b as int - '0' as int)) as real
  {
    assert [a][..0] == "" && [a, b][..1] == [a];
    TenTimesReal(a as int - '0' as int, b as int - '0' as int);
  }

  function Numeral(digits: string): Term {
    Factor(Number(digits))
  }

  /** (1+2)/10 */
  function ProgramFirst(): Term {
    Mul(Paren(Add(Numeral("1"), '+', Single(Numeral("2")))), '/', Numeral("10"))
  }

  /** 6/3 */
  function ProgramSecond(): Term {
    Mul(Number("6"), '/', Numeral("3"))
  }

  /** 7+8 */
  function ProgramRest(): Exp {
    Add(Numeral("7"), '+', Single(Numeral("8")))
  }

  lemma ProgramNumerals()
    ensures Value("1") == 1.0 && Value("2") == 2.0 && Value("10") == 10.0 && Value("6") == 6.0 && Value("3") == 3.0
    ensures Value("7") == 7.0 && Value("8") == 8.0
  {
    hide Value;
    SmallNumeral('1', '0');
    SmallNumeral('2', '0');
    SmallNumeral('3', '0');
    SmallNumeral('6', '0');
    SmallNumeral('7', '0');
    SmallNumeral('8', '0');
  }

  lemma ProgramFirstFacts()
    ensures ShowTerm(ProgramFirst()) == "(1+2)/10" && RightTermValue(ProgramFirst()) == Some(0.3)
    ensures WellFormedTerm(ProgramFirst()) && HarmlessTerm(ProgramFirst())
  {
    hide Value;
    ProgramNumerals();
  }

  lemma ProgramSecondFacts()
    ensures ShowTerm(ProgramSecond()) == "6/3" && RightTermValue(ProgramSecond()) == Some(2.0)
    ensures WellFormedTerm(ProgramSecond()) && HarmlessTerm(ProgramSecond())
  {
    hide Value;
    ProgramNumerals();
  }

  lemma ProgramRestFacts()
    ensures Show(ProgramRest()) == "7+8" && RightValue(ProgramRest()) == Some(15.0)
    ensures WellFormed(ProgramRest()) && Harmless(ProgramRest())
  {
    hide Value;
    ProgramNumerals();
  }

  /** The expression that the program checks itself with. */
  lemma ProgramExample()
    ensures var e := Add(ProgramFirst(), '+', Add(ProgramSecond(), '+', ProgramRest()));
            WellFormed(e) && Show(e) == "(1+2)/10+6/3+7+8" && RightValue(e) == Some(17.3) && UsualValue(e) == Some(17.3)
  {
    hide Value, ProgramFirst, ProgramSecond, ProgramRest, UsualValue, ShowTerm, RightTermValue, WellFormedTerm, HarmlessTerm;
    ProgramFirstFacts();
    ProgramSecondFacts();
    ProgramRestFacts();
    HarmlessEqual(Add(ProgramFirst(), '+', Add(ProgramSecond(), '+', ProgramRest())));
  }

  // ---------------------------------------------------------------- the class

  class ReversePolishExpression {
    var expStk: seq<string>

    constructor ()
      ensures expStk == []
    {
      expStk := [];
    }

    /** The inner loop of `_split_exp`: the maximal digit run at `from`. */
    static method ReadNumber(exp: string, from: nat) returns (str: string, i: nat)
      requires from <= |exp|
      ensures from <= i <= |exp| && str == exp[from..i] && i - from == DigitRun(exp[from..])
    {
      str, i := "", from;
      while IsNumber(exp, i)
        invariant from <= i <= |exp| && str == exp[from..i] && DigitRun(exp[from..]) == i - from + DigitRun(exp[i..])
        decreases |exp| - i
      {
        assert exp[i..][1..] == exp[i + 1..];
        str := str + [exp[i]];
        i := i + 1;
      }
    }

    /** `_split_exp`. */
    static method SplitExp(exp: string) returns (res: seq<string>)
      ensures res == Split(exp)
    {
      hide DigitRun, Split;
      res := [];
      SplitNothing();
      var i := 0;
      assert exp[0..] == exp;
      while i < |exp|
        invariant 0 <= i <= |exp| && res + Split(exp[i..]) == Split(exp)
      {
        var str := "";
        ghost var rest := exp[i..];
        if IsNumber(exp, i) {
          ghost var from := i;
          str, i := ReadNumber(exp, i);
          assert rest[..i - from] == str && rest[i - from..] == exp[i..];
          SplitRun(rest, i - from);
        } else {
          str := str + [exp[i]];
          i := i + 1;
          assert rest == [str[0]] + exp[i..] && str == [str[0]];
          SplitSymbol(str[0], exp[i..]);
        }
        assert Split(rest) == [str] + Split(exp[i..]);
        assert res + Split(rest) == res + [str] + Split(exp[i..]);
        res := res + [str];
      }
      assert exp[i..] == "";
    }

    /** Every closing parenthesis must have an open one before it; a well-formed expression is translated to
        the postorder of its right-grouping tree. */
    method SetExp(exp: string)
      requires Closable(exp, 0)
      modifies this
      ensures Translate(exp) == Some(expStk)
      ensures exp == "" ==> expStk == []
      ensures forall e | WellFormed(e) && exp == Show(e) :: expStk == Postorder(e)
    {
      hide WellFormed, Show, Postorder, Split, Closable, Steps;
      TranslateDefined(exp);
      TranslatesAll(exp);
      TranslatesNothing();
      expStk := [];
      if exp == "" {
        return;
      }
      var elems := SplitExp(exp);
      SplitNonEmpty(exp);
      var ops: seq<char> := [];
      for n := 0 to |elems|
        invariant NonEmpty(elems) && Steps(elems[n..], Stacks(ops, expStk)) == Steps(elems, Stacks([], []))
      {
        var elem := elems[n];
        assert elems[n..] == [elem] + elems[n + 1..];
        FirstStep(elem, elems[n + 1..], Stacks(ops, expStk));
        ghost var before := Stacks(ops, expStk);
        if IsNumber(elem, 0) {
          expStk := expStk + [elem];
        } else {
          var op := elem[0];
          match op {
            case '(' => ops := ops + [op];
            case ')' =>
              while Last(ops) != '('
                invariant PopToParen(Stacks(ops, expStk)) == PopToParen(before) && ops != []
                decreases |ops|
              {
                expStk, ops := expStk + [[Last(ops)]], ops[..|ops| - 1];
              }
              ops := ops[..|ops| - 1];
            case '+' => ops := PushAdd(op, ops);
            case '-' => ops := PushAdd(op, ops);
            case '*' => ops := ops + [op];
            case '/' => ops := ops + [op];
            case _ =>
          }
        }
        assert Step(elem, before) == Some(Stacks(ops, expStk));
      }
      assert elems[|elems|..] == [];
      NoSteps(Stacks(ops, expStk));
      while ops != []
        invariant PopAll(Stacks(ops, expStk)) == Translate(exp).value
        decreases |ops|
      {
        expStk, ops := expStk + [[Last(ops)]], ops[..|ops| - 1];
      }
    }

    /** The case of `+` and `-`: multiplications and divisions on top of the stack are emitted first. */
    method PushAdd(op: char, ops: seq<char>) returns (ops': seq<char>)
      modifies this
      ensures var p := PopMuls(Stacks(ops, old(expStk))); ops' == p.ops + [op] && expStk == p.out
    {
      ops' := ops;
      if ops' == [] || Last(ops') == '(' || Last(ops') == '+' || Last(ops') == '-' {
        ops' := ops' + [op];
      } else {
        while ops' != [] && (Last(ops') == '*' || Last(ops') == '/')
          invariant PopMuls(Stacks(ops', expStk)) == PopMuls(Stacks(ops, old(expStk)))
          decreases |ops'|
        {
          expStk, ops' := expStk + [[Last(ops')]], ops'[..|ops'| - 1];
        }
        ops' := ops' + [op];
      }
    }

    /** Needs operands for every operator, non-zero divisors and something to return; a translated expression has
        the first and the last, and gives the value of its tree. */
    method Calculate() returns (r: real)
      requires Exec(expStk, []).Done? && Exec(expStk, []).stk != []
      ensures r == Last(Exec(expStk, []).stk)
      ensures forall e | WellFormed(e) && expStk == Postorder(e) :: RightValue(e) == Some(r)
    {
      hide Exec, Apply, Times, Over, RightValue, WellFormed, Postorder, Value;
      ResultIsTreeValue(expStk);
      var resStk: seq<real> := [];
      assert expStk[0..] == expStk;
      for n := 0 to |expStk|
        invariant Exec(expStk[n..], resStk) == Exec(expStk, [])
      {
        var elem := expStk[n];
        assert expStk[n..] == [elem] + expStk[n + 1..];
        ExecOne(elem, expStk[n + 1..], resStk);
        if IsNumber(elem, 0) {
          resStk := resStk + [Value(elem)];
        } else {
          var operand0 := Last(resStk);
          var rest := resStk[..|resStk| - 1];
          var operand1 := Last(rest);
          rest := rest[..|rest| - 1];
          assert rest == resStk[..|resStk| - 2];
          var op := if elem == "" then ' ' else elem[0];
          match op {
            case '+' => rest := rest + [operand1 + operand0];
            case '-' => rest := rest + [operand1 - operand0];
            case '*' => rest := rest + [Times(operand1, operand0)];
            case '/' => rest := rest + [Over(operand1, operand0)];
            case _ =>
          }
          resStk := rest;
        }
      }
      assert expStk[|expStk|..] == [];
      ExecNothing(resStk);
      r := Last(resStk);
    }
  }

  lemma ExecNothing(stk: seq<real>)
    ensures Exec([], stk) == Done(stk)
  {
  }

  /** One round of `calculate`, when it neither underflows nor divides by zero. */
  lemma ExecOne(elem: string, more: seq<string>, stk: seq<real>)
    requires Exec([elem] + more, stk).Done?
    ensures IsNumber(elem, 0) ==> Exec([elem] + more, stk) == Exec(more, stk + [Value(elem)])
    ensures !IsNumber(elem, 0) ==>
              && |stk| >= 2
              && var rest, a, b, op := stk[..|stk| - 2], stk[|stk| - 2], Last(stk), if elem == "" then ' ' else elem[0];
                && (op == '/' ==> b != 0.0)
                && Exec([elem] + more, stk) == Exec(more, match op
                                                          case '+' => rest + [a + b]
                                                          case '-' => rest + [a - b]
                                                          case '*' => rest + [Times(a, b)]
                                                          case '/' => rest + [Over(a, b)]
                                                          case _ => rest)
  {
    hide Times, Over, Value;
    assert ([elem] + more)[1..] == more;
  }

  lemma ResultIsTreeValue(elems: seq<string>)
    requires Exec(elems, []).Done? && Exec(elems, []).stk != []
    ensures forall e | WellFormed(e) && elems == Postorder(e) :: RightValue(e) == Some(Last(Exec(elems, []).stk))
  {
    hide Times, Over, Value, RightValue, Apply;
    forall e | WellFormed(e) && elems == Postorder(e)
      ensures RightValue(e) == Some(Last(Exec(elems, []).stk))
    {
      ExecPostorder(e, [], []);
      assert Postorder(e) + [] == Postorder(e);
      if v :| RightValue(e) == Some(v) {
        ExecNothing([] + [v]);
      }
    }
  }
}

/** Schoolbook multiplication of decimal strings (StringMultiplication/main.cpp). */
module StringMultiply {

  // ---------------------------------------------------------------- decimal values

  function Pow10(n: nat): nat {
    if n == 0 then 1 else 10 * Pow10(n - 1)
  }

  /** The number written by a sequence of digits, the most significant first. */
  function Value(ds: seq<int>): int {
    if ds == [] then 0 else 10 * Value(ds[..|ds| - 1]) + ds[|ds| - 1]
  }

  predicate AreDigits(ds: seq<int>) {
    forall i | 0 <= i < |ds| :: 0 <= ds[i] <= 9
  }

  predicate IsDecimal(s: string) {
    forall i | 0 <= i < |s| :: '0' <= s[i] <= '9'
  }

  function DigitsOf(s: string): (ds: seq<int>)
    ensures |ds| == |s| && forall i | 0 <= i < |s| :: ds[i] == s[i] as int - '0' as int
  {
    seq(|s|, i requires 0 <= i < |s| => s[i] as int - '0' as int)
  }

  function Number(s: string): int {
    Value(DigitsOf(s))
  }

  /** A numeral is read digit by digit, each further digit after a factor of ten. */
  lemma NumberByDigits(s: string, c: char)
    ensures Number("") == 0 && Number(s + [c]) == 10 * Number(s) + (c as int - '0' as int)
  {
    assert DigitsOf(s + [c])[..|s|] == DigitsOf(s);
  }

  lemma DecimalExample()
    ensures Number("144") == 144 && Product("12", "12") == 144
  {
    assert "1" == "" + ['1'] && "12" == "1" + ['2'] && "14" == "1" + ['4'] && "144" == "14" + ['4'];
    NumberByDigits("", '1');
    NumberByDigits("1", '2');
    NumberByDigits("1", '4');
    NumberByDigits("14", '4');
  }

  /** A numeral without a superfluous leading zero. */
  predicate Canonical(s: string) {
    s != "" && IsDecimal(s) && (s[0] == '0' ==> |s| == 1)
  }

  /** The inputs that the source multiplies; for any others it answers "0" at once. */
  predicate Leading(s: string) {
    s != "" && s[0] != '0'
  }

  lemma TenTimes(x: int, y: int)
    ensures 10 * (x * y) == 10 * x * y
  {
  }

  lemma {:induction false} PowAdd(m: nat, n: nat)
    ensures Pow10(m + n) == Pow10(m) * Pow10(n)
  {
    if m > 0 {
      PowAdd(m - 1, n);
      TenTimes(Pow10(m - 1), Pow10(n));
    }
  }

  lemma PowNext(n: nat)
    ensures Pow10(n + 1) == 10 * Pow10(n)
  {
  }

  lemma {:induction false} PowPositive(n: nat)
    ensures Pow10(n) > 0
  {
    if n > 0 {
      PowPositive(n - 1);
    }
  }

  lemma {:induction false} ValueFront(d: int, ds: seq<int>)
    ensures Value([d] + ds) == d * Pow10(|ds|) + Value(ds)
  {
    var all := [d] + ds;
    if ds == [] {
      assert all[..0] == [];
    } else {
      var n := |ds| - 1;
      ValueFront(d, ds[..n]);
      assert all[..|all| - 1] == [d] + ds[..n];
      assert 10 * (d * Pow10(n)) == d * (10 * Pow10(n));
    }
  }

  lemma {:induction false} ValueBounds(ds: seq<int>)
    requires AreDigits(ds)
    ensures 0 <= Value(ds) < Pow10(|ds|)
  {
    if ds != [] {
      ValueBounds(ds[..|ds| - 1]);
    }
  }

  /** Without a leading zero the length is determined by the value. */
  lemma LeadingBounds(ds: seq<int>)
    requires AreDigits(ds) && ds != [] && ds[0] != 0
    ensures Pow10(|ds| - 1) <= Value(ds)
  {
    hide Value, Pow10;
    assert ds == [ds[0]] + ds[1..];
    ValueFront(ds[0], ds[1..]);
    ValueBounds(ds[1..]);
    PowPositive(|ds| - 1);
    AtLeastOnce(ds[0], Pow10(|ds| - 1));
  }

  lemma AtLeastOnce(d: int, p: int)
    requires d >= 1 && p >= 0
    ensures d * p >= p
  {
    assert (d - 1) * p >= 0;
  }

  /** A leading zero adds nothing, and a second one leaves less than the remaining cells can hold. */
  lemma LeadingZeros(p: seq<int>)
    requires AreDigits(p) && |p| >= 2 && p[0] == 0
    ensures Value(p[1..]) == Value(p) && (p[1] == 0 ==> Value(p) < Pow10(|p| - 2))
  {
    hide Value, Pow10;
    assert p == [0] + p[1..];
    ValueFront(0, p[1..]);
    assert p[1..] == [p[1]] + p[2..];
    ValueFront(p[1], p[2..]);
    ValueBounds(p[2..]);
  }

  lemma {:induction false} SameLengthSameDigits(a: seq<int>, b: seq<int>)
    requires AreDigits(a) && AreDigits(b) && |a| == |b| && Value(a) == Value(b)
    ensures a == b
  {
    if a != [] {
      var n := |a| - 1;
      SameLengthSameDigits(a[..n], b[..n]);
      assert a == a[..n] + [a[n]] && b == b[..n] + [b[n]];
    }
  }

  lemma {:induction false} PowGrows(m: nat, n: nat)
    requires m <= n
    ensures Pow10(m) <= Pow10(n)
  {
    if m < n {
      PowGrows(m, n - 1);
    }
  }

  /** A number has one canonical numeral, so the product is determined as a string. */
  lemma CanonicalUnique(s: string, t: string)
    requires Canonical(s) && Canonical(t) && Number(s) == Number(t)
    ensures s == t
  {
    var a, b := DigitsOf(s), DigitsOf(t);
    SameLength(a, b);
    SameLength(b, a);
    SameLengthSameDigits(a, b);
    forall i | 0 <= i < |s| ensures s[i] == t[i] {
      assert a[i] == b[i];
    }
  }

  lemma SameLength(a: seq<int>, b: seq<int>)
    requires AreDigits(a) && AreDigits(b) && a != [] && b != []
    requires (a[0] == 0 ==> |a| == 1) && (b[0] == 0 ==> |b| == 1) && Value(a) == Value(b)
    ensures |a| <= |b|
  {
    if |a| > |b| {
      LeadingBounds(a);
      ValueBounds(b);
      PowGrows(|b|, |a| - 1);
    }
  }

  // ---------------------------------------------------------------- the two loops

  /** One digit product: what the cell and the carry held, plus `x * y`, is what they hold now. */
  lemma CellStep(digit: int, carry': int, product: int, cell: int, x: int, y: int, carry: int,
                 low: int, cellLow: int, y2: int, p: int, t: int, r: int)
    requires product == cell + x * y + carry && product == 10 * carry' + digit && p == t * r
    requires low + carry * p == cellLow + x * y2 * r
    ensures (digit * p + low) + carry' * (10 * p) == (cell * p + cellLow) + x * (y * t + y2) * r
  {
    calc {
      (digit * p + low) + carry' * (10 * p);
    ==
      (10 * carry' + digit) * p + low;
    ==
      (cell + x * y + carry) * p + low;
    ==
      cell * p + x * y * p + (low + carry * p);
    ==
      cell * p + x * y * (t * r) + (cellLow + x * y2 * r);
    ==  { assert x * y * (t * r) == x * (y * t) * r; }
      cell * p + cellLow + (x * (y * t) * r + x * y2 * r);
    ==  { assert x * (y * t) * r + x * y2 * r == x * (y * t + y2) * r; }
      (cell * p + cellLow) + x * (y * t + y2) * r;
    }
  }

  /** One row: the partial product of the digits after `i` becomes that of the digits from `i` on. */
  lemma RowStep(carry: int, low: int, before: int, x: int, v1: int, v2: int, p: int, r: int)
    requires low + carry * p == before + x * v2 * r && before == v1 * v2
    ensures carry * p + low == (x * r + v1) * v2
  {
    assert x * v2 * r == x * r * v2;
    assert (x * r + v1) * v2 == x * r * v2 + v1 * v2;
  }

  /** The cells of `q` after `k` and the digits of `b` after `j` that line up with them. */
  ghost predicate RowDone(p: seq<int>, q: seq<int>, b: seq<int>, x: int, i: nat, j: nat, carry: int, rest: nat)
    requires |p| == |q| == i + 1 + |b| + rest && j <= |b|
  {
    && Value(p[i + j + 1..]) + carry * Pow10(|b| - j + rest) == Value(q[i + j + 1..]) + x * Value(b[j..]) * Pow10(rest)
    && forall k | 0 <= k < i + j + 1 :: p[k] == q[k]
  }

  lemma RowStarts(q: seq<int>, b: seq<int>, x: int, i: nat, rest: nat)
    requires |q| == i + 1 + |b| + rest
    ensures RowDone(q, q, b, x, i, |b|, 0, rest)
  {
    assert b[|b|..] == [];
    assert x * 0 * Pow10(rest) == 0;
  }

  lemma RowContinues(p: seq<int>, q: seq<int>, b: seq<int>, x: int, i: nat, j: nat, carry: int, rest: nat, product: int)
    requires |p| == |q| == i + 1 + |b| + rest && j < |b|
    requires RowDone(p, q, b, x, i, j + 1, carry, rest)
    requires product == p[i + j + 1] + x * b[j] + carry
    ensures RowDone(p[i + j + 1 := product % 10], q, b, x, i, j, product / 10, rest)
  {
    hide Value, Pow10;
    var k, n := i + j + 1, |b| - (j + 1) + rest;
    var p' := p[k := product % 10];
    assert p'[k..] == [product % 10] + p[k + 1..] && q[k..] == [q[k]] + q[k + 1..] && b[j..] == [b[j]] + b[j + 1..];
    ValueFront(product % 10, p[k + 1..]);
    ValueFront(q[k], q[k + 1..]);
    ValueFront(b[j], b[j + 1..]);
    PowAdd(|b| - (j + 1), rest);
    PowNext(n);
    CellStep(product % 10, product / 10, product, q[k], x, b[j], carry, Value(p[k + 1..]), Value(q[k + 1..]),
             Value(b[j + 1..]), Pow10(n), Pow10(|b| - (j + 1)), Pow10(rest));
  }

  /** All digits of `a` from `i` on are multiplied in; the cells before are still zero. */
  ghost predicate RowsDone(p: seq<int>, a: seq<int>, b: seq<int>, i: nat)
    requires i <= |a| && |p| == |a| + |b|
  {
    AreDigits(p) && Value(p[i..]) == Value(a[i..]) * Value(b) && forall k | 0 <= k < i :: p[k] == 0
  }

  lemma {:induction false} ZeroValue(ds: seq<int>)
    requires forall k | 0 <= k < |ds| :: ds[k] == 0
    ensures Value(ds) == 0
  {
    if ds != [] {
      ZeroValue(ds[..|ds| - 1]);
    }
  }

  lemma RowEnds(p: seq<int>, q: seq<int>, a: seq<int>, b: seq<int>, i: nat, carry: int)
    requires i < |a| && |p| == |q| == |a| + |b| && 0 <= carry <= 9 && AreDigits(p)
    requires RowsDone(q, a, b, i + 1) && RowDone(p, q, b, a[i], i, 0, carry, |a| - i - 1)
    ensures p[i] == 0 && RowsDone(p[i := carry], a, b, i)
  {
    var p', rest := p[i := carry], |a| - i - 1;
    assert p[i] == q[i] && b[0..] == b;
    assert p'[i..] == [carry] + p[i + 1..] && a[i..] == [a[i]] + a[i + 1..];
    ValueFront(carry, p[i + 1..]);
    ValueFront(a[i], a[i + 1..]);
    RowStep(carry, Value(p[i + 1..]), Value(q[i + 1..]), a[i], Value(a[i + 1..]), Value(b), Pow10(|b| + rest), Pow10(rest));
  }

  /** The inner loop. The carry stays a digit, and so does every cell. */
  method MultiplyRow(cells: array<int>, s1: string, s2: string, i: nat)
    requires IsDecimal(s1) && IsDecimal(s2) && i < |s1| && cells.Length == |s1| + |s2|
    requires RowsDone(cells[..], DigitsOf(s1), DigitsOf(s2), i + 1)
    modifies cells
    ensures RowsDone(cells[..], DigitsOf(s1), DigitsOf(s2), i)
  {
    hide RowDone, RowsDone, Value;
    ghost var a, b, q, rest := DigitsOf(s1), DigitsOf(s2), cells[..], |s1| - i - 1;
    var c := 0;
    RowStarts(q, b, a[i], i, rest);
    RowDigits(q, a, b, i + 1);
    var j := |s2| - 1;
    while j >= 0
      invariant -1 <= j < |s2| && 0 <= c <= 9 && AreDigits(cells[..])
      invariant RowDone(cells[..], q, b, a[i], i, j + 1, c, rest)
    {
      assert cells[..][i + j + 1] == cells[i + j + 1];
      var x, y := s1[i] as int - '0' as int, s2[j] as int - '0' as int;
      SmallProduct(x, y);
      var product := cells[i + j + 1] + x * y + c;
      RowContinues(cells[..], q, b, a[i], i, j, c, rest, product);
      ghost var p := cells[..];
      c := product / 10;
      cells[i + j + 1] := product % 10;
      assert cells[..] == p[i + j + 1 := product % 10];
      j := j - 1;
    }
    ghost var p := cells[..];
    RowEnds(p, q, a, b, i, c);
    cells[i] := c;
    assert cells[..] == p[i := c];
  }

  lemma SmallProduct(x: int, y: int)
    requires 0 <= x <= 9 && 0 <= y <= 9
    ensures 0 <= x * y <= 81
  {
    assert x * y <= 9 * y;
  }

  lemma RowDigits(p: seq<int>, a: seq<int>, b: seq<int>, i: nat)
    requires i <= |a| && |p| == |a| + |b| && RowsDone(p, a, b, i)
    ensures AreDigits(p)
  {
  }

  lemma RowsStart(p: seq<int>, a: seq<int>, b: seq<int>)
    requires |p| == |a| + |b| && forall k | 0 <= k < |p| :: p[k] == 0
    ensures RowsDone(p, a, b, |a|)
  {
    ZeroValue(p[|a|..]);
    assert a[|a|..] == [];
  }

  function Product(s1: string, s2: string): int {
    Number(s1) * Number(s2)
  }

  /** The product fills all cells but at most one. */
  lemma OneZeroAtMost(p: seq<int>, s1: string, s2: string)
    requires IsDecimal(s1) && IsDecimal(s2) && Leading(s1) && Leading(s2)
    requires |p| == |s1| + |s2| && RowsDone(p, DigitsOf(s1), DigitsOf(s2), 0)
    ensures AreDigits(p) && Value(p) == Product(s1, s2)
    ensures p[0] == 0 ==> p[1] != 0 && Value(p[1..]) == Value(p)
  {
    hide Value, Pow10;
    var a, b := DigitsOf(s1), DigitsOf(s2);
    assert p[0..] == p && a[0..] == a;
    LeadingBounds(a);
    LeadingBounds(b);
    PowAdd(|a| - 1, |b| - 1);
    PowPositive(|a| - 1);
    PowPositive(|b| - 1);
    ProductBound(Pow10(|a| - 1), Pow10(|b| - 1), Value(a), Value(b));
    if p[0] == 0 {
      LeadingZeros(p);
    }
  }

  lemma ProductBound(m: int, n: int, x: int, y: int)
    requires 0 < m <= x && 0 < n <= y
    ensures m * n <= x * y
  {
    TimesGrows(m, x, n);
    TimesGrows(n, y, x);
  }

  lemma TimesGrows(m: int, x: int, n: int)
    requires m <= x && 0 <= n
    ensures m * n <= x * n && n * m <= n * x
  {
    assert 0 <= (x - m) * n;
  }

  predicate AllZeros(s: string) {
    forall i | 0 <= i < |s| :: s[i] == '0'
  }

  lemma {:induction false} ValueZero(ds: seq<int>)
    requires AreDigits(ds)
    ensures Value(ds) == 0 <==> forall i | 0 <= i < |ds| :: ds[i] == 0
  {
    if ds != [] {
      ValueZero(ds[..|ds| - 1]);
      ValueBounds(ds[..|ds| - 1]);
    }
  }

  lemma ProductZero(s1: string, s2: string)
    requires IsDecimal(s1) && IsDecimal(s2)
    ensures Product(s1, s2) == 0 <==> AllZeros(s1) || AllZeros(s2)
  {
    ValueZero(DigitsOf(s1));
    ValueZero(DigitsOf(s2));
    assert AllZeros(s1) <==> forall i | 0 <= i < |s1| :: DigitsOf(s1)[i] == 0;
    assert AllZeros(s2) <==> forall i | 0 <= i < |s2| :: DigitsOf(s2)[i] == 0;
    NoZeroProduct(Number(s1), Number(s2));
  }

  lemma NoZeroProduct(x: int, y: int)
    ensures x * y == 0 <==> x == 0 || y == 0
  {
  }

  lemma ZeroNumeral()
    ensures Canonical("0") && Number("0") == 0
  {
    assert DigitsOf("0") == [0] && [0][..0] == [];
  }

  lemma NumberOf(s: string, ds: seq<int>)
    requires DigitsOf(s) == ds
    ensures Number(s) == Value(ds)
  {
  }

  /** The canonical numeral of the product. An empty operand or one with a leading zero gives "0", which is the
      right exactly when one operand has no digit but zeros. */
  method StringMultiply(s1: string, s2: string) returns (ret: string)
    requires IsDecimal(s1) && IsDecimal(s2)
    ensures Canonical(ret)
    ensures Leading(s1) && Leading(s2) ==> Number(ret) == Product(s1, s2)
    ensures !(Leading(s1) && Leading(s2)) ==> ret == "0"
    ensures Number(ret) == Product(s1, s2) <==> (Leading(s1) && Leading(s2)) || AllZeros(s1) || AllZeros(s2)
  {
    hide Value, RowsDone, Product, Number;
    ProductZero(s1, s2);
    if s1 == "" || s2 == "" || s1[0] == '0' || s2[0] == '0' {
      ZeroNumeral();
      return "0";
    }
    ghost var a, b := DigitsOf(s1), DigitsOf(s2);
    var cells := new int[|s1| + |s2|](_ => 0);
    RowsStart(cells[..], a, b);
    var i := |s1| - 1;
    while i >= 0
      invariant -1 <= i < |s1| && RowsDone(cells[..], a, b, i + 1)
    {
      MultiplyRow(cells, s1, s2, i);
      i := i - 1;
    }
    OneZeroAtMost(cells[..], s1, s2);
    var s := if cells[0] != 0 then 0 else 1;
    ghost var p := cells[..];
    assert p[0..] == p;
    ret := Render(cells, s);
    NumberOf(ret, p[s..]);
    assert DigitsOf(ret)[0] != 0;
  }

  /** The last loop: cells from `s` on, as characters. */
  method Render(cells: array<int>, s: nat) returns (ret: string)
    requires s <= cells.Length && AreDigits(cells[..])
    ensures DigitsOf(ret) == cells[..][s..] && IsDecimal(ret)
  {
    ret := "";
    for k := s to cells.Length
      invariant |ret| == k - s && IsDecimal(ret)
      invariant forall j | 0 <= j < |ret| :: ret[j] as int - '0' as int == cells[s + j]
    {
      assert 0 <= cells[..][k] <= 9;
      ret := ret + ['0' + cells[k] as char];
    }
  }
}

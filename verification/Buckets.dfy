/** Powers of two, hash masks, and the counting argument shared by the bucket-sorted hash tables. */
module Buckets {

  // ---------------------------------------------------------------- sizes and masks

  const INITIAL_SIZE: nat := 16
  const LONG_MAX: nat := 0x7fff_ffff_ffff_ffff

  /** What `std::size_t` holds on the 64-bit platforms the servers run on. */
  type Size = n: nat | n < 0x1_0000_0000_0000_0000

  predicate IsPowerOf2(n: nat) {
    n == 1 || (n > 1 && n % 2 == 0 && IsPowerOf2(n / 2))
  }

  /** Bitwise `x & y`. */
  function And(x: nat, y: nat): nat {
    if y == 0 then 0
    else (if x % 2 == 1 && y % 2 == 1 then 1 else 0) + 2 * And(x / 2, y / 2)
  }

  /** Masking with `size - 1` is the remainder modulo a power of two, so it is always a valid bucket. */
  lemma {:induction false} MaskIsRemainder(hash: nat, size: nat)
    requires IsPowerOf2(size)
    ensures And(hash, size - 1) == hash % size < size
  {
    if size > 1 {
      MaskIsRemainder(hash / 2, size / 2);
      RemainderByHalves(hash, size / 2);
    }
  }

  lemma RemainderByHalves(n: nat, half: nat)
    requires half > 0
    ensures n % (2 * half) == n % 2 + 2 * (n / 2 % half)
  {
    var q, r := n / 2 / half, n % 2 + 2 * (n / 2 % half);
    assert half * q + n / 2 % half == n / 2;
    assert 2 * half * q == 2 * (half * q);
    RemainderUnique(n, 2 * half, q, r);
  }

  lemma RemainderUnique(n: nat, size: nat, q: nat, r: nat)
    requires r < size && n == size * q + r
    ensures n % size == r
  {
    var d := n / size - q;
    assert size * (n / size) + n % size == n;
    assert size * d == size * (n / size) - size * q == r - n % size;
    SmallMultiple(size, d);
  }

  lemma SmallMultiple(size: nat, d: int)
    requires 0 < size * d + size && size * d < size
    ensures d == 0
  {
  }

  /** The number of buckets for `size` records. */
  ghost predicate IsHashSize(i: nat, size: nat) {
    IsPowerOf2(i) && INITIAL_SIZE <= i && size <= i && (i == INITIAL_SIZE || i < 2 * size)
  }

  /** Doubles from 16 up to the first power of two that is not smaller than `size`. */
  method NextPower(size: nat) returns (i: Size)
    requires size <= LONG_MAX + 1
    ensures IsHashSize(i, size)
    ensures 16 <= i && size <= i && (i == 16 || i < 2 * size)
  {
    i := INITIAL_SIZE;
    while i < size
      invariant IsPowerOf2(i) && INITIAL_SIZE <= i
      invariant i == INITIAL_SIZE || i < 2 * size
    {
      assert i * 2 / 2 == i;
      i := i * 2;
    }
  }

  /** The variant of the typed tables, capped at LONG_MAX. */
  method NextPowerCapped(size: nat) returns (i: Size)
    ensures size >= LONG_MAX ==> i == LONG_MAX
    ensures size >= 0x7fff_ffff_ffff_ffff ==> i == 0x7fff_ffff_ffff_ffff
    ensures size < 0x7fff_ffff_ffff_ffff ==> 16 <= i && size <= i && (i == 16 || i < 2 * size)
    ensures size < LONG_MAX ==> IsHashSize(i, size)
  {
    if size >= LONG_MAX {
      return LONG_MAX;
    }
    i := NextPower(size);
  }

  // ---------------------------------------------------------------- bucket ranges

  function Sum(cells: seq<nat>, h: nat): nat
    requires h <= |cells|
  {
    if h == 0 then 0 else Sum(cells, h - 1) + cells[h - 1]
  }

  /** How many of the records with bucket numbers `all` belong to a bucket before `h`. */
  ghost function Start(all: multiset<nat>, h: nat): nat {
    if h == 0 then 0 else Start(all, h - 1) + all[h - 1]
  }

  /** Position `p` lies in the range of bucket `h`. */
  ghost predicate InBucket(all: multiset<nat>, h: nat, p: nat) {
    Start(all, h) <= p < Start(all, h + 1)
  }

  /** Every record stands in the range of its own bucket. */
  ghost predicate Grouped(hs: seq<nat>) {
    forall p: nat | p < |hs| :: InBucket(multiset(hs), hs[p], p)
  }

  lemma {:induction false} StartGrows(all: multiset<nat>, g: nat, h: nat)
    requires g <= h
    ensures Start(all, g) <= Start(all, h)
  {
    if g < h {
      StartGrows(all, g, h - 1);
    }
  }

  /** The ranges of different buckets do not meet. */
  lemma BucketUnique(all: multiset<nat>, g: nat, h: nat, p: nat)
    requires InBucket(all, g, p) && InBucket(all, h, p)
    ensures g == h
  {
    if g < h {
      StartGrows(all, g + 1, h);
    } else if h < g {
      StartGrows(all, h + 1, g);
    }
  }

  lemma {:induction false} StartOfOneMore(all: multiset<nat>, x: nat, h: nat)
    ensures Start(all + multiset{x}, h) == Start(all, h) + (if x < h then 1 else 0)
  {
    if h > 0 {
      StartOfOneMore(all, x, h - 1);
    }
  }

  /** The ranges of the first `size` buckets cover all records. */
  lemma {:induction false} StartCovers(hs: seq<nat>, size: nat)
    requires forall p | 0 <= p < |hs| :: hs[p] < size
    ensures Start(multiset(hs), size) == |hs|
  {
    if hs == [] {
      StartOfNone(size);
    } else {
      var n := |hs| - 1;
      StartCovers(hs[..n], size);
      StartOfOneMore(multiset(hs[..n]), hs[n], size);
      assert hs == hs[..n] + [hs[n]];
    }
  }

  lemma {:induction false} StartOfNone(h: nat)
    ensures Start(multiset{}, h) == 0
  {
    if h > 0 {
      StartOfNone(h - 1);
    }
  }

  /** In a grouped array a bucket's range holds exactly the records of that bucket. */
  lemma GroupedExactly(hs: seq<nat>, p: nat, h: nat)
    requires Grouped(hs) && p < |hs|
    ensures hs[p] == h <==> InBucket(multiset(hs), h, p)
  {
    if InBucket(multiset(hs), h, p) {
      BucketUnique(multiset(hs), hs[p], h, p);
    }
  }

  // ---------------------------------------------------------------- counts and prefix sums

  /** The copy that becomes the cursors. */
  method CopyOf(cells: array<nat>) returns (copy: array<nat>)
    ensures fresh(copy) && copy[..] == cells[..]
  {
    copy := new nat[cells.Length];
    forall h | 0 <= h < cells.Length {
      copy[h] := cells[h];
    }
    assert copy[..] == cells[..];
  }

  /** Counts become the sums of the counts before them. */
  method PrefixSums(cells: array<nat>)
    modifies cells
    ensures forall h | 0 <= h < cells.Length :: cells[h] == Sum(old(cells[..]), h)
  {
    ghost var counts := cells[..];
    var current := 0;
    for h := 0 to cells.Length
      invariant current == Sum(counts, h)
      invariant forall g | 0 <= g < h :: cells[g] == Sum(counts, g)
      invariant forall g | h <= g < cells.Length :: cells[g] == counts[g]
    {
      var next := current + cells[h];
      cells[h] := current;
      current := next;
    }
  }

  /** Prefix sums of counts that started from zero cells are the bucket starts. */
  lemma {:induction false} SumOfCounts(cells: seq<nat>, all: multiset<nat>, h: nat)
    requires h <= |cells| && forall g | 0 <= g < h :: cells[g] == all[g]
    ensures Sum(cells, h) == Start(all, h)
  {
    if h > 0 {
      SumOfCounts(cells, all, h - 1);
    }
  }

  ghost predicate SumsAreStarts(cells: seq<nat>, all: multiset<nat>, size: nat)
    requires size <= |cells|
  {
    forall h: nat | h <= size :: Sum(cells, h) == Start(all, h)
  }

  ghost predicate AllZero(cells: seq<nat>, size: nat)
    requires size <= |cells|
  {
    forall g: nat | g < size :: cells[g] == 0
  }

  /** There is one number of buckets for `size` records. */
  lemma HashSizeUnique(i: nat, j: nat, size: nat)
    requires IsHashSize(i, size) && IsHashSize(j, size)
    ensures i == j
  {
    if i < j {
      PowersApart(i, j);
    } else if j < i {
      PowersApart(j, i);
    }
  }

  lemma {:induction false} PowersApart(i: nat, j: nat)
    requires IsPowerOf2(i) && IsPowerOf2(j) && i < j
    ensures 2 * i <= j
  {
    if i > 1 {
      PowersApart(i / 2, j / 2);
    }
  }

  /** Counts that started from the cells `stale` give the bucket starts exactly when those cells were zero. */
  lemma StaleCellsShiftBuckets(stale: seq<nat>, cells: seq<nat>, all: multiset<nat>, size: nat)
    requires size <= |stale| && size <= |cells|
    requires forall g | 0 <= g < size :: cells[g] == stale[g] + all[g]
    ensures SumsAreStarts(cells, all, size) <==> AllZero(stale, size)
  {
    if SumsAreStarts(cells, all, size) {
      forall g: nat | g < size ensures stale[g] == 0 {
        assert Sum(cells, g) == Start(all, g) && Sum(cells, g + 1) == Start(all, g + 1);
      }
    }
    if AllZero(stale, size) {
      forall h: nat | h <= size ensures Sum(cells, h) == Start(all, h) {
        SumOfCounts(cells, all, h);
      }
    }
  }

  // ---------------------------------------------------------------- permuting in place

  function Swapped<T>(s: seq<T>, i: nat, j: nat): seq<T>
    requires i < |s| && j < |s|
  {
    s[i := s[j]][j := s[i]]
  }

  lemma SwappedSame<T>(s: seq<T>, i: nat)
    requires i < |s|
    ensures Swapped(s, i, i) == s
  {
  }

  lemma SwapKeepsAll<T>(s: seq<T>, i: nat, j: nat)
    requires i < |s| && j < |s|
    ensures multiset(Swapped(s, i, j)) == multiset(s)
  {
  }

  lemma {:induction false} RunCount(s: seq<nat>, h: nat)
    requires forall p | 0 <= p < |s| :: s[p] == h
    ensures multiset(s)[h] == |s|
  {
    if s != [] {
      var n := |s| - 1;
      RunCount(s[..n], h);
      assert s == s[..n] + [s[n]];
    }
  }

  /** A run of bucket `h` plus one more record of `h` elsewhere: the end of the run is still inside the bucket. */
  lemma RoomInBucket(hs: seq<nat>, h: nat, end: nat, i: nat)
    requires i < |hs| && hs[i] == h
    requires Start(multiset(hs), h) <= end <= |hs|
    requires forall p | Start(multiset(hs), h) <= p < end :: hs[p] == h
    requires i < Start(multiset(hs), h) || end <= i
    ensures InBucket(multiset(hs), h, end)
  {
    var begin := Start(multiset(hs), h);
    assert hs == hs[..begin] + hs[begin..end] + hs[end..];
    RunCount(hs[begin..end], h);
    if i < begin {
      assert hs[..begin][i] == h;
    } else {
      assert hs[end..][i - end] == h;
    }
  }

  /** Bucket `h` is filled with its own records from its start up to `ends[h]`. */
  ghost predicate Filled(hs: seq<nat>, ends: seq<nat>, h: nat)
    requires h < |ends|
  {
    && Start(multiset(hs), h) <= ends[h] <= |hs|
    && forall p | Start(multiset(hs), h) <= p < ends[h] :: hs[p] == h
  }

  ghost predicate AllFilled(hs: seq<nat>, ends: seq<nat>, size: nat) {
    && size <= |ends|
    && (forall p | 0 <= p < |hs| :: hs[p] < size)
    && forall h: nat | h < size :: Filled(hs, ends, h)
  }

  /** The positions of earlier swap targets, all below their bucket's cursor. */
  ghost predicate Placed(hs: seq<nat>, ends: seq<nat>, done: set<nat>) {
    forall t <- done :: t < |hs| && hs[t] < |ends| && InBucket(multiset(hs), hs[t], t) && t < ends[hs[t]]
  }

  /** What a bucket's run covers lies in the bucket's range. */
  lemma CursorInBucket(hs: seq<nat>, ends: seq<nat>, size: nat, g: nat, p: nat)
    requires AllFilled(hs, ends, size) && g < size && Start(multiset(hs), g) <= p < ends[g]
    ensures InBucket(multiset(hs), g, p)
  {
    assert Filled(hs, ends, g);
    var begin := Start(multiset(hs), g);
    assert hs == hs[..begin] + hs[begin..ends[g]] + hs[ends[g]..];
    RunCount(hs[begin..ends[g]], g);
  }

  /** A record outside its bucket's run has room at the end of that run, at a position that was never a target. */
  lemma CursorIsFree(hs: seq<nat>, ends: seq<nat>, size: nat, i: nat, done: set<nat>)
    requires AllFilled(hs, ends, size) && i < |hs| && Placed(hs, ends, done)
    requires i < Start(multiset(hs), hs[i]) || ends[hs[i]] <= i
    ensures var h, t := hs[i], ends[hs[i]];
            InBucket(multiset(hs), h, t) && t < |hs| && t !in done
  {
    var h, t := hs[i], ends[hs[i]];
    assert Filled(hs, ends, h);
    RoomInBucket(hs, h, t, i);
    StartGrows(multiset(hs), h + 1, size);
    StartCovers(hs, size);
    if t in done {
      BucketUnique(multiset(hs), hs[t], h, t);
    }
  }

  /** Swapping that record to the end of the run extends the run and keeps all others. */
  lemma SwapFills(hs: seq<nat>, ends: seq<nat>, size: nat, i: nat)
    requires AllFilled(hs, ends, size) && i < |hs|
    requires i < Start(multiset(hs), hs[i]) || ends[hs[i]] <= i
    ensures ends[hs[i]] < |hs|
    ensures AllFilled(Swapped(hs, i, ends[hs[i]]), ends[hs[i] := ends[hs[i]] + 1], size)
  {
    hide Filled, InBucket, Start;
    var h, t := hs[i], ends[hs[i]];
    CursorIsFree(hs, ends, size, i, {});
    SwapKeepsAll(hs, i, t);
    var hs', ends' := Swapped(hs, i, t), ends[h := t + 1];
    forall g: nat | g < size ensures Filled(hs', ends', g) {
      SwapFillsBucket(hs, ends, size, i, g);
    }
  }

  lemma SwapFillsBucket(hs: seq<nat>, ends: seq<nat>, size: nat, i: nat, g: nat)
    requires AllFilled(hs, ends, size) && i < |hs| && g < size
    requires i < Start(multiset(hs), hs[i]) || ends[hs[i]] <= i
    requires ends[hs[i]] < |hs| && InBucket(multiset(hs), hs[i], ends[hs[i]])
    ensures Filled(Swapped(hs, i, ends[hs[i]]), ends[hs[i] := ends[hs[i]] + 1], g)
  {
    var h, t := hs[i], ends[hs[i]];
    SwapKeepsAll(hs, i, t);
    assert Filled(hs, ends, g);
    if g != h && Start(multiset(hs), g) <= t < ends[g] {
      CursorInBucket(hs, ends, size, g, t);
      BucketUnique(multiset(hs), g, h, t);
    }
  }

  /** The target joins the placed positions, and the earlier ones stay placed. */
  lemma SwapPlaces(hs: seq<nat>, ends: seq<nat>, size: nat, i: nat, done: set<nat>)
    requires AllFilled(hs, ends, size) && i < |hs| && Placed(hs, ends, done)
    requires i < Start(multiset(hs), hs[i]) || ends[hs[i]] <= i
    ensures ends[hs[i]] < |hs|
    ensures Placed(Swapped(hs, i, ends[hs[i]]), ends[hs[i] := ends[hs[i]] + 1], done + {ends[hs[i]]})
  {
    var h, t := hs[i], ends[hs[i]];
    CursorIsFree(hs, ends, size, i, done);
    var hs', ends' := Swapped(hs, i, t), ends[h := t + 1];
    SwapKeepsAll(hs, i, t);
    forall q | q in done + {t}
      ensures q < |hs'| && hs'[q] < |ends'| && InBucket(multiset(hs'), hs'[q], q) && q < ends'[hs'[q]]
    {
      if q != t {
        assert q in done && InBucket(multiset(hs), hs[q], q);
        assert q != i;
      }
    }
  }

  lemma {:induction false} BoundedSet(s: set<nat>, n: nat)
    requires forall x <- s :: x < n
    ensures |s| <= n
  {
    if n == 0 {
      assert s == {};
    } else {
      BoundedSet(s - {n - 1}, n - 1);
    }
  }

  lemma PlacedBounded(hs: seq<nat>, ends: seq<nat>, placed: set<nat>)
    requires Placed(hs, ends, placed)
    ensures |placed| <= |hs|
  {
    BoundedSet(placed, |hs|);
  }
}

/** Three-way quicksort in place (qsort/main.cpp). */
module QuickSort {

  // ---------------------------------------------------------------- rearranging a range

  /** `b` is `a` with the elements from `lo` up to `hi` rearranged. */
  ghost predicate Rearranged(a: seq<int>, b: seq<int>, lo: int, hi: int) {
    && |a| == |b| && 0 <= lo <= hi <= |a|
    && (forall i | 0 <= i < lo || hi <= i < |a| :: a[i] == b[i])
    && multiset(a[lo..hi]) == multiset(b[lo..hi])
  }

  lemma SameRearranged(a: seq<int>, lo: int, hi: int)
    requires 0 <= lo <= hi <= |a|
    ensures Rearranged(a, a, lo, hi)
  {
  }

  lemma RearrangedTwice(a: seq<int>, b: seq<int>, c: seq<int>, lo: int, hi: int)
    requires Rearranged(a, b, lo, hi) && Rearranged(b, c, lo, hi)
    ensures Rearranged(a, c, lo, hi)
  {
  }

  /** Rearranging a part rearranges the whole. */
  lemma RearrangedWider(a: seq<int>, b: seq<int>, lo: int, hi: int, lo': int, hi': int)
    requires Rearranged(a, b, lo, hi) && 0 <= lo' <= lo && hi <= hi' <= |a|
    ensures Rearranged(a, b, lo', hi')
  {
    assert a[lo'..hi'] == a[lo'..lo] + a[lo..hi] + a[hi..hi'];
    assert b[lo'..hi'] == b[lo'..lo] + b[lo..hi] + b[hi..hi'];
    assert a[lo'..lo] == b[lo'..lo] && a[hi..hi'] == b[hi..hi'];
  }

  lemma RearrangedBySwap(a: seq<int>, i: int, j: int, lo: int, hi: int)
    requires 0 <= lo <= i < hi <= |a| && lo <= j < hi
    ensures Rearranged(a, a[i := a[j]][j := a[i]], lo, hi)
  {
    var b := a[i := a[j]][j := a[i]];
    SwappedSlice(a, i, j, lo, hi);
    SwapKeepsAll(a[lo..hi], i - lo, j - lo);
  }

  lemma SwappedSlice(a: seq<int>, i: int, j: int, lo: int, hi: int)
    requires 0 <= lo <= i < hi <= |a| && lo <= j < hi
    ensures a[i := a[j]][j := a[i]][lo..hi] == a[lo..hi][i - lo := a[lo..hi][j - lo]][j - lo := a[lo..hi][i - lo]]
  {
  }

  lemma SwapKeepsAll(a: seq<int>, i: nat, j: nat)
    requires i < |a| && j < |a|
    ensures multiset(a[i := a[j]][j := a[i]]) == multiset(a)
  {
  }

  /** A rearranged range has the same elements, so they satisfy the same conditions. */
  lemma ElementsKept(a: seq<int>, b: seq<int>, lo: int, hi: int, ok: int -> bool)
    requires Rearranged(a, b, lo, hi) && forall i | lo <= i < hi :: ok(a[i])
    ensures forall i | lo <= i < hi :: ok(b[i])
  {
    forall i | lo <= i < hi ensures ok(b[i]) {
      assert b[i] == b[lo..hi][i - lo];
      assert b[i] in multiset(a[lo..hi]);
    }
  }

  ghost predicate SortedRange(a: seq<int>, lo: int, hi: int)
    requires 0 <= lo <= hi <= |a|
  {
    forall i, j | lo <= i < j < hi :: a[i] <= a[j]
  }

  /** Elements below the pivot, equal to it, and above it, in this order. */
  ghost predicate ThreeWay(a: seq<int>, lo: int, i: int, k: int, hi: int, p: int)
    requires 0 <= lo <= hi <= |a|
  {
    && lo <= i <= k + 1 <= hi
    && (forall x | lo <= x < i :: a[x] < p)
    && (forall x | i <= x <= k :: a[x] == p)
    && forall x | k < x < hi :: a[x] > p
  }

  lemma LowerPartKept(a: seq<int>, b: seq<int>, lo: int, i: int, k: int, hi: int, p: int)
    requires 0 <= lo <= hi <= |a| && ThreeWay(a, lo, i, k, hi, p) && Rearranged(a, b, lo, i)
    ensures |b| == |a| && 0 <= lo <= i <= k + 1 <= hi && ThreeWay(b, lo, i, k, hi, p)
  {
    ElementsKept(a, b, lo, i, x => x < p);
  }

  lemma UpperPartKept(b: seq<int>, c: seq<int>, lo: int, i: int, k: int, hi: int, p: int)
    requires 0 <= lo <= hi <= |b| && ThreeWay(b, lo, i, k, hi, p) && SortedRange(b, lo, i) && Rearranged(b, c, k + 1, hi)
    ensures |c| == |b| && ThreeWay(c, lo, i, k, hi, p) && SortedRange(c, lo, i)
  {
    ElementsKept(b, c, k + 1, hi, x => x > p);
  }

  /** A three-way partition whose outer parts are sorted is sorted. */
  lemma ThreeWaySorted(c: seq<int>, lo: int, i: int, k: int, hi: int, p: int)
    requires 0 <= lo <= i <= k + 1 <= hi <= |c| && ThreeWay(c, lo, i, k, hi, p)
    requires SortedRange(c, lo, i) && SortedRange(c, k + 1, hi)
    ensures SortedRange(c, lo, hi)
  {
  }

  /** Sorting the two outer parts of a three-way partition sorts the range. */
  lemma PartsSorted(a: seq<int>, b: seq<int>, c: seq<int>, lo: int, i: int, k: int, hi: int, p: int)
    requires 0 <= lo <= hi <= |a| && ThreeWay(a, lo, i, k, hi, p)
    requires Rearranged(a, b, lo, i) && SortedRange(b, lo, i)
    requires Rearranged(b, c, k + 1, hi) && SortedRange(c, k + 1, hi)
    ensures SortedRange(c, lo, hi) && Rearranged(a, c, lo, hi)
  {
    hide SortedRange, ThreeWay, Rearranged;
    LowerPartKept(a, b, lo, i, k, hi, p);
    UpperPartKept(b, c, lo, i, k, hi, p);
    ThreeWaySorted(c, lo, i, k, hi, p);
    RearrangedWider(a, b, lo, i, lo, hi);
    RearrangedWider(b, c, k + 1, hi, lo, hi);
    RearrangedTwice(a, b, c, lo, hi);
  }

  // ---------------------------------------------------------------- the sort

  function Max(x: int, y: int): int {
    if x > y then x else y
  }

  function Min(x: int, y: int): int {
    if x < y then x else y
  }

  /** The pivot of three samples. The code takes the first and the third from the same cell, which leaves the
      larger of two elements of the range and not their median. */
  function Pivot(a: int, b: int, c: int): (p: int)
    ensures p == Max(b, Min(a, c))
    ensures a == c ==> (p == a || p == b) && a <= p && b <= p
  {
    Min(Max(a, b), Max(b, c))
  }

  /** A swap inside a range that was rearranged from `before`. */
  method Swap(nums: array<int>, i: int, j: int, ghost before: seq<int>, ghost lo: int, ghost hi: int)
    requires 0 <= lo <= i < hi <= nums.Length && lo <= j < hi && Rearranged(before, nums[..], lo, hi)
    modifies nums
    ensures nums[i] == old(nums[j]) && nums[j] == old(nums[i])
    ensures forall x | 0 <= x < nums.Length && x != i && x != j :: nums[x] == old(nums[x])
    ensures Rearranged(before, nums[..], lo, hi)
  {
    hide Rearranged;
    ghost var a := nums[..];
    nums[i], nums[j] := nums[j], nums[i];
    assert nums[..] == a[i := a[j]][j := a[i]];
    RearrangedBySwap(a, i, j, lo, hi);
    RearrangedTwice(before, a, nums[..], lo, hi);
  }

  /** The partition loop; a cell that holds the pivot stays between the two borders. */
  method Partition(nums: array<int>, s: int, e: int, p: int) returns (i: int, k: int)
    requires 0 <= s <= e < nums.Length && exists x | s <= x <= e :: nums[x] == p
    modifies nums
    ensures Rearranged(old(nums[..]), nums[..], s, e + 1)
    ensures ThreeWay(nums[..], s, i, k, e + 1, p) && s <= i <= k <= e
  {
    hide Rearranged;
    i, k := s, e;
    var j := s;
    ghost var before := nums[..];
    SameRearranged(before, s, e + 1);
    ghost var x :| s <= x <= e && nums[x] == p;
    while j <= k
      invariant s <= i <= j <= k + 1 <= e + 1
      invariant Rearranged(before, nums[..], s, e + 1)
      invariant (forall y | s <= y < i :: nums[y] < p) && (forall y | i <= y < j :: nums[y] == p)
      invariant forall y | k < y <= e :: nums[y] > p
      invariant i <= x <= k && nums[x] == p
      decreases k - j
    {
      if nums[j] < p {
        Swap(nums, i, j, before, s, e + 1);
        x := if x == i then j else x;
        i, j := i + 1, j + 1;
      } else if nums[j] > p {
        Swap(nums, j, k, before, s, e + 1);
        x := if x == k then j else x;
        k := k - 1;
      } else {
        j := j + 1;
      }
    }
  }

  /** `b` is `a` with the elements from `s` to `e`, both included, sorted; `a` itself when there are less than two. */
  ghost predicate SortedFrom(a: seq<int>, b: seq<int>, s: int, e: int) {
    if s < e then Rearranged(a, b, s, e + 1) && SortedRange(b, s, e + 1) else a == b
  }

  lemma RearrangedBounds(a: seq<int>, b: seq<int>, lo: int, hi: int)
    requires Rearranged(a, b, lo, hi)
    ensures |a| == |b| && 0 <= lo <= hi <= |a|
  {
  }

  lemma ThreeWayBounds(a: seq<int>, lo: int, i: int, k: int, hi: int, p: int)
    requires 0 <= lo <= hi <= |a| && ThreeWay(a, lo, i, k, hi, p)
    ensures lo <= i <= k + 1 <= hi
  {
  }

  /** A range that is sorted, or too short to need it. */
  lemma SortedPart(a: seq<int>, b: seq<int>, lo: int, hi: int)
    requires SortedFrom(a, b, lo, hi - 1) && 0 <= lo <= hi <= |a|
    ensures |b| == |a| && Rearranged(a, b, lo, hi) && SortedRange(b, lo, hi)
  {
  }

  /** In plain words: the same numbers, in order from `s` to `e`, and everywhere else nothing moved. */
  lemma SortedFromMeans(a: seq<int>, b: seq<int>, s: int, e: int)
    requires SortedFrom(a, b, s, e)
    ensures |a| == |b| && multiset(a) == multiset(b)
    ensures forall i | 0 <= i < |a| && !(s <= i <= e) :: b[i] == a[i]
    ensures 0 <= s && e < |b| ==> forall i, j | s <= i <= j <= e :: b[i] <= b[j]
  {
    if s < e {
      RearrangedWider(a, b, s, e + 1, 0, |a|);
      assert a[0..|a|] == a && b[0..|b|] == b;
    }
  }

  /** Sorting the parts left and right of the pivots sorts the whole. */
  lemma SortedFromParts(first: seq<int>, parts: seq<int>, left: seq<int>, last: seq<int>, s: int, i: int, k: int, e: int, p: int)
    requires s < e && Rearranged(first, parts, s, e + 1) && ThreeWay(parts, s, i, k, e + 1, p)
    requires SortedFrom(parts, left, s, i - 1) && SortedFrom(left, last, k + 1, e)
    ensures SortedFrom(first, last, s, e)
  {
    hide Rearranged, SortedRange;
    RearrangedBounds(first, parts, s, e + 1);
    ThreeWayBounds(parts, s, i, k, e + 1, p);
    SortedPart(parts, left, s, i);
    SortedPart(left, last, k + 1, e + 1);
    PartsSorted(parts, left, last, s, i, k, e + 1, p);
    RearrangedTwice(first, parts, last, s, e + 1);
  }

  lemma SortedPair(a: seq<int>, b: seq<int>, s: int)
    requires 0 <= s && s + 1 < |a| && Rearranged(a, b, s, s + 2) && b[s] <= b[s + 1]
    ensures SortedFrom(a, b, s, s + 1)
  {
  }

  /** The case of two elements. */
  method SortTwo(nums: array<int>, s: int, e: int)
    requires 0 <= s && s + 1 == e < nums.Length
    modifies nums
    ensures SortedFrom(old(nums[..]), nums[..], s, e)
  {
    hide Rearranged, SortedRange, SortedFrom;
    ghost var first := nums[..];
    SameRearranged(first, s, e + 1);
    if nums[s] > nums[e] {
      Swap(nums, s, e, first, s, e + 1);
    }
    SortedPair(first, nums[..], s);
  }

  /** Sorts the elements from `s` to `e`, both included, by rearranging them; nothing else changes. */
  method Qsort(nums: array<int>, s: int, e: int)
    requires s < e ==> 0 <= s && e < nums.Length
    modifies nums
    ensures SortedFrom(old(nums[..]), nums[..], s, e)
    decreases e - s
  {
    if s >= e {
      return;
    }
    hide Rearranged, SortedRange, ThreeWay, SortedFrom;
    ghost var first := nums[..];
    if s + 1 == e {
      SortTwo(nums, s, e);
      return;
    }
    var a, b, c := nums[e], nums[(e + s) / 2], nums[e];
    var p := Pivot(a, b, c);
    var i, k := Partition(nums, s, e, p);
    ghost var parts := nums[..];
    Qsort(nums, s, i - 1);
    ghost var left := nums[..];
    Qsort(nums, k + 1, e);
    SortedFromParts(first, parts, left, nums[..], s, i, k, e, p);
  }
}

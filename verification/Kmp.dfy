/** Knuth-Morris-Pratt search (KMP/main.cpp). */
module Kmp {

  // ---------------------------------------------------------------- borders

  /** The first `k` characters of `p[..j]` are also its last `k`, and `k < j`. */
  ghost predicate Border(p: string, j: nat, k: nat)
    requires j <= |p|
  {
    k < j && p[..k] == p[j - k..j]
  }

  /** `k` is the length of the longest proper border of `p[..j]`. */
  ghost predicate LongestBorder(p: string, j: nat, k: int)
    requires j <= |p|
  {
    k >= 0 && Border(p, j, k) && forall b: nat | Border(p, j, b) :: b <= k
  }

  /** The failure table: -1 for the empty prefix, the longest border for every other one. */
  ghost predicate IsNext(p: string, next: seq<int>, n: nat)
    requires n <= |p| < |next|
  {
    next[0] == -1 && forall j | 1 <= j <= n :: LongestBorder(p, j, next[j])
  }

  /** The shorter of two borders is a border of the longer one. */
  lemma BorderOfBorder(p: string, j: nat, long: nat, short: nat)
    requires j <= |p| && Border(p, j, long) && Border(p, j, short) && short < long
    ensures Border(p, long, short)
  {
    assert p[long - short..long] == p[..long][long - short..];
    assert p[j - short..j] == p[j - long..j][long - short..];
  }

  /** A border of a border is a border. */
  lemma BorderInBorder(p: string, j: nat, long: nat, short: nat)
    requires j <= |p| && Border(p, j, long) && Border(p, long, short)
    ensures Border(p, j, short)
  {
    assert p[long - short..long] == p[..long][long - short..];
    assert p[j - short..j] == p[j - long..j][long - short..];
  }

  /** A border grows by one character exactly when that character agrees. */
  lemma BorderGrows(p: string, j: nat, k: nat)
    requires j < |p| && k < j
    ensures Border(p, j + 1, k + 1) <==> Border(p, j, k) && p[k] == p[j]
  {
    assert p[..k + 1] == p[..k] + [p[k]];
    assert p[j - k..j + 1] == p[j - k..j] + [p[j]];
    if Border(p, j + 1, k + 1) {
      assert p[..k] == p[..k + 1][..k] == p[j - k..j + 1][..k] == p[j - k..j];
    }
  }

  /** `i` is -1 or a border of all but the last of the first `m` characters, and no border of these `m` is longer
      than one more than it. */
  ghost predicate Candidate(p: string, m: nat, i: int)
    requires 0 < m <= |p|
  {
    && -1 <= i < m
    && (i >= 0 ==> Border(p, m - 1, i))
    && forall c: nat | Border(p, m, c) :: c <= i + 1
  }

  /** The longest border of one prefix is the first candidate for the next. */
  lemma FirstCandidate(p: string, j: nat, m: nat, i: int)
    requires j < |p| && m == j + 1 && (if j == 0 then i == -1 else LongestBorder(p, j, i))
    ensures Candidate(p, m, i) && -1 <= i < m
  {
    forall c: nat | Border(p, m, c) ensures c <= i + 1 {
      if c > 0 {
        BorderGrows(p, j, c - 1);
      }
    }
  }

  /** After a mismatch the next candidate is the longest border of the failed one. */
  lemma NextCandidate(p: string, j: nat, m: nat, i: nat, next: int)
    requires j < |p| && m == j + 1 && Candidate(p, m, i) && p[i] != p[j]
    requires if i == 0 then next == -1 else LongestBorder(p, i, next)
    ensures Candidate(p, m, next) && -1 <= next < i
  {
    forall c: nat | Border(p, m, c) ensures c <= next + 1 {
      if c > 0 {
        BorderGrows(p, j, c - 1);
        if c - 1 < i {
          BorderOfBorder(p, j, i, c - 1);
        }
      }
    }
    if next >= 0 {
      BorderInBorder(p, j, i, next);
    }
  }

  /** A candidate that agrees, or none left, gives the longest border of the next prefix. */
  lemma CandidateFound(p: string, j: nat, m: nat, i: int)
    requires j < |p| && m == j + 1 && Candidate(p, m, i) && (i >= 0 ==> p[i] == p[j])
    ensures LongestBorder(p, m, i + 1)
  {
    if i >= 0 {
      BorderGrows(p, j, i);
    }
  }

  function Max(x: int, y: int): int {
    if x > y then x else y
  }

  /** The source's table has `len` cells, this one a cell more: `last`, the highest cell that is written, is `len`.
      The loop runs at most twice per character. */
  method GetNext(pattern: string) returns (next: array<int>, ghost last: int, ghost steps: nat)
    ensures last == |pattern|
    ensures fresh(next) && next.Length == |pattern| + 1 && IsNext(pattern, next[..], |pattern|)
    ensures steps <= 2 * |pattern|
  {
    hide Border, Candidate, LongestBorder;
    var len := |pattern|;
    next := new int[len + 1];
    next[0] := -1;
    var i, j := -1, 0;
    last, steps := 0, 0;
    if len > 0 {
      FirstCandidate(pattern, 0, 1, -1);
    }
    while j < len
      invariant 0 <= j <= len && last == j && IsNext(pattern, next[..], j)
      invariant -1 <= i <= j && if j < len then Candidate(pattern, j + 1, i) else len == 0 || i >= 0
      invariant j < len ==> i < j || i == -1
      invariant steps + 1 <= 2 * j - i
      decreases 2 * (len - j) + i + 1
    {
      if i == -1 || pattern[i] == pattern[j] {
        CandidateFound(pattern, j, j + 1, i);
        j, i := j + 1, i + 1;
        next[j] := i;
        last := Max(last, j);
        if j < len {
          FirstCandidate(pattern, j, j + 1, i);
        }
      } else {
        NextCandidate(pattern, j, j + 1, i, next[i]);
        i := next[i];
      }
      steps := steps + 1;
    }
  }

  // ---------------------------------------------------------------- search

  ghost predicate OccursAt(src: string, ptn: string, s: nat) {
    s + |ptn| <= |src| && src[s..s + |ptn|] == ptn
  }

  /** An occurrence, character by character. */
  lemma OccursMeans(src: string, ptn: string, s: nat)
    ensures OccursAt(src, ptn, s) <==> s + |ptn| <= |src| && forall i | 0 <= i < |ptn| :: src[s + i] == ptn[i]
  {
    if OccursAt(src, ptn, s) {
      forall i: nat | i < |ptn| ensures src[s + i] == ptn[i] {
        OccursChar(src, ptn, s, i);
      }
    }
  }

  lemma OccursChar(src: string, ptn: string, s: nat, i: nat)
    requires OccursAt(src, ptn, s) && i < |ptn|
    ensures src[s + i] == ptn[i]
  {
    assert src[s..s + |ptn|][i] == ptn[i];
  }

  /** `i` characters of the pattern match just before `j`, and it occurs nowhere further left. */
  ghost predicate Matched(src: string, ptn: string, j: nat, i: int) {
    && j <= |src| && -1 <= i <= |ptn| && i <= j
    && (i >= 0 ==> ptn[..i] == src[j - i..j])
    && forall s: nat | s < j - i :: !OccursAt(src, ptn, s)
  }

  lemma MatchGrows(src: string, ptn: string, j: nat, i: int)
    requires Matched(src, ptn, j, i) && j < |src| && i < |ptn| && (i >= 0 ==> ptn[i] == src[j])
    ensures Matched(src, ptn, j + 1, i + 1)
  {
    if i >= 0 {
      assert ptn[..i + 1] == ptn[..i] + [ptn[i]];
      assert src[j - i..j + 1] == src[j - i..j] + [src[j]];
    }
  }

  /** An occurrence that starts inside the matched part overlaps it in a border. */
  lemma OverlapIsBorder(src: string, ptn: string, j: nat, i: nat, s: nat)
    requires i <= j <= |src| && i <= |ptn| && ptn[..i] == src[j - i..j]
    requires j - i < s <= j && OccursAt(src, ptn, s)
    ensures Border(ptn, i, j - s)
  {
    var k := j - s;
    assert ptn[..k] == src[s..s + |ptn|][..k] == src[s..j];
    assert ptn[i - k..i] == ptn[..i][i - k..] == src[j - i..j][i - k..] == src[s..j];
  }

  /** After a mismatch, sliding the pattern to its longest border skips no occurrence. */
  lemma SlideSkipsNothing(src: string, ptn: string, j: nat, i: nat, next: int)
    requires Matched(src, ptn, j, i) && j < |src| && i < |ptn| && ptn[i] != src[j]
    requires if i == 0 then next == -1 else LongestBorder(ptn, i, next)
    ensures Matched(src, ptn, j, next)
  {
    forall s: nat | s < j - next ensures !OccursAt(src, ptn, s) {
      if OccursAt(src, ptn, s) {
        if s == j - i {
          OccursChar(src, ptn, s, i);
        } else if s > j - i {
          OverlapIsBorder(src, ptn, j, i, s);
        }
      }
    }
    if next >= 0 {
      assert ptn[..next] == ptn[i - next..i] == ptn[..i][i - next..] == src[j - i..j][i - next..] == src[j - next..j];
    }
  }

  /** The leftmost position where the pattern occurs, or -1 when it occurs nowhere;
      the search loop runs at most 2|src| + 1 times. The highest cell of the table that it reads, `read`, is one that
      the source has. */
  method Kmp(src: string, ptn: string) returns (r: int, ghost read: int, ghost steps: nat)
    ensures r == -1 <==> forall s: nat :: !OccursAt(src, ptn, s)
    ensures r != -1 ==> r >= 0 && OccursAt(src, ptn, r) && forall s: nat | s < r :: !OccursAt(src, ptn, s)
    ensures r != -1 ==> 0 <= r <= |src| - |ptn| && src[r..r + |ptn|] == ptn
    ensures steps <= 2 * |src| + 1
    ensures read < |ptn|
  {
    read, steps := -1, 0;
    if ptn == "" {
      assert OccursAt(src, ptn, 0);
      return 0, read, steps;
    }
    if |src| < |ptn| {
      return -1, read, steps;
    }
    var next, _, _ := GetNext(ptn);
    var i, j := 0, 0;
    while i < |ptn| && j < |src|
      invariant IsNext(ptn, next[..], |ptn|)
      invariant Matched(src, ptn, j, i)
      invariant steps <= 2 * j - i && read < |ptn|
      decreases 2 * (|src| - j) + i + 1
    {
      if i == -1 || ptn[i] == src[j] {
        MatchGrows(src, ptn, j, i);
        i, j := i + 1, j + 1;
      } else {
        SlideSkipsNothing(src, ptn, j, i, next[i]);
        read := Max(read, i);
        i := next[i];
      }
      steps := steps + 1;
    }
    if i == |ptn| {
      assert OccursAt(src, ptn, j - |ptn|);
      return j - |ptn|, read, steps;
    }
    return -1, read, steps;
  }
}

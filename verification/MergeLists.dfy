/** Merging two sorted linked lists in place (mergeSortedLists/main.cpp). */
module MergeLists {

  import opened LinkedLists

  /** Two lists that share no node, and no list visits a node twice. */
  ghost predicate Apart(c: seq<Node<int>>, d: seq<Node<int>>) {
    NoRepeats(c) && NoRepeats(d) && forall i, j | 0 <= i < |c| && 0 <= j < |d| :: c[i] != d[j]
  }

  ghost predicate Sorted(c: seq<Node<int>>) {
    forall i, j | 0 <= i < j < |c| :: c[i].data <= c[j].data
  }

  /** The merge: the smaller head goes first, and the second list's on a tie. */
  function Merged(c: seq<Node<int>>, d: seq<Node<int>>): (r: seq<Node<int>>)
    ensures |r| == |c| + |d|
  {
    if c == [] then d
    else if d == [] then c
    else if c[0].data < d[0].data then [c[0]] + Merged(c[1..], d)
    else [d[0]] + Merged(c, d[1..])
  }

  // ---------------------------------------------------------------- what the merge is

  lemma CountFirst(c: seq<Node<int>>)
    requires c != []
    ensures multiset(c) == multiset{c[0]} + multiset(c[1..])
  {
    assert c == [c[0]] + c[1..];
  }

  /** Exactly the given nodes. */
  lemma {:induction false} MergedNodes(c: seq<Node<int>>, d: seq<Node<int>>)
    ensures multiset(Merged(c, d)) == multiset(c) + multiset(d)
    decreases |c| + |d|
  {
    if c == [] || d == [] {
    } else if c[0].data < d[0].data {
      MergedNodes(c[1..], d);
      CountFirst(c);
      CountFirst(Merged(c, d));
    } else {
      MergedNodes(c, d[1..]);
      CountFirst(d);
      CountFirst(Merged(c, d));
    }
  }

  lemma MergedMember(c: seq<Node<int>>, d: seq<Node<int>>, n: Node<int>)
    ensures n in Merged(c, d) <==> n in c || n in d
  {
    MergedNodes(c, d);
    assert n in Merged(c, d) <==> n in multiset(Merged(c, d));
  }

  /** Sorted inputs give a sorted merge. */
  lemma {:induction false} MergedSorted(c: seq<Node<int>>, d: seq<Node<int>>)
    requires Sorted(c) && Sorted(d)
    ensures Sorted(Merged(c, d))
    decreases |c| + |d|
  {
    if c == [] || d == [] {
    } else if c[0].data < d[0].data {
      MergedSorted(c[1..], d);
      SmallestFirst(c[0], c[1..], d);
    } else {
      MergedSorted(c, d[1..]);
      SmallestFirst(d[0], c, d[1..]);
    }
  }

  lemma SmallestFirst(n: Node<int>, c: seq<Node<int>>, d: seq<Node<int>>)
    requires Sorted(Merged(c, d))
    requires (forall m <- c :: n.data <= m.data) && (forall m <- d :: n.data <= m.data)
    ensures Sorted([n] + Merged(c, d))
  {
    forall m | m in Merged(c, d) ensures n.data <= m.data {
      MergedMember(c, d, m);
    }
  }

  /** The nodes of `c` that are in `s`, in order. */
  ghost function Only(c: seq<Node<int>>, s: set<Node<int>>): seq<Node<int>> {
    if c == [] then [] else (if c[0] in s then [c[0]] else []) + Only(c[1..], s)
  }

  lemma {:induction false} OnlyAll(c: seq<Node<int>>, s: set<Node<int>>)
    requires forall n <- c :: n in s
    ensures Only(c, s) == c
  {
    if c != [] {
      OnlyAll(c[1..], s);
    }
  }

  lemma {:induction false} OnlyNone(c: seq<Node<int>>, s: set<Node<int>>)
    requires forall n <- c :: n !in s
    ensures Only(c, s) == []
  {
    if c != [] {
      OnlyNone(c[1..], s);
    }
  }

  /** The nodes of the first list keep their order. */
  lemma {:induction false} FirstKeepsOrder(c: seq<Node<int>>, d: seq<Node<int>>, s: set<Node<int>>)
    requires (forall n <- c :: n in s) && (forall n <- d :: n !in s)
    ensures Only(Merged(c, d), s) == c
    decreases |c| + |d|
  {
    if c == [] {
      OnlyNone(d, s);
    } else if d == [] {
      OnlyAll(c, s);
    } else if c[0].data < d[0].data {
      FirstKeepsOrder(c[1..], d, s);
    } else {
      FirstKeepsOrder(c, d[1..], s);
    }
  }

  /** The nodes of the second list keep their order. */
  lemma {:induction false} SecondKeepsOrder(c: seq<Node<int>>, d: seq<Node<int>>, s: set<Node<int>>)
    requires (forall n <- c :: n !in s) && (forall n <- d :: n in s)
    ensures Only(Merged(c, d), s) == d
    decreases |c| + |d|
  {
    if d == [] {
      OnlyNone(c, s);
    } else if c == [] {
      OnlyAll(d, s);
    } else if c[0].data < d[0].data {
      SecondKeepsOrder(c[1..], d, s);
    } else {
      SecondKeepsOrder(c, d[1..], s);
    }
  }

  lemma ApartTails(c: seq<Node<int>>, d: seq<Node<int>>)
    requires Apart(c, d)
    ensures c != [] ==> Apart(c[1..], d) && c[0] !in c[1..] && c[0] !in d
    ensures d != [] ==> Apart(c, d[1..]) && d[0] !in d[1..] && d[0] !in c
  {
  }

  /** No node is visited twice: the merge has no cycle. */
  lemma {:induction false} MergedNoRepeats(c: seq<Node<int>>, d: seq<Node<int>>)
    requires Apart(c, d)
    ensures NoRepeats(Merged(c, d))
    decreases |c| + |d|
  {
    ApartTails(c, d);
    if c == [] || d == [] {
    } else if c[0].data < d[0].data {
      MergedNoRepeats(c[1..], d);
      MergedMember(c[1..], d, c[0]);
    } else {
      MergedNoRepeats(c, d[1..]);
      MergedMember(c, d[1..], d[0]);
    }
  }

  /** One round of the merge. */
  lemma MergeStep(c: seq<Node<int>>, d: seq<Node<int>>)
    ensures c == [] ==> Merged(c, d) == d
    ensures d == [] ==> Merged(c, d) == c
    ensures c != [] && d != [] ==>
              Merged(c, d) == if c[0].data < d[0].data then [c[0]] + Merged(c[1..], d) else [d[0]] + Merged(c, d[1..])
  {
  }

  lemma SortedTail(c: seq<Node<int>>, n: Node<int>)
    requires Sorted(c) && n in c
    ensures Sorted(c[1..]) && c[0].data <= n.data && (n != c[0] ==> n in c[1..])
  {
    assert c == [c[0]] + c[1..];
  }

  lemma ApartMember(c: seq<Node<int>>, d: seq<Node<int>>, n: Node<int>)
    requires Apart(c, d) && n in c
    ensures n !in d
  {
  }

  /** A node of the first list stands before one of the second only when it is strictly smaller. */
  lemma {:induction false} TiesFromSecond(c: seq<Node<int>>, d: seq<Node<int>>, p: nat, q: nat)
    requires Sorted(c) && Sorted(d) && Apart(c, d)
    requires p < q < |c| + |d| && Merged(c, d)[p] in c && Merged(c, d)[q] in d
    ensures Merged(c, d)[p].data < Merged(c, d)[q].data
    decreases |c| + |d|
  {
    hide Apart, Sorted, Merged;
    var first, second := Merged(c, d)[p], Merged(c, d)[q];
    ApartTails(c, d);
    ApartMember(c, d, first);
    MergeStep(c, d);
    SortedTail(c, first);
    SortedTail(d, second);
    if c[0].data < d[0].data {
      if first != c[0] {
        TiesFromSecond(c[1..], d, p - 1, q - 1);
      }
    } else {
      assert second in Merged(c, d[1..]) by {
        assert Merged(c, d[1..])[q - 1] == second;
      }
      MergedMember(c, d[1..], second);
      if second in c {
        ApartMember(c, d, second);
      }
      TiesFromSecond(c, d[1..], p - 1, q - 1);
    }
  }

  // ---------------------------------------------------------------- merging in place

  /** The part that is linked already: each node points to the one after it; the last one points anywhere. */
  ghost predicate Linked(c: seq<Node<int>>)
    reads c
  {
    forall i {:trigger c[i].next} | 0 <= i < |c| - 1 :: c[i].next == c[i + 1]
  }

  /** Pointing the last linked node at a list joins them. */
  lemma Joined(head: Node?<int>, done: seq<Node<int>>, rest: seq<Node<int>>)
    requires done != [] && Linked(done) && head == done[0] && IsList(done[|done| - 1].next, rest)
    ensures IsList(head, done + rest)
  {
    var all := done + rest;
    forall i {:trigger all[i].next} | 0 <= i < |all| ensures all[i].next == if i + 1 < |all| then all[i + 1] else null {
      if i < |done| - 1 {
        assert done[i].next == done[i + 1];
      } else if i >= |done| {
        assert rest[i - |done|].next == if i - |done| + 1 < |rest| then rest[i - |done| + 1] else null;
      }
    }
  }

  /** The nodes in front (behind the dummy) and the two rests are the two lists, partly merged. */
  ghost predicate Split(front: seq<Node<int>>, rest1: seq<Node<int>>, rest2: seq<Node<int>>, c: seq<Node<int>>, d: seq<Node<int>>) {
    && front != [] && front[1..] + Merged(rest1, rest2) == Merged(c, d)
    && NoRepeats(front) && Apart(rest1, rest2)
    && (forall n <- front :: n !in rest1 && n !in rest2)
    && (forall i | 1 <= i < |front| :: front[i] in c + d)
    && (forall n <- rest1 :: n in c + d) && (forall n <- rest2 :: n in c + d)
  }

  lemma SplitStarts(dummy: Node<int>, c: seq<Node<int>>, d: seq<Node<int>>)
    requires Apart(c, d) && dummy !in c + d
    ensures Split([dummy], c, d, c, d) && Linked([dummy])
  {
  }

  lemma SplitFacts(front: seq<Node<int>>, rest1: seq<Node<int>>, rest2: seq<Node<int>>, c: seq<Node<int>>, d: seq<Node<int>>)
    requires Split(front, rest1, rest2, c, d)
    ensures rest1 != [] ==> rest1[0] !in front
    ensures rest2 != [] ==> rest2[0] !in front
    ensures front != [] && front[|front| - 1] !in rest1 && front[|front| - 1] !in rest2
    ensures NoRepeats(front) && (|front| > 1 ==> front[|front| - 1] in c + d)
  {
    assert front[|front| - 1] in front;
  }

  /** Taking the first list's head, when the merge takes it. */
  lemma SplitTakesFirst(front: seq<Node<int>>, rest1: seq<Node<int>>, rest2: seq<Node<int>>, c: seq<Node<int>>, d: seq<Node<int>>)
    requires Split(front, rest1, rest2, c, d) && rest1 != [] && rest2 != [] && rest1[0].data < rest2[0].data
    ensures Split(front + [rest1[0]], rest1[1..], rest2, c, d)
  {
    ApartTails(rest1, rest2);
    assert (front + [rest1[0]])[1..] == front[1..] + [rest1[0]];
    assert front[1..] + ([rest1[0]] + Merged(rest1[1..], rest2)) == Merged(c, d);
  }

  /** Taking the second list's head, when the merge takes it. */
  lemma SplitTakesSecond(front: seq<Node<int>>, rest1: seq<Node<int>>, rest2: seq<Node<int>>, c: seq<Node<int>>, d: seq<Node<int>>)
    requires Split(front, rest1, rest2, c, d) && rest1 != [] && rest2 != [] && rest1[0].data >= rest2[0].data
    ensures Split(front + [rest2[0]], rest1, rest2[1..], c, d)
  {
    ApartTails(rest1, rest2);
    assert (front + [rest2[0]])[1..] == front[1..] + [rest2[0]];
    assert front[1..] + ([rest2[0]] + Merged(rest1, rest2[1..])) == Merged(c, d);
  }

  /** When one rest is used up, the other completes the merge. */
  lemma SplitEnds(front: seq<Node<int>>, rest1: seq<Node<int>>, rest2: seq<Node<int>>, c: seq<Node<int>>, d: seq<Node<int>>)
    requires Split(front, rest1, rest2, c, d)
    ensures rest1 == [] ==> front[1..] + rest2 == Merged(c, d) && forall n <- front :: n !in rest2
    ensures rest2 == [] ==> front[1..] + rest1 == Merged(c, d) && forall n <- front :: n !in rest1
    ensures NoRepeats(front) && front != [] && (|front| > 1 ==> front[|front| - 1] in c + d)
  {
  }

  /** Relinks the nodes of two lists that share none into the list of their merge. */
  method MergeSortedLists(h1: Node?<int>, h2: Node?<int>, ghost c: seq<Node<int>>, ghost d: seq<Node<int>>) returns (r: Node?<int>)
    requires IsList(h1, c) && IsList(h2, d) && Apart(c, d)
    modifies set n | n in c + d
    ensures IsList(r, Merged(c, d))
  {
    hide Merged, Apart, Linked, IsList, NoRepeats, Split;
    HeadOf(h1, c);
    HeadOf(h2, d);
    MergeStep(c, d);
    if h1 == null {
      return h2;
    }
    if h2 == null {
      return h1;
    }
    var a, b := h1, h2;
    ghost var rest1, rest2 := c, d;
    var dummy := new Node(-1);
    var tail: Node<int> := dummy;
    ghost var front := [dummy];
    SplitStarts(dummy, c, d);
    while true
      invariant rest1 != [] && rest2 != [] && IsList(a, rest1) && IsList(b, rest2)
      invariant Split(front, rest1, rest2, c, d) && Linked(front)
      invariant front != [] && front[0] == dummy && tail == front[|front| - 1]
      decreases |rest1| + |rest2|
    {
      SplitFacts(front, rest1, rest2, c, d);
      RestIsList(a, rest1);
      RestIsList(b, rest2);
      var min: Node<int>;
      if a.data < b.data {
        SplitTakesFirst(front, rest1, rest2, c, d);
        min := a;
        a := a.next;
        rest1 := rest1[1..];
      } else {
        SplitTakesSecond(front, rest1, rest2, c, d);
        min := b;
        b := b.next;
        rest2 := rest2[1..];
      }
      assert tail !in rest1 && tail !in rest2;
      Link(tail, min, front);
      tail := min;
      front := front + [min];
      assert IsList(a, rest1) && IsList(b, rest2);
      HeadOf(a, rest1);
      HeadOf(b, rest2);
      SplitEnds(front, rest1, rest2, c, d);
      if a == null {
        Finish(tail, b, front, rest2);
        break;
      }
      if b == null {
        Finish(tail, a, front, rest1);
        break;
      }
    }
    r := dummy.next;
  }

  /** Appends one node to the linked part. */
  method Link(tail: Node<int>, min: Node<int>, ghost front: seq<Node<int>>)
    requires front != [] && NoRepeats(front) && Linked(front) && tail == front[|front| - 1] && min !in front
    modifies tail`next
    ensures NoRepeats(front + [min]) && Linked(front + [min])
  {
    ghost var all := front + [min];
    tail.next := min;
    forall i {:trigger all[i].next} | 0 <= i < |all| - 1 ensures all[i].next == all[i + 1] {
      if i < |front| - 1 {
        assert front[i] != tail;
        assert front[i].next == front[i + 1];
      }
    }
  }

  /** Appends the rest of a list to the linked part. */
  method Finish(tail: Node<int>, head: Node?<int>, ghost front: seq<Node<int>>, ghost rest: seq<Node<int>>)
    requires front != [] && NoRepeats(front) && Linked(front) && tail == front[|front| - 1]
    requires IsList(head, rest) && forall n <- front :: n !in rest
    modifies tail`next
    ensures IsList(front[0], front + rest) && IsList(front[0].next, front[1..] + rest)
  {
    assert tail in front;
    assert forall i | 0 <= i < |rest| :: rest[i] != tail;
    tail.next := head;
    assert IsList(head, rest);
    forall i {:trigger front[i].next} | 0 <= i < |front| - 1 ensures front[i].next == front[i + 1] {
      assert front[i] != tail;
    }
    Joined(front[0], front, rest);
    RestIsList(front[0], front + rest);
    assert (front + rest)[1..] == front[1..] + rest;
  }
}

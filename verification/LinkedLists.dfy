/** Null-terminated linked lists, seen as the sequence of their nodes. */
module LinkedLists {

  class Node<T> {
    const data: T
    var next: Node?<T>

    constructor (data: T)
      ensures this.data == data && next == null
    {
      this.data, next := data, null;
    }
  }

  /** `head` starts the null-terminated list of exactly the nodes `c`, in order. */
  ghost predicate IsList<T>(head: Node?<T>, c: seq<Node<T>>)
    reads c
  {
    && head == (if c == [] then null else c[0])
    && forall i {:trigger c[i].next} | 0 <= i < |c| :: c[i].next == if i + 1 < |c| then c[i + 1] else null
  }

  ghost predicate NoRepeats<T>(c: seq<T>) {
    forall i, j | 0 <= i < j < |c| :: c[i] != c[j]
  }

  lemma HeadOf<T>(head: Node?<T>, c: seq<Node<T>>)
    requires IsList(head, c)
    ensures head == null <==> c == []
    ensures c != [] ==> head == c[0]
  {
  }

  lemma RestIsList<T>(head: Node?<T>, c: seq<Node<T>>)
    requires IsList(head, c) && (head != null || c != [])
    ensures c != [] && head == c[0] && IsList(c[0].next, c[1..])
  {
    var d := c[1..];
    assert c[0].next == if 1 < |c| then c[1] else null;
    forall i {:trigger d[i].next} | 0 <= i < |d| ensures d[i].next == if i + 1 < |d| then d[i + 1] else null {
      assert c[i + 1].next == if i + 2 < |c| then c[i + 2] else null;
    }
  }

  lemma FrontIsList<T>(head: Node<T>, c: seq<Node<T>>)
    requires head !in c && IsList(head.next, c)
    ensures IsList(head, [head] + c)
  {
    var d := [head] + c;
    forall i {:trigger d[i].next} | 0 <= i < |d| ensures d[i].next == if i + 1 < |d| then d[i + 1] else null {
      if i > 0 {
        assert c[i - 1].next == if i < |c| then c[i] else null;
      }
    }
  }

  /** Without repetitions the head does not come again. */
  lemma RestNoRepeats<T>(c: seq<T>)
    requires NoRepeats(c) && c != []
    ensures c[0] !in c[1..] && NoRepeats(c[1..])
    ensures forall e :: e in c <==> e == c[0] || e in c[1..]
  {
  }
}

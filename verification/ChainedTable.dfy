/** The chained hash table with load phases; `_rehash` relinks the entries it has (hash_table/immutable_hash_table.h). */
module ChainedTable {
  import opened Buckets
  import opened LinkedLists

  datatype Pair<K, V> = Pair(key: K, val: V)

  /** A table entry: a pair with a link to the next entry of its chain. */
  type Entry<K, V> = Node<Pair<K, V>>

  function BucketOf<K>(hash: K -> Size, size: nat, key: K): nat
    requires size > 0
  {
    And(hash(key), size - 1)
  }

  /** The chains hold exactly the entries `nodes`, each once, in the bucket of its key. */
  ghost predicate Partition<K, V>(hash: K -> Size, chains: seq<seq<Entry<K, V>>>, nodes: set<Entry<K, V>>) {
    && |chains| > 0
    && (forall b, e | 0 <= b < |chains| && e in chains[b] :: e in nodes && BucketOf(hash, |chains|, e.data.key) == b)
    && (forall e <- nodes :: BucketOf(hash, |chains|, e.data.key) < |chains| && e in chains[BucketOf(hash, |chains|, e.data.key)])
    && forall b | 0 <= b < |chains| :: NoRepeats(chains[b])
  }

  /** No two entries share a key, and the map has exactly their pairs. */
  ghost predicate Represents<K, V>(nodes: set<Entry<K, V>>, contents: map<K, V>) {
    && (forall e, f | e in nodes && f in nodes && e.data.key == f.data.key :: e == f)
    && (forall e <- nodes :: e.data.key in contents && contents[e.data.key] == e.data.val)
    && forall k <- contents :: exists e <- nodes :: e.data.key == k
  }

  // ---------------------------------------------------------------- the table as a map

  /** What the table means between two calls. */
  datatype View<K, V> = View(loading: bool, contents: map<K, V>)

  datatype Op<K, V> = BeginLoading | EndLoading | Insert(key: K, val: V)

  function Apply<K, V>(v: View<K, V>, op: Op<K, V>): View<K, V> {
    match op
    case BeginLoading => View(true, map[])
    case EndLoading => v.(loading := false)
    case Insert(key, val) =>
      if v.loading && key !in v.contents then v.(contents := v.contents[key := val]) else v
  }

  function Run<K, V>(ops: seq<Op<K, V>>): View<K, V> {
    if ops == [] then View(false, map[]) else Apply(Run(ops[..|ops| - 1]), ops[|ops| - 1])
  }

  /** After the first `n` calls a load has begun that no call has ended. */
  ghost predicate LoadOpen<K, V>(ops: seq<Op<K, V>>, n: nat)
    requires n <= |ops|
  {
    exists b | 0 <= b < n :: ops[b].BeginLoading? && forall e | b < e < n :: !ops[e].EndLoading?
  }

  /** Call `p` offers a pair to the last load: that load is open, and no other begins later. */
  ghost predicate Offers<K, V>(ops: seq<Op<K, V>>, p: nat)
    requires p < |ops|
  {
    ops[p].Insert? && LoadOpen(ops, p) && forall b | p < b < |ops| :: !ops[b].BeginLoading?
  }

  ghost function OfferedUpTo<K, V>(ops: seq<Op<K, V>>, n: nat): seq<(K, V)>
    requires n <= |ops|
  {
    if n == 0 then []
    else OfferedUpTo(ops, n - 1) + if Offers(ops, n - 1) then [(ops[n - 1].key, ops[n - 1].val)] else []
  }

  /** The pairs offered to the last load, in order. */
  ghost function Offered<K, V>(ops: seq<Op<K, V>>): seq<(K, V)> {
    OfferedUpTo(ops, |ops|)
  }

  /** The table is loading exactly while a load is open. */
  lemma {:induction false} LoadingExactly<K, V>(ops: seq<Op<K, V>>)
    ensures Run(ops).loading <==> LoadOpen(ops, |ops|)
  {
    if ops != [] {
      var n := |ops| - 1;
      LoadingExactly(ops[..n]);
      LoadOpenPrefix(ops, n, n);
      match ops[n]
      case BeginLoading => assert ops[n].BeginLoading?;
      case EndLoading =>
      case Insert(_, _) => LoadOpenKept(ops, n);
    }
  }

  lemma LoadOpenPrefix<K, V>(ops: seq<Op<K, V>>, m: nat, n: nat)
    requires n <= m <= |ops|
    ensures LoadOpen(ops[..m], n) <==> LoadOpen(ops, n)
  {
    if b :| 0 <= b < n && ops[b].BeginLoading? && forall e | b < e < n :: !ops[e].EndLoading? {
      assert ops[..m][b].BeginLoading?;
    }
    if b :| 0 <= b < n && ops[..m][b].BeginLoading? && forall e | b < e < n :: !ops[..m][e].EndLoading? {
      assert ops[b].BeginLoading?;
      assert forall e | b < e < n :: ops[e] == ops[..m][e];
    }
  }

  lemma LoadOpenKept<K, V>(ops: seq<Op<K, V>>, n: nat)
    requires n < |ops| && ops[n].Insert?
    ensures LoadOpen(ops, n + 1) <==> LoadOpen(ops, n)
  {
  }

  /** A call that begins no load leaves the earlier offers what they are; one that does takes them all back. */
  lemma {:induction false} OffersBefore<K, V>(ops: seq<Op<K, V>>, n: nat)
    requires n < |ops|
    ensures var before := ops[..|ops| - 1];
            OfferedUpTo(ops, n) == if ops[|ops| - 1].BeginLoading? then [] else OfferedUpTo(before, n)
  {
    if n > 0 {
      var before := ops[..|ops| - 1];
      OffersBefore(ops, n - 1);
      LoadOpenPrefix(ops, |ops| - 1, n - 1);
      assert Offers(ops, n - 1) <==> !ops[|ops| - 1].BeginLoading? && Offers(before, n - 1) by {
        assert forall b | n - 1 < b < |before| :: before[b] == ops[b];
      }
    }
  }

  /** The map of a list of pairs in which the first pair of a key counts. */
  ghost function FirstOf<K, V>(pairs: seq<(K, V)>): map<K, V> {
    if pairs == [] then map[]
    else
      var before, p := FirstOf(pairs[..|pairs| - 1]), pairs[|pairs| - 1];
      if p.0 in before then before else before[p.0 := p.1]
  }

  lemma {:induction false} FirstOfKeys<K, V>(pairs: seq<(K, V)>, k: K)
    ensures k in FirstOf(pairs) <==> exists i | 0 <= i < |pairs| :: pairs[i].0 == k
  {
    if pairs != [] {
      var n := |pairs| - 1;
      FirstOfKeys(pairs[..n], k);
      if i :| 0 <= i < n && pairs[i].0 == k {
        assert pairs[..n][i].0 == k;
      }
    }
  }

  lemma {:induction false} FirstOfValues<K, V>(pairs: seq<(K, V)>, i: nat)
    requires i < |pairs| && forall j | 0 <= j < i :: pairs[j].0 != pairs[i].0
    ensures pairs[i].0 in FirstOf(pairs) && FirstOf(pairs)[pairs[i].0] == pairs[i].1
  {
    var n := |pairs| - 1;
    if i < n {
      FirstOfValues(pairs[..n], i);
    } else {
      FirstOfKeys(pairs[..n], pairs[i].0);
    }
  }

  /** What one more call does to the offers. */
  lemma OfferedGrows<K, V>(ops: seq<Op<K, V>>)
    requires ops != []
    ensures var before, op := ops[..|ops| - 1], ops[|ops| - 1];
            Offered(ops) ==
            match op
            case BeginLoading => []
            case EndLoading => Offered(before)
            case Insert(key, val) => if LoadOpen(before, |before|) then Offered(before) + [(key, val)] else Offered(before)
  {
    hide LoadOpen;
    var n := |ops| - 1;
    OffersBefore(ops, n);
    LoadOpenPrefix(ops, n, n);
    assert Offers(ops, n) <==> ops[n].Insert? && LoadOpen(ops[..n], n);
    assert Offered(ops[..n]) + [] == Offered(ops[..n]);
  }

  lemma FirstOfOneMore<K, V>(pairs: seq<(K, V)>, p: (K, V))
    ensures var before := FirstOf(pairs);
            FirstOf(pairs + [p]) == if p.0 in before then before else before[p.0 := p.1]
  {
    assert (pairs + [p])[..|pairs|] == pairs;
  }

  /** After any sequence of calls the map has the keys offered to the last load, each with the value of its first offer. */
  lemma {:induction false} FirstOfferWins<K, V>(ops: seq<Op<K, V>>)
    ensures Run(ops).contents == FirstOf(Offered(ops))
  {
    hide LoadOpen, Offers, Offered, FirstOf;
    if ops == [] {
      NothingOffered<K, V>();
    } else {
      var before, op := ops[..|ops| - 1], ops[|ops| - 1];
      FirstOfferWins(before);
      OfferedGrows(ops);
      LoadingExactly(before);
      match op
      case BeginLoading => NothingOffered<K, V>();
      case EndLoading =>
      case Insert(key, val) => FirstOfOneMore(Offered(before), (key, val));
    }
  }

  lemma NothingOffered<K, V>()
    ensures Offered<K, V>([]) == [] && FirstOf<K, V>([]) == map[]
  {
  }

  // ---------------------------------------------------------------- the table

  class ImmutableHashTable<K(==, !new), V> {
    const hash: K -> Size
    var buckets: array<Node?<Pair<K, V>>>
    var size: nat
    var sizeMask: nat
    var used: nat
    var loading: bool
    ghost var chains: seq<seq<Entry<K, V>>>
    ghost var nodes: set<Entry<K, V>>
    ghost var contents: map<K, V>

    ghost predicate Valid()
      reads this, buckets, nodes
    {
      && IsPowerOf2(size) && INITIAL_SIZE <= size && sizeMask == size - 1 && size == |chains|
      && Partition(hash, chains, nodes)
      && buckets.Length == |chains| && (forall b | 0 <= b < |chains| :: IsList(buckets[b], chains[b]))
      && Represents(nodes, contents)
      && used == |contents| && used <= size
    }

    ghost function Abstract(): View<K, V>
      reads this
    {
      View(loading, contents)
    }

    constructor (size: nat, hash: K -> Size)
      requires size < LONG_MAX
      ensures Valid() && fresh(buckets) && this.hash == hash
      ensures Abstract() == Run([]) && size <= this.size
    {
      var n := NextPowerCapped(size);
      this.hash, this.size, used, sizeMask, loading := hash, n, 0, n - 1, false;
      buckets := new Node?<Pair<K, V>>[n](_ => null);
      chains, nodes, contents := seq(n, _ => []), {}, map[];
    }

    /** Outside a load, the entry of a key that is in the map; nothing otherwise. */
    method Find(key: K) returns (r: Node?<Pair<K, V>>)
      requires Valid()
      ensures r != null <==> !loading && key in contents
      ensures r != null ==> r in nodes && r.data.key == key && r.data.val == contents[key]
    {
      if loading || used == 0 {
        return null;
      }
      r := Search(key);
    }

    /** The scan of the key's chain. */
    method Search(key: K) returns (head: Node?<Pair<K, V>>)
      requires Valid()
      ensures head != null <==> key in contents
      ensures head != null ==> head in nodes && head.data.key == key && head.data.val == contents[key]
    {
      hide And, IsPowerOf2, Partition, Represents;
      ghost var h' := KeyInChain(key);
      var h := And(hash(key), sizeMask);
      head := buckets[h];
      ghost var chain, i := chains[h], 0;
      assert IsList(head, chain);
      while head != null
        invariant 0 <= i <= |chain| && head == if i < |chain| then chain[i] else null
        invariant IsList(buckets[h], chain) && forall j | 0 <= j < i :: chain[j].data.key != key
        decreases |chain| - i
      {
        if head.data.key == key {
          assert chain[i] in chain;
          return;
        }
        head := head.next;
        i := i + 1;
      }
    }

    /** A key is in the map exactly when an entry of its bucket's chain has it. */
    lemma KeyInChain(key: K) returns (h: nat)
      requires Valid()
      ensures h == And(hash(key), sizeMask) < |chains|
      ensures key in contents ==> exists e <- chains[h] :: e.data.key == key
      ensures forall e <- chains[h] :: e in nodes && e.data.key in contents && contents[e.data.key] == e.data.val
    {
      hide And, IsPowerOf2, IsList;
      MaskIsRemainder(hash(key), size);
      h := And(hash(key), sizeMask);
      if key in contents {
        var e :| e in nodes && e.data.key == key;
        assert e in chains[BucketOf(hash, |chains|, e.data.key)];
      }
    }

    // -------------------------------------------------------------- rehashing

    /** Puts `head` in front of the list of bucket `h`. */
    method Relink(head: Entry<K, V>, bs: array<Node?<Pair<K, V>>>, h: nat, ghost cs: seq<seq<Entry<K, V>>>)
      requires h < bs.Length == |cs| && forall b | 0 <= b < |cs| :: head !in cs[b]
      requires forall b | 0 <= b < |cs| :: IsList(bs[b], cs[b])
      modifies head, bs
      ensures forall b | 0 <= b < |cs| :: IsList(bs[b], cs[h := [head] + cs[h]][b])
    {
      assert IsList(bs[h], cs[h]);
      head.next := bs[h];
      bs[h] := head;
      forall b | 0 <= b < |cs| ensures IsList(bs[b], cs[h := [head] + cs[h]][b]) {
        if b == h {
          FrontIsList(head, cs[h]);
        }
      }
    }

    /** The inner loop: the entries of old bucket `i` are relinked, one by one, into the new buckets `bs`. */
    method MoveChain(i: nat, bs: array<Node?<Pair<K, V>>>, ghost cs0: seq<seq<Entry<K, V>>>, ghost moved0: set<Entry<K, V>>)
      returns (ghost cs: seq<seq<Entry<K, V>>>, ghost moved: set<Entry<K, V>>)
      requires Partition(hash, chains, nodes) && buckets.Length == |chains| && i < |chains| && bs != buckets
      requires IsPowerOf2(|cs0|) && bs.Length == |cs0| && sizeMask == |cs0| - 1
      requires Partition(hash, cs0, moved0) && (forall b | 0 <= b < |cs0| :: IsList(bs[b], cs0[b]))
      requires moved0 <= nodes && forall e <- nodes :: e in moved0 <==> BucketOf(hash, |chains|, e.data.key) < i
      requires forall j | i <= j < |chains| :: IsList(buckets[j], chains[j])
      modifies nodes, bs
      ensures |cs| == |cs0| && Partition(hash, cs, moved) && (forall b | 0 <= b < |cs| :: IsList(bs[b], cs[b]))
      ensures moved <= nodes && forall e <- nodes :: e in moved <==> BucketOf(hash, |chains|, e.data.key) < i + 1
      ensures forall j | i + 1 <= j < |chains| :: IsList(buckets[j], chains[j])
    {
      hide And, IsPowerOf2, Partition, IsList, NoRepeats;
      cs, moved := cs0, moved0;
      var head := buckets[i];
      ghost var rest := chains[i];
      PartitionFacts(hash, chains, nodes);
      HeadOf(head, rest);
      while head != null
        invariant IsList(head, rest) && NoRepeats(rest)
        invariant forall e <- rest :: e in nodes && BucketOf(hash, |chains|, e.data.key) == i
        invariant |cs| == |cs0| && Partition(hash, cs, moved) && (forall b | 0 <= b < |cs| :: IsList(bs[b], cs[b]))
        invariant moved <= nodes
        invariant forall e <- nodes ::
            e in moved <==> BucketOf(hash, |chains|, e.data.key) < i || (BucketOf(hash, |chains|, e.data.key) == i && e !in rest)
        invariant forall j | i + 1 <= j < |chains| :: IsList(buckets[j], chains[j])
        decreases |rest|
      {
        MaskIsRemainder(hash(head.data.key), |cs|);
        var h := And(hash(head.data.key), sizeMask);
        var next := head.next;
        RestIsList(head, rest);
        RestNoRepeats(rest);
        PartitionGrows(hash, cs, moved, head);
        PartitionFacts(hash, cs, moved);
        Relink(head, bs, h, cs);
        cs, moved := cs[h := [head] + cs[h]], moved + {head};
        head, rest := next, rest[1..];
      }
      HeadOf(head, rest);
    }

    lemma NoneMoved(bs: array<Node?<Pair<K, V>>>, cs: seq<seq<Entry<K, V>>>)
      requires bs.Length == |cs| > 0 && forall b | 0 <= b < |cs| :: bs[b] == null && cs[b] == []
      ensures Partition(hash, cs, {}) && forall b | 0 <= b < |cs| :: IsList(bs[b], cs[b])
    {
    }

    /** Relinks all entries into as many buckets as `target` asks for: the map, the entries and their number stay. */
    method Rehash(target: nat) returns (ret: bool)
      requires Valid() && used <= target < LONG_MAX
      modifies this, nodes
      ensures Valid() && nodes == old(nodes) && contents == old(contents) && loading == old(loading)
      ensures target <= size && (size == INITIAL_SIZE || size < 2 * target)
      ensures ret <==> size != old(size)
      ensures buckets == old(buckets) || fresh(buckets)
    {
      hide And, IsPowerOf2, Represents, Partition, IsList;
      var n := NextPowerCapped(target);
      if n == size {
        return false;
      }
      sizeMask := n - 1;
      var bs := new Node?<Pair<K, V>>[n](_ => null);
      ghost var cs, moved := seq(n, _ => []), {};
      NoneMoved(bs, cs);
      for i := 0 to size
        invariant sizeMask == n - 1 && bs.Length == |cs| == n && fresh(bs)
        invariant size == old(size) && buckets == old(buckets) && chains == old(chains) && nodes == old(nodes)
        invariant contents == old(contents) && used == old(used) && loading == old(loading)
        invariant Partition(hash, cs, moved) && (forall b | 0 <= b < |cs| :: IsList(bs[b], cs[b]))
        invariant moved <= nodes && forall e <- nodes :: e in moved <==> BucketOf(hash, |chains|, e.data.key) < i
        invariant forall j | i <= j < |chains| :: IsList(buckets[j], chains[j])
      {
        cs, moved := MoveChain(i, bs, cs, moved);
      }
      PartitionFacts(hash, chains, nodes);
      assert moved == nodes;
      size, buckets, chains := n, bs, cs;
      return true;
    }

    // -------------------------------------------------------------- the calls

    /** The loop of `_reset`. */
    method DropChains()
      requires buckets.Length == size
      modifies buckets
      ensures forall b | 0 <= b < size :: buckets[b] == null
    {
      for i := 0 to size
        invariant forall b | 0 <= b < i :: buckets[b] == null
      {
        buckets[i] := null;
      }
    }

    method BeginLoading()
      requires Valid()
      modifies this, buckets
      ensures Valid() && Abstract() == Apply(old(Abstract()), Op.BeginLoading)
      ensures loading && contents == map[]
      ensures size == old(size)
    {
      if used > 0 {
        DropChains();
        used, loading := 0, false;
      } else {
        forall b | 0 <= b < size ensures buckets[b] == null {
          EmptyBucket(b);
        }
      }
      ForgetAll();
      loading := true;
    }

    lemma EmptyBucket(b: nat)
      requires Valid() && used == 0 && b < size
      ensures buckets[b] == null
    {
      assert contents == map[];
      assert nodes == {};
      assert IsList(buckets[b], chains[b]);
      EmptyPartition(hash, chains, b);
    }

    /** The table without its entries. */
    ghost method ForgetAll()
      requires IsPowerOf2(size) && INITIAL_SIZE <= size && sizeMask == size - 1 && buckets.Length == size && used == 0
      requires forall b | 0 <= b < size :: buckets[b] == null
      modifies this`chains, this`nodes, this`contents
      ensures Valid() && contents == map[]
    {
      chains, nodes, contents := seq(size, _ => []), {}, map[];
    }

    /** Outside a load nothing happens; during a load a new key is added in front of its chain and a known one refused. */
    method Insert(key: K, val: V) returns (r: Node?<Pair<K, V>>)
      requires Valid() && 2 * used < LONG_MAX
      modifies this, buckets, nodes
      ensures Valid() && Abstract() == Apply(old(Abstract()), Op.Insert(key, val))
      ensures r == null <==> !old(loading) || key in old(contents)
      ensures loading == old(loading) && contents == if r == null then old(contents) else old(contents)[key := val]
      ensures r != null ==> fresh(r) && r in nodes && r.data.key == key && r.data.val == val
    {
      hide And, IsPowerOf2, Represents, Partition, IsList;
      if !loading {
        return null;
      }
      ExpandIfNeeded();
      var e := Search(key);
      if e != null {
        return null;
      }
      r := AddFront(key, val);
    }

    method AddFront(key: K, val: V) returns (entry: Entry<K, V>)
      requires Valid() && key !in contents && used < size
      modifies this, buckets
      ensures Valid() && contents == old(contents)[key := val] && loading == old(loading) && nodes == old(nodes) + {entry}
      ensures fresh(entry) && entry.data.key == key && entry.data.val == val
    {
      hide And, IsPowerOf2, Represents, IsList, Partition, NoRepeats, BucketOf;
      BucketIsMasked(hash, size, key);
      var h := And(hash(key), sizeMask);
      entry := new Node(Pair(key, val));
      PartitionGrows(hash, chains, nodes, entry);
      PartitionFacts(hash, chains, nodes);
      RepresentsGrows(nodes, contents, entry);
      Relink(entry, buckets, h, chains);
      used := used + 1;
      chains, nodes, contents := chains[h := [entry] + chains[h]], nodes + {entry}, contents[key := val];
    }

    method ExpandIfNeeded()
      requires Valid() && 2 * used < LONG_MAX
      modifies this, nodes
      ensures Valid() && nodes == old(nodes) && contents == old(contents) && loading == old(loading)
      ensures buckets == old(buckets) || fresh(buckets)
      ensures used < size
    {
      if used >= size {
        var _ := Rehash(used * 2);
      }
    }

    /** Ends the load; the table is left less than four times as large as its entries, or of the initial size. */
    method EndLoading()
      requires Valid() && 2 * used < LONG_MAX
      modifies this, nodes
      ensures Valid() && Abstract() == Apply(old(Abstract()), Op.EndLoading) && nodes == old(nodes)
      ensures !loading && contents == old(contents)
      ensures size == INITIAL_SIZE || size < 4 * used
    {
      hide And, IsPowerOf2, Represents, Partition, IsList;
      ShrinkIfNeeded();
      loading := false;
    }

    method ShrinkIfNeeded()
      requires Valid() && 2 * used < LONG_MAX
      modifies this, nodes
      ensures Valid() && nodes == old(nodes) && contents == old(contents) && loading == old(loading)
      ensures size == INITIAL_SIZE || size < 4 * used
    {
      if used * 2 < size {
        var _ := Rehash(used * 2);
      }
    }
  }

  lemma BucketIsMasked<K>(hash: K -> Size, size: nat, key: K)
    requires IsPowerOf2(size) && size > 0
    ensures And(hash(key), size - 1) == BucketOf(hash, size, key) < size
  {
    MaskIsRemainder(hash(key), size);
  }

  lemma RepresentsGrows<K, V>(nodes: set<Entry<K, V>>, contents: map<K, V>, e: Entry<K, V>)
    requires Represents(nodes, contents) && e.data.key !in contents
    ensures e !in nodes && Represents(nodes + {e}, contents[e.data.key := e.data.val])
  {
    var more := contents[e.data.key := e.data.val];
    forall k | k in more ensures exists f <- nodes + {e} :: f.data.key == k {
      if k == e.data.key {
        assert e in nodes + {e};
      } else {
        var f :| f in nodes && f.data.key == k;
        assert f in nodes + {e};
      }
    }
  }

  lemma SomeMember<T>(c: seq<T>, s: set<T>)
    requires forall i | 0 <= i < |c| :: c[i] in s
    ensures c != [] ==> s != {}
  {
    if c != [] {
      assert c[0] in s;
    }
  }

  lemma EmptyPartition<K, V>(hash: K -> Size, chains: seq<seq<Entry<K, V>>>, b: nat)
    requires Partition(hash, chains, {}) && b < |chains|
    ensures chains[b] == []
  {
    var none: set<Entry<K, V>> := {};
    PartitionFacts(hash, chains, none);
    var c := chains[b];
    forall i | 0 <= i < |c| ensures c[i] in none {
      assert c[i] in chains[b];
    }
    SomeMember(c, none);
  }

  /** The partition, read off its definition. */
  lemma PartitionFacts<K, V>(hash: K -> Size, chains: seq<seq<Entry<K, V>>>, nodes: set<Entry<K, V>>)
    requires Partition(hash, chains, nodes)
    ensures forall e <- nodes :: BucketOf(hash, |chains|, e.data.key) < |chains| && e in chains[BucketOf(hash, |chains|, e.data.key)]
    ensures forall b | 0 <= b < |chains| :: NoRepeats(chains[b])
    ensures forall b, e | 0 <= b < |chains| && e in chains[b] :: e in nodes && BucketOf(hash, |chains|, e.data.key) == b
  {
  }

  /** One more entry at the front of its bucket. */
  lemma PartitionGrows<K(!new), V>(hash: K -> Size, chains: seq<seq<Entry<K, V>>>, nodes: set<Entry<K, V>>, e: Entry<K, V>)
    requires Partition(hash, chains, nodes) && e !in nodes
    requires BucketOf(hash, |chains|, e.data.key) < |chains|
    ensures var b := BucketOf(hash, |chains|, e.data.key);
            Partition(hash, chains[b := [e] + chains[b]], nodes + {e})
  {
    var b := BucketOf(hash, |chains|, e.data.key);
    var more := chains[b := [e] + chains[b]];
    forall f | f in nodes + {e} ensures f in more[BucketOf(hash, |chains|, f.data.key)] {
    }
    assert e !in chains[b];
    assert NoRepeats(chains[b]);
    assert NoRepeats(more[b]);
  }
}

/** The typed bucket-sorted table, whose cursor stays put when a record already stands on it
    (hash_table/internal_storage/immutable_hash_table.h). */
module LazyHashTable {
  import opened Buckets
  import opened LinearSearch
  import opened Wrappers

  // ---------------------------------------------------------------- what a lookup means

  ghost function ByKey<K, V>(key: K): ((K, V)) -> bool {
    (kv: (K, V)) => kv.0 == key
  }

  ghost predicate DistinctKeys<K, V>(kvs: seq<(K, V)>) {
    forall p, q | 0 <= p < q < |kvs| :: kvs[p].0 != kvs[q].0
  }

  // ---------------------------------------------------------------- the permutation loop

  ghost function BucketsOf<K(!new), V>(hash: K -> Size, mask: nat, kvs: seq<(K, V)>): (hs: seq<nat>)
    ensures |hs| == |kvs|
  {
    seq<nat>(|kvs|, p requires 0 <= p < |kvs| => And(hash(kvs[p].0), mask))
  }

  lemma BucketsOfSwapped<K(!new), V>(hash: K -> Size, mask: nat, kvs: seq<(K, V)>, i: nat, j: nat)
    requires i < |kvs| && j < |kvs|
    ensures BucketsOf(hash, mask, Swapped(kvs, i, j)) == Swapped(BucketsOf(hash, mask, kvs), i, j)
  {
  }

  lemma BucketsBounded<K(!new), V>(hash: K -> Size, mask: nat, kvs: seq<(K, V)>)
    requires IsPowerOf2(mask + 1)
    ensures forall p | 0 <= p < |kvs| :: BucketsOf(hash, mask, kvs)[p] < mask + 1
  {
    forall p | 0 <= p < |kvs| ensures BucketsOf(hash, mask, kvs)[p] < mask + 1 {
      MaskIsRemainder(hash(kvs[p].0), mask + 1);
    }
  }

  /** The loop at `i`: every earlier position lies in its own bucket's range, though possibly past the cursor. */
  ghost predicate Sorting(hs: seq<nat>, curs: seq<nat>, size: nat, i: nat, placed: set<nat>) {
    && i <= |hs| && AllFilled(hs, curs, size) && Placed(hs, curs, placed)
    && forall p: nat | p < i :: InBucket(multiset(hs), hs[p], p)
  }

  lemma SortingStarts(hs: seq<nat>, curs: seq<nat>, size: nat)
    requires size <= |curs| && forall p | 0 <= p < |hs| :: hs[p] < size
    requires forall h: nat | h < size :: curs[h] == Start(multiset(hs), h)
    ensures Sorting(hs, curs, size, 0, {})
  {
    StartCovers(hs, size);
    forall h: nat | h < size ensures Filled(hs, curs, h) {
      StartGrows(multiset(hs), h, size);
    }
  }

  /** A record up to and including its bucket's cursor is in place. */
  lemma SortingPasses(hs: seq<nat>, curs: seq<nat>, size: nat, i: nat, placed: set<nat>)
    requires Sorting(hs, curs, size, i, placed) && i < |hs| && Start(multiset(hs), hs[i]) <= i <= curs[hs[i]]
    ensures Sorting(hs, curs, size, i + 1, placed)
  {
    if i < curs[hs[i]] {
      CursorInBucket(hs, curs, size, hs[i], i);
    } else {
      assert Filled(hs, curs, hs[i]);
      RoomInBucket(hs, hs[i], i, i);
    }
  }

  /** Any other record goes to its bucket's cursor: a position of the bucket that was never a target. It may have
      been passed already; then it holds a record of the same bucket, so everything passed stays in its range. */
  lemma SortingSwaps(hs: seq<nat>, curs: seq<nat>, size: nat, i: nat, placed: set<nat>)
      returns (t: nat, hs': seq<nat>, curs': seq<nat>, placed': set<nat>)
    requires Sorting(hs, curs, size, i, placed) && i < |hs| && hs[i] < |curs|
    requires i < Start(multiset(hs), hs[i]) || curs[hs[i]] < i
    ensures t == curs[hs[i]] && InBucket(multiset(hs), hs[i], t) && t < |hs| && t !in placed
    ensures t < i ==> hs[t] == hs[i]
    ensures hs' == Swapped(hs, i, t) && curs' == curs[hs[i] := t + 1] && placed' == placed + {t}
    ensures multiset(hs') == multiset(hs) && Sorting(hs', curs', size, i, placed') && |placed| + 1 == |placed'| <= |hs|
  {
    hide Filled, Placed, Start, InBucket;
    t := curs[hs[i]];
    CursorIsFree(hs, curs, size, i, placed);
    SwapFills(hs, curs, size, i);
    SwapPlaces(hs, curs, size, i, placed);
    SwapKeepsAll(hs, i, t);
    hs', curs', placed' := Swapped(hs, i, t), curs[hs[i] := t + 1], placed + {t};
    if t < i {
      BucketUnique(multiset(hs), hs[i], hs[t], t);
    }
    PlacedBounded(hs', curs', placed');
  }

  lemma SortingEnds(hs: seq<nat>, curs: seq<nat>, size: nat, placed: set<nat>)
    requires Sorting(hs, curs, size, |hs|, placed)
    ensures Grouped(hs)
  {
  }

  // ---------------------------------------------------------------- the table

  class ImmutableHashTable<K(==, !new), V> {
    const hash: K -> Size
    var table: array<(K, V)>
    var indexes: array<nat>
    var sizeMask: nat
    ghost const loaded: seq<(K, V)>

    ghost function Hashes(): (hs: seq<nat>)
      reads this, table
      ensures |hs| == table.Length
    {
      BucketsOf(hash, sizeMask, table[..])
    }

    /** Sorted: the entries are those given, grouped by bucket, and `indexes` holds the bucket starts. */
    ghost predicate Valid()
      reads this, table, indexes
    {
      && multiset(table[..]) == multiset(loaded)
      && IsPowerOf2(sizeMask + 1) && indexes.Length == sizeMask + 1
      && Grouped(Hashes())
      && forall h: nat | h <= sizeMask :: indexes[h] == Start(multiset(Hashes()), h)
    }

    /** Takes over `kvs` and sorts it by bucket in place. */
    constructor (kvs: array<(K, V)>, hash: K -> Size)
      requires kvs.Length < LONG_MAX
      modifies kvs
      ensures Valid() && this.hash == hash && table == kvs && loaded == old(kvs[..]) && fresh(indexes)
    {
      table, this.hash, loaded := kvs, hash, kvs[..];
      indexes, sizeMask := new nat[0], 0;
      new;
      Build();
    }

    /** The body of the constructor. */
    method Build()
      requires table.Length < LONG_MAX && multiset(table[..]) == multiset(loaded)
      modifies this`indexes, this`sizeMask, table
      ensures Valid() && fresh(indexes)
    {
      hide And, IsPowerOf2, BucketsOf, Grouped, Start, Sum;
      var nextPower := NextPowerCapped(table.Length);
      indexes := new nat[nextPower](_ => 0);
      sizeMask := nextPower - 1;
      CountCollisions();
      ghost var counts, all := indexes[..], multiset(Hashes());
      PrefixSums(indexes);
      forall h: nat | h <= sizeMask ensures indexes[h] == Start(all, h) {
        SumOfCounts(counts, all, h);
      }
      var swaps := Permute();
    }

    /** First loop: every bucket's cell becomes the number of its entries. */
    method CountCollisions()
      requires IsPowerOf2(sizeMask + 1) && indexes.Length == sizeMask + 1
      requires forall h | 0 <= h < indexes.Length :: indexes[h] == 0
      modifies indexes
      ensures forall h | 0 <= h < indexes.Length :: indexes[h] == multiset(Hashes())[h]
    {
      hide And, IsPowerOf2;
      ghost var hs := Hashes();
      BucketsBounded(hash, sizeMask, table[..]);
      for i := 0 to table.Length
        invariant forall h | 0 <= h < indexes.Length :: indexes[h] == multiset(hs[..i])[h]
      {
        var h := And(hash(table[i].0), sizeMask);
        assert h == hs[i];
        indexes[h] := indexes[h] + 1;
        assert hs[..i + 1] == hs[..i] + [h];
      }
      assert hs[..table.Length] == hs;
    }

    method SwapEntries(i: nat, j: nat)
      requires i < table.Length && j < table.Length
      modifies table
      ensures table[..] == Swapped(old(table[..]), i, j) && Hashes() == Swapped(old(Hashes()), i, j)
    {
      BucketsOfSwapped(hash, sizeMask, table[..], i, j);
      table[i], table[j] := table[j], table[i];
    }

    /** Third loop: at most one swap per entry, and no entry is lost. */
    method Permute() returns (ghost swaps: nat)
      requires IsPowerOf2(sizeMask + 1) && indexes.Length == sizeMask + 1
      requires forall h: nat | h <= sizeMask :: indexes[h] == Start(multiset(Hashes()), h)
      modifies table
      ensures multiset(table[..]) == multiset(old(table[..])) && multiset(Hashes()) == multiset(old(Hashes()))
      ensures Grouped(Hashes())
      ensures swaps <= table.Length
    {
      hide And, IsPowerOf2, BucketsOf, Filled, Placed, AllFilled, InBucket, Swapped, Start, Sorting, Grouped;
      ghost var entries := table[..];
      var curs := CopyOf(indexes);
      ghost var hs, cs, all, size, placed := Hashes(), indexes[..], multiset(Hashes()), sizeMask + 1, {};
      BucketsBounded(hash, sizeMask, table[..]);
      SortingStarts(hs, cs, size);
      swaps := 0;
      var i := 0;
      while i < table.Length
        invariant table[..] == entries && multiset(entries) == multiset(old(table[..]))
        invariant Hashes() == hs && multiset(hs) == all
        invariant curs[..] == cs && 0 <= i <= table.Length && Sorting(hs, cs, size, i, placed)
        invariant swaps == |placed| <= table.Length
        decreases table.Length - swaps, table.Length - i
      {
        BucketsBounded(hash, sizeMask, table[..]);
        var h := And(hash(table[i].0), sizeMask);
        assert h == hs[i] by { HashAt(i); }
        var cur, start := curs[h], indexes[h];
        if i >= start && i <= cur {
          SortingPasses(hs, cs, size, i, placed);
          i := i + 1;
        } else {
          ghost var t, hs', cs', placed' := SortingSwaps(hs, cs, size, i, placed);
          SwapKeepsAll(entries, i, cur);
          SwapEntries(i, cur);
          curs[h] := cur + 1;
          entries, hs, cs, placed := Swapped(entries, i, cur), hs', cs', placed';
          swaps := swaps + 1;
        }
      }
      SortingEnds(hs, cs, size, placed);
    }

    lemma HashAt(i: nat)
      requires i < table.Length
      ensures And(hash(table[i].0), sizeMask) == Hashes()[i]
    {
    }

    /** An entry with the key, or nothing when none was given; with distinct keys, what a linear scan finds. */
    method Find(key: K) returns (r: Option<(K, V)>)
      requires Valid()
      ensures r.None? <==> LinearFind(loaded, ByKey(key)).None?
      ensures r.None? <==> forall kv <- loaded :: kv.0 != key
      ensures r.Some? ==> r.value.0 == key && r.value in loaded
      ensures DistinctKeys(loaded) ==> r == LinearFind(loaded, ByKey(key))
    {
      hide And, IsPowerOf2, BucketsOf, Grouped;
      MaskIsRemainder(hash(key), sizeMask + 1);
      var h := And(hash(key), sizeMask);
      var s, e := indexes[h], if h == sizeMask then table.Length else indexes[h + 1];
      StartWithin(h);
      ghost var begin := s;
      LinearFindNone(loaded, ByKey(key));
      while s < e
        invariant begin <= s <= e
        invariant forall p | begin <= p < s :: table[p].0 != key
      {
        if table[s].0 == key {
          assert table[s] in multiset(loaded) && ByKey(key)(table[s]);
          if DistinctKeys(loaded) {
            LinearFindUnique(loaded, ByKey(key), table[s]);
          }
          return Some(table[s]);
        }
        s := s + 1;
      }
      forall kv | kv in loaded ensures !ByKey(key)(kv) {
        assert kv in multiset(table[..]);
        var p: nat :| p < table.Length && table[p] == kv;
        if kv.0 == key {
          KeyInBucket(p);
        }
      }
      return None;
    }

    lemma StartWithin(h: nat)
      requires Valid() && h <= sizeMask
      ensures Start(multiset(Hashes()), h) <= Start(multiset(Hashes()), h + 1) <= table.Length
      ensures h == sizeMask ==> Start(multiset(Hashes()), h + 1) == table.Length
    {
      BucketsBounded(hash, sizeMask, table[..]);
      StartCovers(Hashes(), sizeMask + 1);
      StartGrows(multiset(Hashes()), h + 1, sizeMask + 1);
    }

    lemma KeyInBucket(p: nat)
      requires Valid() && p < table.Length
      ensures InBucket(multiset(Hashes()), And(hash(table[p].0), sizeMask), p)
    {
      assert Hashes()[p] == And(hash(table[p].0), sizeMask);
    }
  }
}

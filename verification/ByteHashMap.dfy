/** Key/value records packed in one byte buffer, sorted in place by hash bucket
    (cannon/src/cannon/immutable_hash_map.cpp). */
module ByteHashMap {
  import opened Buckets
  import opened LinearSearch
  import opened Wrappers

  /** `int8_t`. */
  type Byte = b: int | -128 <= b < 128

  // ---------------------------------------------------------------- records of a buffer

  lemma RecordBounds(size: nat, p: nat, n: nat)
    requires p < n
    ensures 0 <= p * size <= p * size + size <= n * size
  {
    assert (p + 1) * size <= n * size;
  }

  /** Record `p` of a buffer of `n` records of `size` bytes. */
  function Record(t: seq<Byte>, size: nat, n: nat, p: nat): (r: seq<Byte>)
    requires p < n && |t| == n * size
    ensures |r| == size
  {
    RecordBounds(size, p, n);
    t[p * size..p * size + size]
  }

  function Records(t: seq<Byte>, size: nat, n: nat): (r: seq<seq<Byte>>)
    requires |t| == n * size
    ensures |r| == n && forall p | 0 <= p < n :: |r[p]| == size
  {
    seq(n, p requires 0 <= p < n => Record(t, size, n, p))
  }

  lemma RecordsApart(size: nat, p: nat, q: nat)
    requires p < q
    ensures p * size + size <= q * size
  {
    assert (p + 1) * size <= q * size;
  }

  lemma TwoRecords(size: nat, x: nat, y: nat, n: nat)
    requires x < n && y < n && x != y
    ensures 0 <= x * size <= x * size + size <= n * size && 0 <= y * size <= y * size + size <= n * size
    ensures x * size + size <= y * size || y * size + size <= x * size
  {
    RecordBounds(size, x, n);
    RecordBounds(size, y, n);
    if x < y { RecordsApart(size, x, y); } else { RecordsApart(size, y, x); }
  }

  /** Copying record `y` over `x` and the saved `x` over `y`, byte by byte, swaps the two records and nothing else. */
  lemma CopyIsSwap(before: seq<Byte>, after: seq<Byte>, size: nat, n: nat, x: nat, y: nat)
    requires |before| == |after| == n * size && x < n && y < n
    requires 0 <= x * size <= x * size + size <= n * size && 0 <= y * size <= y * size + size <= n * size
    requires after[x * size..x * size + size] == before[y * size..y * size + size]
    requires after[y * size..y * size + size] == before[x * size..x * size + size]
    requires forall b | 0 <= b < n * size && !(x * size <= b < x * size + size) && !(y * size <= b < y * size + size) ::
               after[b] == before[b]
    ensures Records(after, size, n) == Swapped(Records(before, size, n), x, y)
  {
    forall p: nat | p < n && p != x && p != y ensures Record(after, size, n, p) == Record(before, size, n, p) {
      OtherRecordKept(before, after, size, n, x, y, p);
    }
  }

  /** A record other than the two shares no byte with them. */
  lemma OtherRecordKept(before: seq<Byte>, after: seq<Byte>, size: nat, n: nat, x: nat, y: nat, p: nat)
    requires |before| == |after| == n * size && p < n && p != x && p != y
    requires forall b | 0 <= b < n * size && !(x * size <= b < x * size + size) && !(y * size <= b < y * size + size) ::
               after[b] == before[b]
    ensures Record(after, size, n, p) == Record(before, size, n, p)
  {
    RecordBounds(size, p, n);
    var from, xs, ys := p * size, x * size, y * size;
    assert from + size <= xs || xs + size <= from by {
      if p < x { RecordsApart(size, p, x); } else { RecordsApart(size, x, p); }
    }
    assert from + size <= ys || ys + size <= from by {
      if p < y { RecordsApart(size, p, y); } else { RecordsApart(size, y, p); }
    }
  }

  /** The bucket of every record. */
  ghost function BucketsOf(hash: seq<Byte> -> Size, mask: nat, keySize: nat, recs: seq<seq<Byte>>): (hs: seq<nat>)
    requires forall p | 0 <= p < |recs| :: keySize <= |recs[p]|
    ensures |hs| == |recs|
  {
    seq<nat>(|recs|, p requires 0 <= p < |recs| => And(hash(recs[p][..keySize]), mask))
  }

  lemma BucketsOfSwapped(hash: seq<Byte> -> Size, mask: nat, keySize: nat, recs: seq<seq<Byte>>, x: nat, y: nat)
    requires x < |recs| && y < |recs| && forall p | 0 <= p < |recs| :: keySize <= |recs[p]|
    ensures BucketsOf(hash, mask, keySize, Swapped(recs, x, y)) == Swapped(BucketsOf(hash, mask, keySize, recs), x, y)
  {
  }

  /** The loop at `i`: all earlier positions lie in the sorted part of their bucket. */
  ghost predicate Sorting(hs: seq<nat>, ends: seq<nat>, size: nat, i: nat, placed: set<nat>) {
    && i <= |hs| && AllFilled(hs, ends, size) && Placed(hs, ends, placed)
    && forall p | 0 <= p < i :: Start(multiset(hs), hs[p]) <= p < ends[hs[p]]
  }

  lemma SortingStarts(hs: seq<nat>, ends: seq<nat>, size: nat)
    requires size < |ends| && forall p | 0 <= p < |hs| :: hs[p] < size
    requires forall h: nat | h <= size :: ends[h] == Start(multiset(hs), h)
    ensures Sorting(hs, ends, size, 0, {})
  {
    StartCovers(hs, size);
    forall h: nat | h < size ensures Filled(hs, ends, h) {
      StartGrows(multiset(hs), h, size);
    }
  }

  /** The earlier positions all lie in the sorted part of their bucket, so no cursor is among them. */
  lemma NotPassed(hs: seq<nat>, ends: seq<nat>, size: nat, i: nat, placed: set<nat>)
    requires Sorting(hs, ends, size, i, placed) && i < |hs| && hs[i] < |ends|
    requires InBucket(multiset(hs), hs[i], ends[hs[i]]) && ends[hs[i]] < |hs|
    ensures i <= ends[hs[i]]
  {
    var t := ends[hs[i]];
    if t < i {
      CursorInBucket(hs, ends, size, hs[t], t);
      BucketUnique(multiset(hs), hs[i], hs[t], t);
    }
  }

  lemma PassedKept(hs: seq<nat>, ends: seq<nat>, size: nat, i: nat, t: nat)
    requires i <= t < |hs| && (forall p | 0 <= p < |hs| :: hs[p] < size <= |ends|) && t == ends[hs[i]]
    requires forall p | 0 <= p < i :: Start(multiset(hs), hs[p]) <= p < ends[hs[p]]
    ensures var hs', ends' := Swapped(hs, i, t), ends[hs[i] := t + 1];
            forall p | 0 <= p < i :: hs'[p] < |ends'| && Start(multiset(hs'), hs'[p]) <= p < ends'[hs'[p]]
  {
    SwapKeepsAll(hs, i, t);
  }

  /** A record outside the sorted part of its bucket: its target `t` is inside the bucket, not before `i`
      and never used before, and swapping it there keeps everything sorted so far. */
  lemma SortingSwaps(hs: seq<nat>, ends: seq<nat>, size: nat, i: nat, placed: set<nat>)
      returns (t: nat, hs': seq<nat>, ends': seq<nat>, placed': set<nat>)
    requires Sorting(hs, ends, size, i, placed) && i < |hs| && hs[i] < |ends|
    requires i < Start(multiset(hs), hs[i]) || ends[hs[i]] <= i
    ensures t == ends[hs[i]] && InBucket(multiset(hs), hs[i], t) && i <= t < |hs| && t !in placed
    ensures hs' == Swapped(hs, i, t) && ends' == ends[hs[i] := t + 1] && placed' == placed + {t}
    ensures multiset(hs') == multiset(hs) && Sorting(hs', ends', size, i, placed') && |placed| + 1 == |placed'| <= |hs|
  {
    hide Filled, Placed, Start, InBucket;
    t := ends[hs[i]];
    CursorIsFree(hs, ends, size, i, placed);
    NotPassed(hs, ends, size, i, placed);
    SwapFills(hs, ends, size, i);
    SwapPlaces(hs, ends, size, i, placed);
    SwapKeepsAll(hs, i, t);
    hs', ends', placed' := Swapped(hs, i, t), ends[hs[i] := t + 1], placed + {t};
    PassedKept(hs, ends, size, i, t);
    PlacedBounded(hs', ends', placed');
  }

  lemma SortingPasses(hs: seq<nat>, ends: seq<nat>, size: nat, i: nat, placed: set<nat>)
    requires Sorting(hs, ends, size, i, placed) && i < |hs| && Start(multiset(hs), hs[i]) <= i < ends[hs[i]]
    ensures Sorting(hs, ends, size, i + 1, placed)
  {
  }

  lemma SortingEnds(hs: seq<nat>, ends: seq<nat>, size: nat, placed: set<nat>)
    requires Sorting(hs, ends, size, |hs|, placed)
    ensures Grouped(hs)
  {
    forall p: nat | p < |hs| ensures InBucket(multiset(hs), hs[p], p) {
      CursorInBucket(hs, ends, size, hs[p], p);
    }
  }

  // ---------------------------------------------------------------- what a lookup means

  ghost predicate HasKey(rec: seq<Byte>, key: seq<Byte>) {
    |key| <= |rec| && rec[..|key|] == key
  }

  ghost function ByKey(key: seq<Byte>): seq<Byte> -> bool {
    rec => HasKey(rec, key)
  }

  ghost predicate DistinctKeys(recs: seq<seq<Byte>>, keySize: nat) {
    forall p, q | 0 <= p < q < |recs| && keySize <= |recs[p]| && keySize <= |recs[q]| ::
      recs[p][..keySize] != recs[q][..keySize]
  }

  // ---------------------------------------------------------------- the table

  class ImmutableHashMap {
    const keySize: nat
    const valueSize: nat
    const kvSize: nat
    const hash: seq<Byte> -> Size

    var kvCount: nat
    var hashMask: nat
    var table: array<Byte>
    var indexes: array<nat>
    ghost var loaded: seq<seq<Byte>>

    constructor (keySize: nat, valueSize: nat, hash: seq<Byte> -> Size)
      ensures Sized() && this.keySize == keySize && this.valueSize == valueSize && this.hash == hash
      ensures kvCount == 0 && indexes.Length == 0 && fresh(indexes) && forall count: nat :: NothingCounted(count)
    {
      this.keySize, this.valueSize, this.kvSize, this.hash := keySize, valueSize, keySize + valueSize, hash;
      kvCount, hashMask := 0, 0;
      table, indexes := new Byte[0], new nat[0];
    }

    ghost predicate Sized() {
      kvSize == keySize + valueSize
    }

    function BucketOf(key: seq<Byte>): nat
      reads this`hashMask
    {
      And(hash(key), hashMask)
    }

    ghost predicate WholeRecords()
      reads this
    {
      Sized() && table.Length == kvCount * kvSize
    }

    ghost function Recs(): (r: seq<seq<Byte>>)
      requires WholeRecords()
      reads this, table
      ensures |r| == kvCount && forall p | 0 <= p < kvCount :: |r[p]| == kvSize
    {
      Records(table[..], kvSize, kvCount)
    }

    /** The bucket of every record, in table order. */
    ghost function Hashes(): (hs: seq<nat>)
      requires WholeRecords()
      reads this, table
      ensures |hs| == kvCount
    {
      BucketsOf(hash, hashMask, keySize, Recs())
    }

    /** Loaded and sorted: the records are those loaded, grouped by bucket, and `indexes` holds the bucket starts. */
    ghost predicate Valid()
      reads this, table, indexes
    {
      && WholeRecords() && multiset(Recs()) == multiset(loaded)
      && IsPowerOf2(hashMask + 1) && indexes.Length == hashMask + 2
      && Grouped(Hashes())
      && forall h: nat | h <= hashMask + 1 :: indexes[h] == Start(multiset(Hashes()), h)
    }

    /** Exchanges two runs of bytes that do not overlap, through a copy of the first. */
    method SwapBytes(xp: nat, yp: nat, n: nat)
      requires xp + n <= table.Length && yp + n <= table.Length && (xp + n <= yp || yp + n <= xp)
      modifies table
      ensures table[xp..xp + n] == old(table[yp..yp + n]) && table[yp..yp + n] == old(table[xp..xp + n])
      ensures forall b | 0 <= b < table.Length && !(xp <= b < xp + n) && !(yp <= b < yp + n) :: table[b] == old(table[b])
    {
      var tmp := table[xp..xp + n];
      forall b | 0 <= b < n {
        table[xp + b] := table[yp + b];
      }
      forall b | 0 <= b < n {
        table[yp + b] := tmp[b];
      }
    }

    /** `memcpy` through a temporary record, seen on whole records. */
    method SwapKv(x: nat, y: nat)
      requires WholeRecords() && x < kvCount && y < kvCount
      modifies table
      ensures Recs() == Swapped(old(Recs()), x, y) && Hashes() == Swapped(old(Hashes()), x, y)
    {
      hide And, IsPowerOf2, BucketsOf, Records, Record, Swapped;
      if x == y {
        SwappedSame(Recs(), x);
        SwappedSame(Hashes(), x);
        return;
      }
      TwoRecords(kvSize, x, y, kvCount);
      ghost var before := table[..];
      SwapBytes(x * kvSize, y * kvSize, kvSize);
      CopyIsSwap(before, table[..], kvSize, kvCount, x, y);
      BucketsOfSwapped(hash, hashMask, keySize, Records(before, kvSize, kvCount), x, y);
    }

    /** The bucket computed from the bytes of record `r`. */
    lemma HashAt(r: nat)
      requires WholeRecords() && IsPowerOf2(hashMask + 1) && r < kvCount
      ensures 0 <= r * kvSize <= r * kvSize + kvSize <= table.Length
      ensures BucketOf(table[r * kvSize..r * kvSize + keySize]) == Hashes()[r] <= hashMask
    {
      RecordBounds(kvSize, r, kvCount);
      assert table[r * kvSize..r * kvSize + keySize] == Recs()[r][..keySize];
      MaskIsRemainder(hash(Recs()[r][..keySize]), hashMask + 1);
    }

    /** First loop: every bucket's cell grows by the number of its records. */
    method CountCollisions()
      requires WholeRecords() && kvSize > 0 && IsPowerOf2(hashMask + 1) && indexes.Length == hashMask + 2
      modifies indexes
      ensures forall h: nat | h <= hashMask :: indexes[h] == old(indexes[h]) + multiset(Hashes())[h]
    {
      hide Records, Record, IsPowerOf2, And, BucketsOf;
      var i := 0;
      ghost var r := 0;
      ghost var hs := Hashes();
      while i < table.Length
        invariant 0 <= r <= kvCount && i == r * kvSize
        invariant forall h: nat | h <= hashMask :: indexes[h] == old(indexes[h]) + multiset(hs[..r])[h]
        decreases kvCount - r
      {
        NextRecord(r);
        CountOne(i, r);
        assert hs[..r + 1] == hs[..r] + [hs[r]];
        i, r := i + kvSize, r + 1;
      }
      NextRecord(r);
      assert hs[..kvCount] == hs;
    }

    /** One record more in its bucket. */
    method CountOne(i: nat, ghost r: nat)
      requires WholeRecords() && IsPowerOf2(hashMask + 1) && indexes.Length == hashMask + 2
      requires r < kvCount && i == r * kvSize
      modifies indexes
      ensures Hashes()[r] <= hashMask
      ensures forall h: nat | h <= hashMask :: indexes[h] == old(indexes[h]) + if h == Hashes()[r] then 1 else 0
    {
      hide Records, Record, IsPowerOf2, And, BucketsOf;
      HashAt(r);
      var h := And(hash(table[i..i + keySize]), hashMask);
      indexes[h] := indexes[h] + 1;
    }

    /** Stepping by the record size visits the records. */
    lemma NextRecord(r: nat)
      requires WholeRecords() && kvSize > 0 && r <= kvCount
      ensures r * kvSize < table.Length <==> r < kvCount
      ensures (r + 1) * kvSize == r * kvSize + kvSize
    {
      if r < kvCount {
        RecordBounds(kvSize, r, kvCount);
      }
    }

    /** Third loop: the record at `i` is swapped to its bucket's cursor until it already lies in the sorted part
        of its bucket. It ends after at most one swap per record, and no record is lost. */
    method Permute() returns (ghost swaps: nat)
      requires WholeRecords() && IsPowerOf2(hashMask + 1) && indexes.Length == hashMask + 2
      requires forall h: nat | h <= hashMask + 1 :: indexes[h] == Start(multiset(Hashes()), h)
      modifies table
      ensures multiset(Recs()) == multiset(old(Recs())) && multiset(Hashes()) == multiset(old(Hashes()))
      ensures Grouped(Hashes())
      ensures swaps <= kvCount
    {
      hide Records, Record, IsPowerOf2, And, Filled, Placed, AllFilled, InBucket, Sorting, BucketsOf, Swapped, Start, Grouped;
      ghost var recs, hs, es := Recs(), Hashes(), indexes[..];
      var ends := CopyOf(indexes);
      ghost var first, all, size, placed := multiset(recs), multiset(hs), hashMask + 1, {};
      forall p | 0 <= p < kvCount ensures hs[p] < size {
        HashAt(p);
      }
      SortingStarts(hs, es, size);
      swaps := 0;
      var i := 0;
      while i < kvCount
        invariant Recs() == recs && multiset(recs) == first
        invariant Hashes() == hs && multiset(hs) == all
        invariant ends[..] == es && 0 <= i <= kvCount && Sorting(hs, es, size, i, placed)
        invariant swaps == |placed| <= kvCount
        decreases kvCount - swaps, kvCount - i
      {
        HashAt(i);
        var xp := i * kvSize;
        var h := And(hash(table[xp..xp + keySize]), hashMask);
        var begin, end := indexes[h], ends[h];
        if i >= begin && i < end {
          SortingPasses(hs, es, size, i, placed);
          i := i + 1;
        } else {
          placed := Place(i, h, ends, placed);
          recs, hs, es := Recs(), Hashes(), ends[..];
          swaps := swaps + 1;
        }
      }
      SortingEnds(hs, es, size, placed);
    }

    /** One swap of the third loop: the record at `i` goes to the cursor of its bucket `h`. */
    method Place(i: nat, h: nat, ends: array<nat>, ghost placed: set<nat>) returns (ghost placed': set<nat>)
      requires WholeRecords() && i < kvCount && h == Hashes()[i] < ends.Length
      requires Sorting(Hashes(), ends[..], hashMask + 1, i, placed)
      requires i < Start(multiset(Hashes()), h) || ends[h] <= i
      modifies table, ends
      ensures old(ends[h]) < kvCount && Recs() == Swapped(old(Recs()), i, old(ends[h]))
      ensures ends[..] == old(ends[..])[h := old(ends[h]) + 1]
      ensures multiset(Recs()) == multiset(old(Recs())) && multiset(Hashes()) == multiset(old(Hashes()))
      ensures Sorting(Hashes(), ends[..], hashMask + 1, i, placed') && |placed| + 1 == |placed'| <= kvCount
    {
      hide Records, Record, IsPowerOf2, And, Filled, Placed, AllFilled, InBucket, Sorting, BucketsOf, Swapped, Start, Grouped;
      ghost var es := ends[..];
      ghost var t, hs', es', placed'' := SortingSwaps(Hashes(), es, hashMask + 1, i, placed);
      SwapKeepsAll(Recs(), i, t);
      var end := ends[h];
      SwapKv(i, end);
      ends[h] := end + 1;
      assert ends[..] == es';
      placed' := placed'';
    }

    /** `_indexes.resize(size, 0)`: cells that were there keep their value. */
    method ResizeIndexes(size: nat)
      modifies this`indexes
      ensures fresh(indexes) && indexes.Length == size
      ensures forall h | 0 <= h < size :: indexes[h] == if h < old(indexes.Length) then old(indexes[h]) else 0
    {
      var cells := new nat[size];
      for h := 0 to size
        invariant indexes == old(indexes)
        invariant forall g | 0 <= g < h :: cells[g] == if g < indexes.Length then indexes[g] else 0
      {
        cells[h] := if h < indexes.Length then indexes[h] else 0;
      }
      indexes := cells;
    }

    /** The cells that counting starts from are zero: new ones are, so this is about those that `resize` keeps. */
    ghost predicate NothingCounted(count: nat)
      reads this`indexes, indexes
    {
      forall size: nat | IsHashSize(size, count) :: AllZero(indexes[..], if size < indexes.Length then size else indexes.Length)
    }

    /** Takes over a buffer of whole records and sorts it by bucket. The cells it counts in must be zero, as on a map
        that was not loaded before: see `StaleCellsShiftBuckets`. */
    method LoadKvs(kvs: array<Byte>)
      requires Sized() && kvSize > 0 && kvs.Length % kvSize == 0 && kvs.Length / kvSize <= LONG_MAX + 1
      requires NothingCounted(kvs.Length / kvSize)
      modifies this, kvs
      ensures Valid() && table == kvs && fresh(indexes)
      ensures kvCount * kvSize == kvs.Length && loaded == Records(old(kvs[..]), kvSize, kvCount)
    {
      hide And, IsPowerOf2, BucketsOf, Records, Grouped, Start, Sum;
      table := kvs;
      kvCount := table.Length / kvSize;
      WholeCount(table.Length, kvSize);
      loaded := Recs();
      BuildIndexes();
      var swaps := Permute();
    }

    /** The first half of `construct_immutable_hash_map`: size, counts and prefix sums. */
    method BuildIndexes()
      requires WholeRecords() && kvSize > 0 && kvCount <= LONG_MAX + 1 && NothingCounted(kvCount)
      modifies this`indexes, this`hashMask
      ensures WholeRecords() && IsPowerOf2(hashMask + 1) && fresh(indexes) && indexes.Length == hashMask + 2
      ensures forall h: nat | h <= hashMask + 1 :: indexes[h] == Start(multiset(Hashes()), h)
    {
      hide And, IsPowerOf2, BucketsOf, Records, Start, Sum;
      var hashSize := NextPower(kvCount);
      assert AllZero(indexes[..], if hashSize < indexes.Length then hashSize else indexes.Length);
      ResizeIndexes(hashSize + 1);
      hashMask := hashSize - 1;
      CountCollisions();
      ghost var counts, all := indexes[..], multiset(Hashes());
      PrefixSums(indexes);
      forall h: nat | h <= hashMask + 1 ensures indexes[h] == Start(all, h) {
        SumOfCounts(counts, all, h);
      }
    }

    /** The bytes right after the key of some record that was loaded with this key, or nothing when there is none;
        with distinct keys, what a scan of the loaded records finds. */
    method Seek(key: seq<Byte>) returns (r: Option<nat>)
      requires Valid() && |key| == keySize
      ensures r.None? <==> LinearFind(loaded, ByKey(key)).None?
      ensures r.None? <==> forall rec <- loaded :: |rec| < keySize || rec[..keySize] != key
      ensures r.Some? ==> r.value + valueSize <= table.Length
      ensures r.Some? ==> exists rec <- loaded ::
          HasKey(rec, key) && table[r.value..r.value + valueSize] == rec[keySize..]
      ensures r.Some? && DistinctKeys(loaded, keySize) ==>
        LinearFind(loaded, ByKey(key)) == Some(key + table[r.value..r.value + valueSize])
    {
      hide And, IsPowerOf2, BucketsOf, Records, HasKey, Grouped, LinearFind, DistinctKeys, ByKey, Start;
      MaskIsRemainder(hash(key), hashMask + 1);
      var h := And(hash(key), hashMask);
      var begin, end := indexes[h], indexes[h + 1];
      StartWithin(h);
      ghost var recs, start := Recs(), begin;
      while begin < end
        invariant start <= begin <= end
        invariant forall p | start <= p < begin :: !HasKey(recs[p], key)
      {
        RecordAt(begin, key);
        var at := begin * kvSize;
        if table[at..at + keySize] == key {
          Hit(begin, key);
          NoneHas(key);
          return Some(at + keySize);
        }
        begin := begin + 1;
      }
      Miss(key);
      NoneHas(key);
      return None;
    }

    /** What the reference scan says of the records. */
    lemma NoneHas(key: seq<Byte>)
      requires |key| == keySize
      ensures LinearFind(loaded, ByKey(key)).None? <==> forall rec <- loaded :: |rec| < keySize || rec[..keySize] != key
    {
      LinearFindNone(loaded, ByKey(key));
    }

    /** A record that has the key was loaded, and it is the one a scan finds when keys are distinct. */
    lemma Hit(p: nat, key: seq<Byte>)
      requires Valid() && |key| == keySize && p < kvCount && HasKey(Recs()[p], key)
      ensures Recs()[p] in loaded && LinearFind(loaded, ByKey(key)).Some?
      ensures DistinctKeys(loaded, keySize) ==> LinearFind(loaded, ByKey(key)) == Some(Recs()[p])
      ensures Recs()[p] == key + Recs()[p][keySize..]
    {
      assert Recs()[p] in multiset(loaded);
      assert Recs()[p] in loaded && ByKey(key)(Recs()[p]);
      LinearFindNone(loaded, ByKey(key));
      if DistinctKeys(loaded, keySize) {
        LinearFindUnique(loaded, ByKey(key), Recs()[p]);
      }
    }

    /** When no record in the key's bucket range has the key, none that was loaded has it. */
    lemma Miss(key: seq<Byte>)
      requires Valid() && |key| == keySize
      requires var h := And(hash(key), hashMask);
               forall p: nat | p < kvCount && InBucket(multiset(Hashes()), h, p) :: !HasKey(Recs()[p], key)
      ensures LinearFind(loaded, ByKey(key)).None?
    {
      forall rec | rec in loaded ensures !ByKey(key)(rec) {
        assert rec in multiset(Recs());
        var p: nat :| p < kvCount && Recs()[p] == rec;
        if HasKey(rec, key) {
          KeyInBucket(p, key);
        }
      }
      LinearFindNone(loaded, ByKey(key));
    }

    lemma StartWithin(h: nat)
      requires Valid() && h <= hashMask
      ensures Start(multiset(Hashes()), h) <= Start(multiset(Hashes()), h + 1) <= kvCount
    {
      hide And, IsPowerOf2, BucketsOf, Records, Grouped;
      ghost var hs := Hashes();
      forall p | 0 <= p < |hs| ensures hs[p] < hashMask + 1 {
        HashAt(p);
      }
      StartCovers(hs, hashMask + 1);
      StartGrows(multiset(hs), h, h + 1);
      StartGrows(multiset(hs), h + 1, hashMask + 1);
    }

    lemma RecordAt(p: nat, key: seq<Byte>)
      requires WholeRecords() && p < kvCount && |key| == keySize
      ensures 0 <= p * kvSize <= p * kvSize + kvSize <= table.Length
      ensures table[p * kvSize..p * kvSize + keySize] == key <==> HasKey(Recs()[p], key)
      ensures Recs()[p][..keySize] == table[p * kvSize..p * kvSize + keySize]
      ensures Recs()[p][keySize..] == table[p * kvSize + keySize..p * kvSize + kvSize]
    {
      RecordBounds(kvSize, p, kvCount);
    }

    /** A record with the key stands in the range that the lookup scans. */
    lemma KeyInBucket(p: nat, key: seq<Byte>)
      requires Valid() && |key| == keySize && p < kvCount && HasKey(Recs()[p], key)
      ensures InBucket(multiset(Hashes()), And(hash(key), hashMask), p)
    {
      assert Hashes()[p] == And(hash(key), hashMask);
    }
  }

  lemma WholeCount(length: nat, size: nat)
    requires size > 0 && length % size == 0
    ensures length / size * size == length
  {
  }
}

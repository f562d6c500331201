/** One storage server with two stores, addressed by the parity of the data version
    (cannon_proxy/cannon/src/cannon/storage.cpp and the request loops of cannon_server.cpp). */
module Storage {

  type Key = k: int | -0x8000_0000_0000_0000 <= k < 0x8000_0000_0000_0000
  type Value = real
  datatype KV = KV(key: Key, value: Value)
  type Store = map<Key, Value>

  datatype ItemStatus = FOUND | NOT_FOUND | ERROR
  datatype Item = Item(status: ItemStatus, value: Value)

  /** `data_version & 1`. */
  function Index(version: int): nat {
    version % 2
  }

  lemma IndexOfVersion(n: int)
    ensures Index(2 * n) == 0 && Index(2 * n + 1) == 1
  {
  }

  /** The item of one key: the value of a missing key is left at zero. */
  function Lookup(store: Store, key: Key): Item {
    if key in store then Item(FOUND, store[key]) else Item(NOT_FOUND, 0.0)
  }

  function LookupAll(store: Store, keys: seq<Key>): (items: seq<Item>)
    ensures |items| == |keys| && forall i | 0 <= i < |keys| :: items[i] == Lookup(store, keys[i])
  {
    seq(|keys|, i requires 0 <= i < |keys| => Lookup(store, keys[i]))
  }

  /** Inserting in order, where a key that is present keeps its value. */
  function InsertAll(store: Store, kvs: seq<KV>): Store {
    if kvs == [] then store
    else
      var before, kv := InsertAll(store, kvs[..|kvs| - 1]), kvs[|kvs| - 1];
      if kv.key in before then before else before[kv.key := kv.value]
  }

  /** Every key is new: not stored before and not twice in the list. */
  ghost predicate AllFresh(store: Store, kvs: seq<KV>) {
    && (forall i | 0 <= i < |kvs| :: kvs[i].key !in store)
    && (forall i, j | 0 <= i < j < |kvs| :: kvs[i].key != kvs[j].key)
  }

  lemma InsertAllLast(store: Store, kvs: seq<KV>, kv: KV)
    ensures var before := InsertAll(store, kvs);
            InsertAll(store, kvs + [kv]) == if kv.key in before then before else before[kv.key := kv.value]
  {
    assert (kvs + [kv])[..|kvs|] == kvs;
  }

  /** The stored keys are the old ones and the inserted ones. */
  lemma {:induction false} InsertAllKeys(store: Store, kvs: seq<KV>, key: Key)
    ensures key in InsertAll(store, kvs) <==> key in store || exists i | 0 <= i < |kvs| :: kvs[i].key == key
  {
    if kvs != [] {
      InsertAllKeys(store, kvs[..|kvs| - 1], key);
      assert kvs == kvs[..|kvs| - 1] + [kvs[|kvs| - 1]];
    }
  }

  /** Old keys keep their values, and a new key has the value of the first pair that names it. */
  lemma {:induction false} InsertAllValues(store: Store, kvs: seq<KV>)
    ensures forall k <- store :: k in InsertAll(store, kvs) && InsertAll(store, kvs)[k] == store[k]
    ensures forall i | 0 <= i < |kvs| && kvs[i].key !in store && (forall j | 0 <= j < i :: kvs[j].key != kvs[i].key) ::
              kvs[i].key in InsertAll(store, kvs) && InsertAll(store, kvs)[kvs[i].key] == kvs[i].value
  {
    if kvs != [] {
      var n := |kvs| - 1;
      InsertAllValues(store, kvs[..n]);
      InsertAllKeys(store, kvs[..n], kvs[n].key);
    }
  }

  /** The item of a key after pairs were inserted into an empty store: the value of the first pair that names it. */
  lemma ItemOfPairs(kvs: seq<KV>, key: Key)
    ensures (forall j | 0 <= j < |kvs| :: kvs[j].key != key) ==> Lookup(InsertAll(map[], kvs), key) == Item(NOT_FOUND, 0.0)
    ensures forall i | 0 <= i < |kvs| && kvs[i].key == key && (forall j | 0 <= j < i :: kvs[j].key != key) ::
              Lookup(InsertAll(map[], kvs), key) == Item(FOUND, kvs[i].value)
  {
    InsertAllKeys(map[], kvs, key);
    InsertAllValues(map[], kvs);
  }

  lemma {:induction false} InsertAllTwice(store: Store, xs: seq<KV>, ys: seq<KV>)
    ensures InsertAll(InsertAll(store, xs), ys) == InsertAll(store, xs + ys)
  {
    if ys == [] {
      assert xs + ys == xs;
    } else {
      InsertAllTwice(store, xs, ys[..|ys| - 1]);
      assert (xs + ys)[..|xs + ys| - 1] == xs + ys[..|ys| - 1];
    }
  }

  lemma AllFreshTwice(store: Store, xs: seq<KV>, ys: seq<KV>)
    ensures AllFresh(store, xs + ys) <==> AllFresh(store, xs) && AllFresh(InsertAll(store, xs), ys)
  {
    forall y <- ys ensures y.key in InsertAll(store, xs) <==> y.key in store || exists i | 0 <= i < |xs| :: xs[i].key == y.key {
      InsertAllKeys(store, xs, y.key);
    }
    var all := xs + ys;
    if AllFresh(store, all) {
      assert forall i | 0 <= i < |xs| :: xs[i] == all[i];
      assert forall j | 0 <= j < |ys| :: ys[j] == all[|xs| + j];
    }
    if AllFresh(store, xs) && AllFresh(InsertAll(store, xs), ys) {
      forall i, j | 0 <= i < j < |all| ensures all[i].key != all[j].key {
        if j >= |xs| {
          assert all[j] == ys[j - |xs|] && all[j] in ys;
        }
      }
      forall i | 0 <= i < |all| ensures all[i].key !in store {
        if i >= |xs| {
          assert all[i] == ys[i - |xs|] && all[i] in ys;
        }
      }
    }
  }

  class Server {
    var stores: seq<Store>

    ghost predicate Valid()
      reads this
    {
      |stores| == 2
    }

    constructor ()
      ensures Valid() && stores == [map[], map[]]
    {
      stores := [map[], map[]];
    }

    method Seek(key: Key, version: int) returns (status: ItemStatus, value: Value)
      requires Valid()
      ensures Item(status, value) == Lookup(stores[Index(version)], key)
      ensures (status == FOUND <==> key in stores[Index(version)]) && (status == NOT_FOUND <==> key !in stores[Index(version)])
      ensures value == if status == FOUND then stores[Index(version)][key] else 0.0
    {
      var store := stores[Index(version)];
      if key !in store {
        return NOT_FOUND, 0.0;
      }
      return FOUND, store[key];
    }

    method Insert(key: Key, value: Value, version: int) returns (ok: bool)
      requires Valid()
      modifies this
      ensures Valid() && ok == (key !in old(stores[Index(version)]))
      ensures stores == old(stores)[Index(version) := InsertAll(old(stores[Index(version)]), [KV(key, value)])]
    {
      var i := Index(version);
      assert [KV(key, value)][..0] == [];
      ok := key !in stores[i];
      if ok {
        var after: Store := stores[i][key := value];
        stores := stores[i := after];
      }
    }

    method ClearData(version: int)
      requires Valid()
      modifies this
      ensures Valid() && stores == old(stores)[Index(version) := map[]]
    {
      stores := stores[Index(version) := map[]];
    }

    /** The server's `get`: one item per key, in order. */
    method GetAll(keys: seq<Key>, version: int) returns (values: seq<Item>)
      requires Valid()
      ensures values == LookupAll(stores[Index(version)], keys)
      ensures |values| == |keys|
      ensures forall i | 0 <= i < |keys| && keys[i] in stores[Index(version)] ::
          values[i] == Item(FOUND, stores[Index(version)][keys[i]])
      ensures forall i | 0 <= i < |keys| && keys[i] !in stores[Index(version)] :: values[i] == Item(NOT_FOUND, 0.0)
    {
      values := [];
      for i := 0 to |keys|
        invariant |values| == i && forall j | 0 <= j < i :: values[j] == Lookup(stores[Index(version)], keys[j])
      {
        var status, value := Seek(keys[i], version);
        values := values + [Item(status, value)];
      }
    }

    /** The server's `insert`: true exactly when every key was new; the pairs that are new are stored in any case. */
    method InsertKvs(kvs: seq<KV>, version: int) returns (ret: bool)
      requires Valid()
      modifies this
      ensures Valid()
      ensures stores == old(stores)[Index(version) := InsertAll(old(stores[Index(version)]), kvs)]
      ensures ret <==> AllFresh(old(stores[Index(version)]), kvs)
    {
      ret := true;
      ghost var store := stores[Index(version)];
      for i := 0 to |kvs|
        invariant Valid() && stores == old(stores)[Index(version) := InsertAll(store, kvs[..i])]
        invariant ret <==> AllFresh(store, kvs[..i])
      {
        AllFreshTwice(store, kvs[..i], [kvs[i]]);
        InsertAllTwice(store, kvs[..i], [kvs[i]]);
        assert kvs[..i + 1] == kvs[..i] + [kvs[i]];
        var ok := Insert(kvs[i].key, kvs[i].value, version);
        if !ok {
          ret := false;
        }
      }
      assert kvs[..|kvs|] == kvs;
    }
  }
}

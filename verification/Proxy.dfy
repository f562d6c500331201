/** The sharding proxy: scatter/gather of `get`, sharded inserts and the reload of a model
    (cannon_proxy/src/proxy_server.cpp). */
module Proxy {
  import opened Buckets
  import opened Storage

  datatype Status = OK | PARTIAL_OK | ERROR
  datatype Response = Response(status: Status, values: seq<Item>)

  // ---------------------------------------------------------------- sharding

  /** The number of clients and the key hash. */
  datatype Config = Config(n: nat, hash: Key -> Size)

  /** `(int)` of a hash: its low 32 bits in two's complement. */
  function ToInt(h: Size): int {
    var low := h % 0x1_0000_0000;
    if low < 0x8000_0000 then low else low - 0x1_0000_0000
  }

  /** The C++ remainder, which has the sign of the dividend. */
  function Remainder(a: int, n: nat): int
    requires n > 0
  {
    if a >= 0 then a % n else -(-a % n)
  }

  function ShardIndex(c: Config, key: Key): int
    requires c.n > 0
  {
    Remainder(ToInt(c.hash(key)), c.n)
  }

  /** All keys have a shard; the source indexes its vectors with whatever comes out. */
  predicate Sharded(c: Config, keys: seq<Key>) {
    c.n > 0 && forall i | 0 <= i < |keys| :: ShardIndex(c, keys[i]) >= 0
  }

  /** A request is served without leaving the vectors exactly when no truncated hash is negative, unless it is a
      multiple of the number of clients. */
  lemma ShardedExactly(c: Config, keys: seq<Key>)
    requires c.n > 0
    ensures Sharded(c, keys) <==>
            forall i | 0 <= i < |keys| :: ToInt(c.hash(keys[i])) >= 0 || ToInt(c.hash(keys[i])) % c.n == 0
  {
    hide ShardIndex, ToInt;
    forall i | 0 <= i < |keys|
      ensures ShardIndex(c, keys[i]) >= 0 <==> ToInt(c.hash(keys[i])) >= 0 || ToInt(c.hash(keys[i])) % c.n == 0
    {
      ShardExists(c, keys[i]);
    }
  }

  /** A key has a shard unless its truncated hash is negative and no multiple of the number of clients. */
  lemma ShardExists(c: Config, key: Key)
    requires c.n > 0
    ensures ShardIndex(c, key) < c.n
    ensures ShardIndex(c, key) >= 0 <==> ToInt(c.hash(key)) >= 0 || ToInt(c.hash(key)) % c.n == 0
  {
    var h := ToInt(c.hash(key));
    if h < 0 {
      NegatedMultiple(h, c.n);
    }
  }

  /** `(int)` keeps a hash modulo 2^32 and brings it into the range of an int. */
  lemma IntOfHash(h: Size)
    ensures -0x8000_0000 <= ToInt(h) < 0x8000_0000 && (h - ToInt(h)) % 0x1_0000_0000 == 0
    ensures h < 0x8000_0000 ==> ToInt(h) == h
  {
  }

  /** The C++ division, which drops the fraction. */
  function Quotient(a: int, n: nat): int
    requires n > 0
  {
    if a >= 0 then a / n else -(-a / n)
  }

  lemma RemainderDivides(a: int, n: nat)
    requires n > 0
    ensures a == n * Quotient(a, n) + Remainder(a, n)
    ensures 0 < n + Remainder(a, n) && Remainder(a, n) < n
    ensures (a >= 0 ==> Remainder(a, n) >= 0) && (a <= 0 ==> Remainder(a, n) <= 0)
  {
    if a < 0 {
      NegatedDivision(-a, n);
    }
  }

  lemma NegatedDivision(a: int, n: nat)
    requires n > 0 && a > 0
    ensures -a == n * -(a / n) + -(a % n)
  {
    assert a == n * (a / n) + a % n;
  }

  /** The index is what the division of the truncated hash by the number of clients leaves, with the sign of the hash;
      for a hash below 2^31 it is the usual remainder. */
  lemma ShardByDivision(c: Config, key: Key)
    requires c.n > 0
    ensures exists q :: ToInt(c.hash(key)) == c.n * q + ShardIndex(c, key)
    ensures 0 < c.n + ShardIndex(c, key) && ShardIndex(c, key) < c.n
    ensures ToInt(c.hash(key)) >= 0 ==> 0 <= ShardIndex(c, key)
    ensures ToInt(c.hash(key)) <= 0 ==> ShardIndex(c, key) <= 0
    ensures c.hash(key) < 0x8000_0000 ==> exists q :: c.hash(key) == c.n * q + ShardIndex(c, key)
  {
    hide Remainder, Quotient, ToInt;
    RemainderDivides(ToInt(c.hash(key)), c.n);
    IntOfHash(c.hash(key));
  }

  lemma NegatedMultiple(a: int, n: nat)
    requires n > 0
    ensures -a % n == 0 <==> a % n == 0
  {
    var p, q := a / n, -a / n;
    assert n * p + a % n == a && n * q + -a % n == -a;
    assert n * (p + q) == n * p + n * q;
    if a % n == 0 || -a % n == 0 {
      SmallMultiple(n, p + q);
    }
  }

  /** The keys of shard `s`, in request order. */
  function KeysOf(c: Config, keys: seq<Key>, s: nat): seq<Key>
    requires c.n > 0
  {
    if keys == [] then []
    else
      var last := keys[|keys| - 1];
      KeysOf(c, keys[..|keys| - 1], s) + (if ShardIndex(c, last) == s then [last] else [])
  }

  function KvsOf(c: Config, kvs: seq<KV>, s: nat): seq<KV>
    requires c.n > 0
  {
    if kvs == [] then []
    else
      var last := kvs[|kvs| - 1];
      KvsOf(c, kvs[..|kvs| - 1], s) + (if ShardIndex(c, last.key) == s then [last] else [])
  }

  /** A shard's keys are exactly the request's keys with that index. */
  lemma {:induction false} KeysOfMember(c: Config, keys: seq<Key>, s: nat, key: Key)
    requires c.n > 0
    ensures key in KeysOf(c, keys, s) <==> key in keys && ShardIndex(c, key) == s
  {
    if keys != [] {
      KeysOfMember(c, keys[..|keys| - 1], s, key);
      assert keys == keys[..|keys| - 1] + [keys[|keys| - 1]];
    }
  }

  lemma KeysOfOne(c: Config, key: Key, s: nat)
    requires c.n > 0
    ensures KeysOf(c, [key], s) == if ShardIndex(c, key) == s then [key] else []
  {
    assert [key][..0] == [];
  }

  /** A shard gets its keys in request order, each as often as it was asked for. */
  lemma {:induction false} KeysOfAppend(c: Config, xs: seq<Key>, ys: seq<Key>, s: nat)
    requires c.n > 0
    ensures KeysOf(c, xs + ys, s) == KeysOf(c, xs, s) + KeysOf(c, ys, s)
  {
    if ys == [] {
      assert xs + ys == xs;
    } else {
      assert (xs + ys)[..|xs + ys| - 1] == xs + ys[..|ys| - 1];
      KeysOfAppend(c, xs, ys[..|ys| - 1], s);
    }
  }

  function LastIndex(keys: seq<Key>, key: Key): (i: nat)
    requires key in keys
    ensures i < |keys| && keys[i] == key && forall j | i < j < |keys| :: keys[j] != key
  {
    if keys[|keys| - 1] == key then |keys| - 1 else LastIndex(keys[..|keys| - 1], key)
  }

  // ---------------------------------------------------------------- gathering

  function AnswerAll(answer: (nat, Key) -> Item, s: nat, keys: seq<Key>): (r: seq<Item>)
    ensures |r| == |keys|
  {
    seq(|keys|, i requires 0 <= i < |keys| => answer(s, keys[i]))
  }

  /** The replies of the non-empty shards from `s` on, in shard order. */
  function Replies(sharding: seq<seq<Key>>, answer: (nat, Key) -> Item, s: nat): seq<seq<Item>>
    requires s <= |sharding|
    decreases |sharding| - s
  {
    if s == |sharding| then []
    else (if sharding[s] == [] then [] else [AnswerAll(answer, s, sharding[s])]) + Replies(sharding, answer, s + 1)
  }

  lemma RepliesNext(sharding: seq<seq<Key>>, answer: (nat, Key) -> Item, s: nat)
    requires s < |sharding|
    ensures sharding[s] == [] ==> Replies(sharding, answer, s) == Replies(sharding, answer, s + 1)
    ensures sharding[s] != [] ==>
              Replies(sharding, answer, s) == [AnswerAll(answer, s, sharding[s])] + Replies(sharding, answer, s + 1)
  {
    assert [] + Replies(sharding, answer, s + 1) == Replies(sharding, answer, s + 1);
  }

  lemma RepliesEnd(sharding: seq<seq<Key>>, answer: (nat, Key) -> Item)
    ensures Replies(sharding, answer, |sharding|) == []
  {
  }

  /** What `resize` leaves in a cell that no reply fills. */
  const UNFILLED := Item(FOUND, 0.0)

  /** The response cell of request position `i`: the answer of the key's shard, at the key's last position only. */
  ghost function Cell(c: Config, keys: seq<Key>, answer: (nat, Key) -> Item, i: nat): Item
    requires Sharded(c, keys) && i < |keys|
  {
    if LastIndex(keys, keys[i]) == i then answer(ShardIndex(c, keys[i]), keys[i]) else UNFILLED
  }

  /** ERROR if any of the keys is an error, otherwise PARTIAL_OK if any is missing, otherwise OK. */
  ghost function Overall(c: Config, keys: set<Key>, answer: (nat, Key) -> Item): Status
    requires c.n > 0 && forall k <- keys :: ShardIndex(c, k) >= 0
  {
    if exists k <- keys :: answer(ShardIndex(c, k), k).status == ItemStatus.ERROR then Status.ERROR
    else if exists k <- keys :: answer(ShardIndex(c, k), k).status == NOT_FOUND then PARTIAL_OK
    else OK
  }

  ghost function KeySet(keys: seq<Key>): set<Key> {
    set k | k in keys
  }

  ghost predicate Distinct(keys: seq<Key>) {
    forall i, j | 0 <= i < j < |keys| :: keys[i] != keys[j]
  }

  /** A position whose key comes again later is left as `resize` made it. */
  lemma UnfilledWhenRepeated(c: Config, keys: seq<Key>, answer: (nat, Key) -> Item, i: nat, j: nat)
    requires Sharded(c, keys) && i < j < |keys| && keys[i] == keys[j]
    ensures Cell(c, keys, answer, i) == Item(FOUND, 0.0)
  {
  }

  /** One position gets the answer for its key, whatever the shards answer, exactly when the key does not come again. */
  lemma FilledIffLast(c: Config, keys: seq<Key>, i: nat)
    requires Sharded(c, keys) && i < |keys|
    ensures (forall j | i < j < |keys| :: keys[j] != keys[i]) <==>
            forall answer: (nat, Key) -> Item :: Cell(c, keys, answer, i) == answer(ShardIndex(c, keys[i]), keys[i])
  {
    if j :| i < j < |keys| && keys[j] == keys[i] {
      var answer: (nat, Key) -> Item := (s, k) => Item(NOT_FOUND, 0.0);
      assert Cell(c, keys, answer, i) != answer(ShardIndex(c, keys[i]), keys[i]);
    }
  }

  /** Every position gets the answer for its key, whatever the shards answer, exactly when no key is repeated. */
  lemma AllFilledIffDistinct(c: Config, keys: seq<Key>)
    requires Sharded(c, keys)
    ensures Distinct(keys) <==> forall answer: (nat, Key) -> Item, i: nat | i < |keys| ::
              Cell(c, keys, answer, i) == answer(ShardIndex(c, keys[i]), keys[i])
  {
    if !Distinct(keys) {
      var i, j :| 0 <= i < j < |keys| && keys[i] == keys[j];
      FilledIffLast(c, keys, i);
    }
  }

  // ---------------------------------------------------------------- the handler

  class CannonServiceHandler {
    const c: Config
    const clients: seq<Server>
    var dataVersion: int
    var isLoading: bool

    constructor (clients: seq<Server>, hash: Key -> Size)
      ensures this.clients == clients && c == Config(|clients|, hash)
      ensures dataVersion == 0 && !isLoading
    {
      this.clients, c := clients, Config(|clients|, hash);
      dataVersion, isLoading := 0, false;
    }

    ghost predicate Valid()
      reads clients
    {
      && c.n == |clients|
      && (forall i | 0 <= i < |clients| :: clients[i].Valid())
      && forall i, j | 0 <= i < j < |clients| :: clients[i] != clients[j]
    }

    /** Distributes the keys over the shards and notes where each key's answer goes. */
    method ShardKeys(keys: seq<Key>) returns (sharding: seq<seq<Key>>, keyIdx: map<Key, nat>, n: nat)
      requires Sharded(c, keys)
      ensures |sharding| == c.n && forall s | 0 <= s < c.n :: sharding[s] == KeysOf(c, keys, s)
      ensures n == |keys| && forall k <- keys :: k in keyIdx && keyIdx[k] == LastIndex(keys, k)
    {
      sharding := seq(c.n, _ => []);
      n, keyIdx := 0, map[];
      for m := 0 to |keys|
        invariant n == m && |sharding| == c.n
        invariant forall s | 0 <= s < c.n :: sharding[s] == KeysOf(c, keys[..m], s)
        invariant forall k <- keys[..m] :: k in keyIdx && keyIdx[k] == LastIndex(keys[..m], k)
      {
        var key := keys[m];
        assert keys[..m + 1][..m] == keys[..m] && keys[..m + 1][m] == key;
        keyIdx := keyIdx[key := n];
        n := n + 1;
        ShardExists(c, key);
        var clientIdx := ShardIndex(c, key);
        sharding := sharding[clientIdx := sharding[clientIdx] + [key]];
        forall s | 0 <= s < c.n ensures sharding[s] == KeysOf(c, keys[..m + 1], s) {
          assert KeysOf(c, keys[..m], s) + [] == KeysOf(c, keys[..m], s);
        }
      }
      assert keys[..|keys|] == keys;
    }

    /** Fills the response from the replies of the non-empty shards, which must be aligned with them. */
    method Gather(keys: seq<Key>, sharding: seq<seq<Key>>, keyIdx: map<Key, nat>, results: seq<seq<Item>>,
                  ghost answer: (nat, Key) -> Item)
      returns (response: Response)
      requires Sharded(c, keys)
      requires |sharding| == c.n && forall s | 0 <= s < c.n :: sharding[s] == KeysOf(c, keys, s)
      requires forall k <- keys :: k in keyIdx && keyIdx[k] == LastIndex(keys, k)
      requires results == Replies(sharding, answer, 0)
      ensures |response.values| == |keys|
      ensures forall i | 0 <= i < |keys| :: response.values[i] == Cell(c, keys, answer, i)
      ensures response.status == Overall(c, KeySet(keys), answer)
    {
      hide Cell, Overall, LastIndex, ShardIndex, KeysOf, Replies, Filled;
      var values := seq(|keys|, _ => UNFILLED);
      var status := OK;
      FilledStarts(keys, answer, values);
      var r := 0;
      ghost var done: set<Key> := {};
      NothingYet(answer);
      for s := 0 to |sharding|
        invariant 0 <= r <= |results| && results[r..] == Replies(sharding, answer, s)
        invariant forall k :: k in done <==> k in keys && ShardIndex(c, k) < s
        invariant status == Overall(c, done, answer) && Filled(keys, answer, done, values)
      {
        forall k ensures k in KeysOf(c, keys, s) <==> k in keys && ShardIndex(c, k) == s {
          KeysOfMember(c, keys, s, k);
        }
        RepliesNext(sharding, answer, s);
        if sharding[s] != [] {
          assert results[r..][0] == results[r] && results[r..][1..] == results[r + 1..];
          values, status := FillShard(keys, s, sharding[s], keyIdx, results[r], values, status, answer, done);
          r := r + 1;
          done := done + KeySet(sharding[s]);
        }
      }
      forall k | k in keys ensures ShardIndex(c, k) < c.n {
        ShardExists(c, k);
      }
      assert done == KeySet(keys);
      FilledEnds(keys, answer, values);
      response := Response(status, values);
    }

    /** The inner loop of `get`: one shard's reply. */
    method FillShard(keys: seq<Key>, s: nat, shard: seq<Key>, keyIdx: map<Key, nat>, result: seq<Item>,
                     values0: seq<Item>, status0: Status, ghost answer: (nat, Key) -> Item, ghost done0: set<Key>)
      returns (values: seq<Item>, status: Status)
      requires Sharded(c, keys) && forall k <- shard :: k in keys && ShardIndex(c, k) == s
      requires forall k <- keys :: k in keyIdx && keyIdx[k] == LastIndex(keys, k)
      requires result == AnswerAll(answer, s, shard)
      requires forall k <- done0 :: k in keys
      requires status0 == Overall(c, done0, answer) && Filled(keys, answer, done0, values0)
      ensures status == Overall(c, done0 + KeySet(shard), answer)
      ensures Filled(keys, answer, done0 + KeySet(shard), values)
    {
      hide Cell, Overall, LastIndex, ShardIndex;
      values, status := values0, status0;
      ghost var done := done0;
      for j := 0 to |shard|
        invariant done == done0 + KeySet(shard[..j])
        invariant status == Overall(c, done, answer) && Filled(keys, answer, done, values)
      {
        assert shard[j] in keys;
        FillOne(keys, answer, done, values, shard[j]);
        CountOne(done, answer, shard[j]);
        assert shard[..j + 1] == shard[..j] + [shard[j]];
        var item := result[j];
        values := values[keyIdx[shard[j]] := item];
        if item.status == ItemStatus.ERROR {
          status := Status.ERROR;
        } else if item.status == NOT_FOUND {
          if status == OK {
            status := PARTIAL_OK;
          }
        }
        done := done + {shard[j]};
      }
      assert shard[..|shard|] == shard;
    }

    lemma NothingYet(answer: (nat, Key) -> Item)
      requires c.n > 0
      ensures Overall(c, {}, answer) == OK
    {
    }

    /** How one more key changes the overall status. */
    lemma CountOne(done: set<Key>, answer: (nat, Key) -> Item, key: Key)
      requires c.n > 0 && (forall k <- done :: ShardIndex(c, k) >= 0) && ShardIndex(c, key) >= 0
      ensures Overall(c, done + {key}, answer) ==
              match answer(ShardIndex(c, key), key).status
              case ERROR => Status.ERROR
              case NOT_FOUND => if Overall(c, done, answer) == OK then PARTIAL_OK else Overall(c, done, answer)
              case FOUND => Overall(c, done, answer)
    {
      forall k | k in done + {key} ensures k in done || k == key {
      }
    }

    /** The cells of the keys in `done` are filled, the others are not. */
    ghost predicate Filled(keys: seq<Key>, answer: (nat, Key) -> Item, done: set<Key>, values: seq<Item>)
      requires Sharded(c, keys)
    {
      |values| == |keys| && forall i: nat | i < |keys| ::
        values[i] == if keys[i] in done then Cell(c, keys, answer, i) else UNFILLED
    }

    lemma FilledStarts(keys: seq<Key>, answer: (nat, Key) -> Item, values: seq<Item>)
      requires Sharded(c, keys) && values == seq(|keys|, _ => UNFILLED)
      ensures Filled(keys, answer, {}, values)
    {
    }

    lemma FilledEnds(keys: seq<Key>, answer: (nat, Key) -> Item, values: seq<Item>)
      requires Sharded(c, keys) && Filled(keys, answer, KeySet(keys), values)
      ensures |values| == |keys| && forall i | 0 <= i < |keys| :: values[i] == Cell(c, keys, answer, i)
    {
    }

    lemma FillOne(keys: seq<Key>, answer: (nat, Key) -> Item, done: set<Key>, values: seq<Item>, key: Key)
      requires Sharded(c, keys) && Filled(keys, answer, done, values) && key in keys
      ensures Filled(keys, answer, done + {key}, values[LastIndex(keys, key) := answer(ShardIndex(c, key), key)])
    {
    }

    // -------------------------------------------------------------- requests against the clients

    /** What the clients store for a version. */
    ghost function Stored(version: int): (r: seq<Store>)
      requires Valid()
      reads clients
      ensures |r| == c.n && forall s | 0 <= s < c.n :: r[s] == clients[s].stores[Index(version)]
    {
      seq(c.n, s requires 0 <= s < c.n && Valid() reads clients => clients[s].stores[Index(version)])
    }

    /** The requests of a get: every client with keys answers from the store of the version. */
    method Query(sharding: seq<seq<Key>>, version: int) returns (results: seq<seq<Item>>)
      requires Valid() && |sharding| == c.n
      ensures results == Replies(sharding, FromStores(Stored(version)), 0)
    {
      hide Replies;
      results := [];
      ghost var answer := FromStores(Stored(version));
      for i := 0 to c.n
        invariant results + Replies(sharding, answer, i) == Replies(sharding, answer, 0)
      {
        RepliesNext(sharding, answer, i);
        if sharding[i] != [] {
          var result := clients[i].GetAll(sharding[i], version);
          assert result == AnswerAll(answer, i, sharding[i]);
          assert results + ([result] + Replies(sharding, answer, i + 1)) == results + [result] + Replies(sharding, answer, i + 1);
          results := results + [result];
        }
      }
      RepliesEnd(sharding, answer);
    }

    /** Every position whose key does not come again gets what its shard stores for the version read at the start. */
    method Get(keys: seq<Key>) returns (response: Response)
      requires Valid() && Sharded(c, keys)
      ensures |response.values| == |keys|
      ensures forall i | 0 <= i < |keys| ::
          response.values[i] == Cell(c, keys, FromStores(Stored(dataVersion)), i)
      ensures response.status == Overall(c, KeySet(keys), FromStores(Stored(dataVersion)))
      ensures forall i | 0 <= i < |keys| && (forall j | i < j < |keys| :: keys[j] != keys[i]) ::
          0 <= ShardIndex(c, keys[i]) < c.n &&
          var store := clients[ShardIndex(c, keys[i])].stores[Index(dataVersion)];
          response.values[i] == if keys[i] in store then Item(FOUND, store[keys[i]]) else Item(NOT_FOUND, 0.0)
      ensures forall i, j | 0 <= i < j < |keys| && keys[i] == keys[j] :: response.values[i] == Item(FOUND, 0.0)
      ensures (forall k <- keys :: 0 <= ShardIndex(c, k) < c.n) && response.status ==
          if forall k <- keys :: k in clients[ShardIndex(c, k)].stores[Index(dataVersion)] then OK else PARTIAL_OK
    {
      hide Cell, Overall, LastIndex, ShardIndex, KeysOf, Replies;
      var sharding, keyIdx, n := ShardKeys(keys);
      var version := dataVersion;
      var results := Query(sharding, version);
      response := Gather(keys, sharding, keyIdx, results, FromStores(Stored(version)));
      StoredCells(keys, Stored(version));
      StoredStatus(keys, Stored(version));
    }

    /** The cells of a response, read off the stores. */
    lemma StoredCells(keys: seq<Key>, stores: seq<Store>)
      requires Sharded(c, keys) && |stores| == c.n
      ensures forall i | 0 <= i < |keys| && (forall j | i < j < |keys| :: keys[j] != keys[i]) ::
          0 <= ShardIndex(c, keys[i]) < c.n &&
          var store := stores[ShardIndex(c, keys[i])];
          Cell(c, keys, FromStores(stores), i) == if keys[i] in store then Item(FOUND, store[keys[i]]) else Item(NOT_FOUND, 0.0)
      ensures forall i, j | 0 <= i < j < |keys| && keys[i] == keys[j] :: Cell(c, keys, FromStores(stores), i) == Item(FOUND, 0.0)
    {
      hide ShardIndex;
      forall i: nat | i < |keys| ensures 0 <= ShardIndex(c, keys[i]) < c.n {
        ShardExists(c, keys[i]);
      }
    }

    /** A store never answers with an error, so the status tells whether all keys are there. */
    lemma StoredStatus(keys: seq<Key>, stores: seq<Store>)
      requires Sharded(c, keys) && |stores| == c.n
      ensures forall k <- keys :: 0 <= ShardIndex(c, k) < c.n
      ensures Overall(c, KeySet(keys), FromStores(stores)) ==
          if forall k <- keys :: k in stores[ShardIndex(c, k)] then OK else PARTIAL_OK
    {
      hide ShardIndex;
      forall k | k in keys ensures 0 <= ShardIndex(c, k) < c.n {
        ShardExists(c, k);
      }
    }

    method ShardKvs(kvs: seq<KV>) returns (sharding: seq<seq<KV>>)
      requires Sharded(c, KeysIn(kvs))
      ensures |sharding| == c.n && forall s | 0 <= s < c.n :: sharding[s] == KvsOf(c, kvs, s)
    {
      sharding := seq(c.n, _ => []);
      for m := 0 to |kvs|
        invariant |sharding| == c.n
        invariant forall s | 0 <= s < c.n :: sharding[s] == KvsOf(c, kvs[..m], s)
      {
        assert kvs[..m + 1][..m] == kvs[..m] && kvs[..m + 1][m] == kvs[m] && KeysIn(kvs)[m] == kvs[m].key;
        ShardExists(c, kvs[m].key);
        var clientIdx := ShardIndex(c, kvs[m].key);
        sharding := sharding[clientIdx := sharding[clientIdx] + [kvs[m]]];
        forall s | 0 <= s < c.n ensures sharding[s] == KvsOf(c, kvs[..m + 1], s) {
          assert KvsOf(c, kvs[..m], s) + [] == KvsOf(c, kvs[..m], s);
        }
      }
      assert kvs[..|kvs|] == kvs;
    }

    /** The stores of client `s` after its share of `kvs` was inserted for `version`. */
    ghost function Inserted(stores: seq<Store>, version: int, kvs: seq<KV>, s: nat): seq<Store>
      requires |stores| == 2 && c.n > 0
    {
      stores[Index(version) := InsertAll(stores[Index(version)], KvsOf(c, kvs, s))]
    }

    ghost predicate FreshFor(stores: seq<Store>, version: int, kvs: seq<KV>, s: nat)
      requires |stores| == 2 && c.n > 0
    {
      AllFresh(stores[Index(version)], KvsOf(c, kvs, s))
    }

    ghost function AllStores(): (r: seq<seq<Store>>)
      requires Valid()
      reads clients
      ensures |r| == c.n && forall s | 0 <= s < c.n :: r[s] == clients[s].stores && |r[s]| == 2
    {
      seq(c.n, s requires 0 <= s < c.n && Valid() reads clients => clients[s].stores)
    }

    /** Every pair goes to its key's shard, into the store of the next version; true when all of them were new. */
    method Insert(kvs: seq<KV>) returns (ret: bool)
      requires Valid() && Sharded(c, KeysIn(kvs))
      modifies clients
      ensures Valid()
      ensures forall s: nat | s < c.n :: AllStores()[s] == Inserted(old(AllStores())[s], dataVersion + 1, kvs, s)
      ensures ret <==> FreshBelow(old(AllStores()), dataVersion + 1, kvs, c.n)
    {
      hide ShardIndex, KvsOf, InsertAll, AllFresh, Inserted, FreshFor, FreshBelow, InsertedBelow;
      var sharding := ShardKvs(kvs);
      var version := dataVersion + 1;
      ghost var before := AllStores();
      ret := true;
      FreshStarts(before, version, kvs);
      InsertedStarts(before, version, kvs);
      ghost var now := before;
      for i := 0 to c.n
        invariant Valid() && now == AllStores()
        invariant InsertedBelow(before, now, version, kvs, i)
        invariant ret <==> FreshBelow(before, version, kvs, i)
      {
        FreshGrows(before, version, kvs, i);
        InsertedGrows(before, now, version, kvs, i);
        var r := InsertShard(i, sharding[i], version, kvs);
        now := AllStores();
        ret := ret && r;
      }
      InsertedEnds(before, now, version, kvs);
    }

    /** The first `n` clients have got their shares, the others have what they had. */
    ghost predicate InsertedBelow(before: seq<seq<Store>>, now: seq<seq<Store>>, version: int, kvs: seq<KV>, n: nat)
      requires n <= |before| == |now| == c.n && forall s | 0 <= s < |before| :: |before[s]| == 2
    {
      forall s: nat | s < c.n :: now[s] == if s < n then Inserted(before[s], version, kvs, s) else before[s]
    }

    lemma InsertedStarts(before: seq<seq<Store>>, version: int, kvs: seq<KV>)
      requires |before| == c.n && forall s | 0 <= s < |before| :: |before[s]| == 2
      ensures InsertedBelow(before, before, version, kvs, 0)
    {
    }

    lemma InsertedGrows(before: seq<seq<Store>>, now: seq<seq<Store>>, version: int, kvs: seq<KV>, i: nat)
      requires i < |before| == |now| == c.n && forall s | 0 <= s < |before| :: |before[s]| == 2
      requires InsertedBelow(before, now, version, kvs, i)
      ensures now[i] == before[i]
      ensures InsertedBelow(before, now[i := Inserted(before[i], version, kvs, i)], version, kvs, i + 1)
    {
      hide Inserted;
    }

    lemma InsertedEnds(before: seq<seq<Store>>, now: seq<seq<Store>>, version: int, kvs: seq<KV>)
      requires |before| == |now| == c.n && forall s | 0 <= s < |before| :: |before[s]| == 2
      requires InsertedBelow(before, now, version, kvs, c.n)
      ensures forall s: nat | s < c.n :: now[s] == Inserted(before[s], version, kvs, s)
    {
    }

    /** One client's share; nothing is sent when it is empty. */
    method InsertShard(i: nat, shard: seq<KV>, version: int, ghost kvs: seq<KV>) returns (r: bool)
      requires Valid() && i < c.n && shard == KvsOf(c, kvs, i)
      modifies clients[i]
      ensures Valid() && AllStores() == old(AllStores())[i := Inserted(old(AllStores())[i], version, kvs, i)]
      ensures r <==> FreshFor(old(AllStores())[i], version, kvs, i)
    {
      hide ShardIndex, KvsOf, InsertAll, AllFresh;
      r := true;
      if shard != [] {
        r := clients[i].InsertKvs(shard, version);
      } else {
        InsertNothing(clients[i].stores, version, kvs, i);
      }
    }

    /** The first `n` clients accept all their pairs. */
    ghost predicate FreshBelow(before: seq<seq<Store>>, version: int, kvs: seq<KV>, n: nat)
      requires n <= |before| == c.n && forall s | 0 <= s < |before| :: |before[s]| == 2
    {
      forall s: nat | s < n :: FreshFor(before[s], version, kvs, s)
    }

    lemma FreshStarts(before: seq<seq<Store>>, version: int, kvs: seq<KV>)
      requires |before| == c.n && forall s | 0 <= s < |before| :: |before[s]| == 2
      ensures FreshBelow(before, version, kvs, 0)
    {
    }

    lemma FreshGrows(before: seq<seq<Store>>, version: int, kvs: seq<KV>, i: nat)
      requires i < |before| == c.n && forall s | 0 <= s < |before| :: |before[s]| == 2
      ensures FreshBelow(before, version, kvs, i + 1) <==> FreshBelow(before, version, kvs, i) && FreshFor(before[i], version, kvs, i)
    {
    }

    lemma InsertNothing(stores: seq<Store>, version: int, kvs: seq<KV>, s: nat)
      requires |stores| == 2 && c.n > 0 && KvsOf(c, kvs, s) == []
      ensures Inserted(stores, version, kvs, s) == stores && FreshFor(stores, version, kvs, s)
    {
    }

    lemma InsertTwice(stores: seq<Store>, version: int, xs: seq<KV>, ys: seq<KV>, s: nat)
      requires |stores| == 2 && c.n > 0
      ensures Inserted(Inserted(stores, version, xs, s), version, ys, s) == Inserted(stores, version, xs + ys, s)
      ensures FreshFor(stores, version, xs + ys, s) <==>
              FreshFor(stores, version, xs, s) && FreshFor(Inserted(stores, version, xs, s), version, ys, s)
    {
      KvsOfAppend(c, xs, ys, s);
      InsertAllTwice(stores[Index(version)], KvsOf(c, xs, s), KvsOf(c, ys, s));
      AllFreshTwice(stores[Index(version)], KvsOf(c, xs, s), KvsOf(c, ys, s));
    }

    /** Loads `blocks` into the spare stores and, when every pair was new, switches to them and clears the old ones.
        The loading flag is tested and set first; with no path it is never released. */
    method Reload(noPaths: bool, blocks: seq<seq<KV>>) returns (ret: bool)
      requires Valid() && forall i | 0 <= i < |blocks| :: Sharded(c, KeysIn(blocks[i]))
      modifies this, clients
      ensures Valid()
      ensures old(isLoading) || noPaths ==>
          ret == !old(isLoading) && isLoading && dataVersion == old(dataVersion) && AllStores() == old(AllStores())
      ensures !old(isLoading) && !noPaths ==>
          && !isLoading
          && (ret <==> FreshBelow(old(AllStores()), old(dataVersion) + 1, Flat(blocks), c.n))
          && dataVersion == old(dataVersion) + (if ret then 1 else 0)
          && forall s: nat | s < c.n ::
            var loaded := Inserted(old(AllStores())[s], old(dataVersion) + 1, Flat(blocks), s);
            AllStores()[s] == if ret then loaded[Index(old(dataVersion)) := map[]] else loaded
    {
      hide ShardIndex, KvsOf, InsertAll, AllFresh, KeysIn, Inserted, FreshFor, FreshBelow;
      if isLoading {
        return false;
      }
      isLoading := true;
      if noPaths {
        return true;
      }
      ret := LoadBlocks(blocks);
      if ret {
        ClearOld();
      }
      isLoading := false;
    }

    /** One block; nothing is inserted when none of its lines gave a pair. */
    method InsertBlock(kvs: seq<KV>) returns (r: bool)
      requires Valid() && Sharded(c, KeysIn(kvs))
      modifies clients
      ensures Valid()
      ensures forall s: nat | s < c.n :: AllStores()[s] == Inserted(old(AllStores())[s], dataVersion + 1, kvs, s)
      ensures r <==> FreshBelow(old(AllStores()), dataVersion + 1, kvs, c.n)
      ensures AllInserted(old(AllStores()), AllStores(), dataVersion + 1, kvs)
    {
      hide ShardIndex, KvsOf, InsertAll, AllFresh, KeysIn, Inserted, FreshFor, FreshBelow;
      r := true;
      if kvs != [] {
        r := Insert(kvs);
      } else {
        NothingInserted(AllStores(), dataVersion + 1);
      }
    }

    /** The reading loop of `reload`. */
    method LoadBlocks(blocks: seq<seq<KV>>) returns (ret: bool)
      requires Valid() && forall i | 0 <= i < |blocks| :: Sharded(c, KeysIn(blocks[i]))
      modifies clients
      ensures Valid()
      ensures forall s: nat | s < c.n :: AllStores()[s] == Inserted(old(AllStores())[s], dataVersion + 1, Flat(blocks), s)
      ensures ret <==> FreshBelow(old(AllStores()), dataVersion + 1, Flat(blocks), c.n)
    {
      hide ShardIndex, KvsOf, InsertAll, AllFresh, KeysIn, Inserted, FreshFor, FreshBelow, Flat, AllInserted;
      ghost var before, version := AllStores(), dataVersion + 1;
      ret := true;
      NothingInserted(before, version);
      FlatStarts(blocks);
      ghost var now := before;
      for i := 0 to |blocks|
        invariant Valid() && now == AllStores()
        invariant AllInserted(before, now, version, Flat(blocks[..i]))
        invariant ret <==> FreshBelow(before, version, Flat(blocks[..i]), c.n)
      {
        FlatGrows(blocks, i);
        var r := InsertBlock(blocks[i]);
        InsertedTwice(before, now, AllStores(), version, Flat(blocks[..i]), blocks[i]);
        now := AllStores();
        ret := ret && r;
      }
      assert blocks[..|blocks|] == blocks;
      AllInsertedMeans(before, now, version, Flat(blocks));
    }

    /** Every client has got its share. */
    ghost predicate AllInserted(before: seq<seq<Store>>, after: seq<seq<Store>>, version: int, kvs: seq<KV>)
      requires |before| == |after| == c.n && forall s | 0 <= s < c.n :: |before[s]| == 2
    {
      forall s: nat | s < c.n :: after[s] == Inserted(before[s], version, kvs, s)
    }

    lemma AllInsertedMeans(before: seq<seq<Store>>, after: seq<seq<Store>>, version: int, kvs: seq<KV>)
      requires |before| == |after| == c.n && forall s | 0 <= s < c.n :: |before[s]| == 2
      requires AllInserted(before, after, version, kvs)
      ensures forall s: nat | s < c.n :: after[s] == Inserted(before[s], version, kvs, s)
    {
    }

    lemma NothingInserted(before: seq<seq<Store>>, version: int)
      requires |before| == c.n && forall s | 0 <= s < |before| :: |before[s]| == 2
      ensures forall s: nat | s < c.n :: Inserted(before[s], version, [], s) == before[s]
      ensures AllInserted(before, before, version, [])
      ensures FreshBelow(before, version, [], c.n)
    {
      forall s: nat | s < c.n ensures Inserted(before[s], version, [], s) == before[s] && FreshFor(before[s], version, [], s) {
        InsertNothing(before[s], version, [], s);
      }
    }

    /** Two blocks one after the other are their concatenation, on every client. */
    lemma InsertedTwice(before: seq<seq<Store>>, mid: seq<seq<Store>>, after: seq<seq<Store>>, version: int,
                        xs: seq<KV>, ys: seq<KV>)
      requires |before| == |mid| == |after| == c.n && forall s | 0 <= s < c.n :: |before[s]| == |mid[s]| == 2
      requires AllInserted(before, mid, version, xs) && AllInserted(mid, after, version, ys)
      ensures AllInserted(before, after, version, xs + ys)
      ensures FreshBelow(before, version, xs + ys, c.n) <==> FreshBelow(before, version, xs, c.n) && FreshBelow(mid, version, ys, c.n)
    {
      hide Inserted, FreshFor;
      forall s: nat | s < c.n
        ensures Inserted(mid[s], version, ys, s) == Inserted(before[s], version, xs + ys, s)
        ensures FreshFor(before[s], version, xs + ys, s) <==>
          FreshFor(before[s], version, xs, s) && FreshFor(mid[s], version, ys, s)
      {
        InsertTwice(before[s], version, xs, ys, s);
      }
    }

    /** The clear of one client. */
    method ClearOne(i: nat, version: int)
      requires Valid() && i < c.n
      modifies clients[i]
      ensures Valid() && AllStores()[i] == old(AllStores())[i][Index(version) := map[]]
      ensures forall s: nat | s < c.n && s != i :: AllStores()[s] == old(AllStores())[s]
    {
      clients[i].ClearData(version);
    }

    /** Commits the next version and clears the store of the old one on every client. */
    method ClearOld()
      requires Valid()
      modifies this`dataVersion, clients
      ensures Valid() && dataVersion == old(dataVersion) + 1
      ensures forall s: nat | s < c.n :: AllStores()[s] == old(AllStores())[s][Index(old(dataVersion)) := map[]]
    {
      var version := dataVersion;
      ghost var before := AllStores();
      dataVersion := dataVersion + 1;
      for i := 0 to c.n
        invariant Valid() && dataVersion == version + 1
        invariant forall s: nat | s < i :: AllStores()[s] == before[s][Index(version) := map[]]
        invariant forall s: nat | i <= s < c.n :: AllStores()[s] == before[s]
      {
        ClearOne(i, version);
      }
    }
  }

  /** What client `s` answers for a key out of its store. */
  ghost function FromStores(stores: seq<Store>): (nat, Key) -> Item {
    (s: nat, k: Key) => if s < |stores| then Lookup(stores[s], k) else UNFILLED
  }

  function KeysIn(kvs: seq<KV>): (keys: seq<Key>)
    ensures |keys| == |kvs| && forall i | 0 <= i < |kvs| :: keys[i] == kvs[i].key
  {
    seq<Key>(|kvs|, i requires 0 <= i < |kvs| => kvs[i].key)
  }

  /** The blocks of a reload, one after the other. */
  ghost function Flat(blocks: seq<seq<KV>>): seq<KV> {
    if blocks == [] then [] else Flat(blocks[..|blocks| - 1]) + blocks[|blocks| - 1]
  }

  lemma FlatStarts(blocks: seq<seq<KV>>)
    ensures Flat(blocks[..0]) == []
  {
  }

  lemma FlatGrows(blocks: seq<seq<KV>>, i: nat)
    requires i < |blocks|
    ensures Flat(blocks[..i + 1]) == Flat(blocks[..i]) + blocks[i]
  {
    assert blocks[..i + 1][..i] == blocks[..i];
  }

  lemma KvsOfLast(c: Config, kvs: seq<KV>, kv: KV, s: nat)
    requires c.n > 0
    ensures KvsOf(c, kvs + [kv], s) == if ShardIndex(c, kv.key) == s then KvsOf(c, kvs, s) + [kv] else KvsOf(c, kvs, s)
  {
    assert (kvs + [kv])[..|kvs|] == kvs;
  }

  lemma {:induction false} KvsOfAppend(c: Config, xs: seq<KV>, ys: seq<KV>, s: nat)
    requires c.n > 0
    ensures KvsOf(c, xs + ys, s) == KvsOf(c, xs, s) + KvsOf(c, ys, s)
  {
    if ys == [] {
      assert xs + ys == xs;
    } else {
      assert (xs + ys)[..|xs + ys| - 1] == xs + ys[..|ys| - 1];
      KvsOfAppend(c, xs, ys[..|ys| - 1], s);
    }
  }
}

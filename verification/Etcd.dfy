/**
 The etcd store behind `EtcdClient`. A put is exact; a get or a delete acts on
 every key that extends its argument. A key written with a lease disappears when
 the lease expires.
 */
module Etcd {
  datatype Lease = NoLease | Leased(client: nat)

  datatype Entry = Entry(value: string, lease: Lease)

  type Db = map<string, Entry>

  datatype KeyValue = KeyValue(key: string, value: string)

  function Put(db: Db, key: string, value: string): Db {
    db[key := Entry(value, NoLease)]
  }

  function PutWithTTL(db: Db, key: string, value: string, client: nat): Db {
    db[key := Entry(value, Leased(client))]
  }

  function DeletePrefix(db: Db, prefix: string): Db {
    map k | k in db && !(prefix <= k) :: db[k]
  }

  function Scan(db: Db, prefix: string): map<string, string> {
    map k | k in db && prefix <= k :: db[k].value
  }

  function Expire(db: Db, client: nat): Db {
    map k | k in db && db[k].lease != Leased(client) :: db[k]
  }

  predicate HasKey(kvs: seq<KeyValue>, k: string) {
    exists i :: 0 <= i < |kvs| && kvs[i].key == k
  }

  /** `kvs` lists every binding of `m` once, in some order. */
  ghost predicate Enumerates(kvs: seq<KeyValue>, m: map<string, string>) {
    && (forall i :: 0 <= i < |kvs| ==> kvs[i].key in m && m[kvs[i].key] == kvs[i].value)
    && (forall k :: k in m ==> HasKey(kvs, k))
    && (forall i, j :: 0 <= i < j < |kvs| ==> kvs[i].key != kvs[j].key)
  }

  lemma EnumerationOfOne(kvs: seq<KeyValue>, m: map<string, string>, k: string)
    requires Enumerates(kvs, m)
    requires m.Keys == {k}
    ensures kvs == [KeyValue(k, m[k])]
  {
    assert HasKey(kvs, k);
    forall j | 0 <= j < |kvs| ensures kvs[j] == KeyValue(k, m[k]) {
      assert kvs[j].key in m.Keys;
    }
    assert |kvs| > 1 ==> kvs[0].key == kvs[1].key;
  }

  lemma ExtendKeys(kvs: seq<KeyValue>, kv: KeyValue, k: string)
    ensures HasKey(kvs + [kv], k) <==> HasKey(kvs, k) || k == kv.key
  {
    var more := kvs + [kv];
    assert more[|kvs|] == kv;
    if i :| 0 <= i < |kvs| && kvs[i].key == k {
      assert more[i].key == k;
    }
  }

  lemma EnumerateOneMore(kvs: seq<KeyValue>, m: map<string, string>, k: string, v: string)
    requires Enumerates(kvs, m) && k !in m
    ensures Enumerates(kvs + [KeyValue(k, v)], m[k := v])
  {
    forall k' | k' in m[k := v] ensures HasKey(kvs + [KeyValue(k, v)], k') {
      ExtendKeys(kvs, KeyValue(k, v), k');
    }
  }

  lemma {:induction false} EnumerationExists(m: map<string, string>) returns (kvs: seq<KeyValue>)
    ensures Enumerates(kvs, m)
    decreases |m|
  {
    if m == map[] {
      kvs := [];
    } else {
      var k :| k in m;
      kvs := EnumerationEndingIn(m, k);
    }
  }

  /** A scan may come in an order that ends with any key it finds. */
  lemma {:induction false} EnumerationEndingIn(m: map<string, string>, k: string) returns (kvs: seq<KeyValue>)
    requires k in m
    ensures Enumerates(kvs, m) && kvs != [] && kvs[|kvs| - 1] == KeyValue(k, m[k])
    decreases |m|, 0
  {
    var rest := m - {k};
    assert m == rest[k := m[k]];
    assert |rest| < |m| by { assert rest.Keys == m.Keys - {k}; }
    var front := EnumerationExists(rest);
    EnumerateOneMore(front, rest, k, m[k]);
    kvs := front + [KeyValue(k, m[k])];
  }

  lemma EnumerateInFront(kvs: seq<KeyValue>, m: map<string, string>, k: string, v: string)
    requires Enumerates(kvs, m) && k !in m
    ensures Enumerates([KeyValue(k, v)] + kvs, m[k := v])
  {
    var more := [KeyValue(k, v)] + kvs;
    forall k' | k' in m[k := v] ensures HasKey(more, k') {
      if k' == k {
        assert more[0].key == k;
      } else {
        assert HasKey(kvs, k');
        var i :| 0 <= i < |kvs| && kvs[i].key == k';
        assert more[i + 1].key == k';
      }
    }
  }

  /** Or in one that starts with any two of them. */
  lemma EnumerationStartingWith(m: map<string, string>, k: string, k': string) returns (kvs: seq<KeyValue>)
    requires k in m && k' in m && k != k'
    ensures Enumerates(kvs, m) && |kvs| >= 2 && kvs[0] == KeyValue(k, m[k]) && kvs[1] == KeyValue(k', m[k'])
  {
    var rest := m - {k, k'};
    var tail := EnumerationExists(rest);
    EnumerateInFront(tail, rest, k', m[k']);
    EnumerateInFront([KeyValue(k', m[k'])] + tail, rest[k' := m[k']], k, m[k]);
    assert m == rest[k' := m[k']][k := m[k]];
    kvs := [KeyValue(k, m[k])] + ([KeyValue(k', m[k'])] + tail);
  }

  /** One etcd server and the client operations on it. */
  class EtcdClient {
    var db: Db
    const lease: nat

    constructor (lease: nat)
      ensures db == map[] && this.lease == lease
    {
      db := map[];
      this.lease := lease;
    }

    method EtcdPut(key: string, value: string)
      modifies this
      ensures db == Put(old(db), key, value) == old(db)[key := Entry(value, NoLease)]
    {
      db := db[key := Entry(value, NoLease)];
    }

    method EtcdPutWithTTL(key: string, value: string)
      modifies this
      ensures db == PutWithTTL(old(db), key, value, lease) == old(db)[key := Entry(value, Leased(lease))]
    {
      db := db[key := Entry(value, Leased(lease))];
    }

    method EtcdDelete(key: string)
      modifies this
      ensures db == DeletePrefix(old(db), key)
      ensures forall k :: k in db <==> k in old(db) && !(key <= k)
      ensures forall k <- db :: db[k] == old(db)[k]
    {
      db := map k | k in db && !(key <= k) :: db[k];
    }

    /** The range read of the etcd server. */
    method Range(prefix: string) returns (kvs: seq<KeyValue>)
      ensures Enumerates(kvs, Scan(db, prefix))
    {
      var todo := Scan(db, prefix).Keys;
      ghost var done: map<string, string> := map[];
      kvs := [];
      while todo != {}
        invariant todo <= Scan(db, prefix).Keys
        invariant done == Scan(db, prefix) - todo
        invariant Enumerates(kvs, done)
        decreases |todo|
      {
        var k :| k in todo;
        EnumerateOneMore(kvs, done, k, db[k].value);
        kvs := kvs + [KeyValue(k, db[k].value)];
        done := done[k := db[k].value];
        todo := todo - {k};
      }
      assert done == Scan(db, prefix);
    }

    /** No binding at all comes back as a nil response, here the empty list. */
    method EtcdGetRaw(key: string) returns (kvs: seq<KeyValue>)
      ensures Enumerates(kvs, Scan(db, key))
      ensures kvs == [] <==> Scan(db, key) == map[]
    {
      kvs := Range(key);
      assert kvs != [] ==> kvs[0].key in Scan(db, key);
      if k :| k in Scan(db, key) {
        assert HasKey(kvs, k);
      } else {
        assert Scan(db, key) == map[];
      }
    }

    method EtcdGet(key: string) returns (pairs: map<string, string>)
      ensures pairs == Scan(db, key)
      ensures forall k :: k in pairs <==> k in db && key <= k
      ensures forall k <- pairs :: pairs[k] == db[k].value
    {
      pairs := map[];
      var kvs := Range(key);
      for n := 0 to |kvs|
        invariant forall k :: k in pairs <==> HasKey(kvs[..n], k)
        invariant forall k :: k in pairs ==> k in Scan(db, key) && pairs[k] == Scan(db, key)[k]
      {
        pairs := pairs[kvs[n].key := kvs[n].value];
        assert kvs[..n + 1] == kvs[..n] + [kvs[n]];
        forall k ensures HasKey(kvs[..n + 1], k) <==> HasKey(kvs[..n], k) || k == kvs[n].key {
          ExtendKeys(kvs[..n], kvs[n], k);
        }
      }
      assert kvs[..|kvs|] == kvs;
    }
  }
}

/** The gRPC server: agent registration, and the clean-up when an agent disconnects. */
module Server {
  import opened Text
  import opened Decimal
  import opened Json
  import opened Etcd
  import opened Keys
  import opened SwapRemove

  // ---- disconnect ----

  datatype Status = Done | NilDereference | Fatal | Panicked

  /** The store when the clean-up returned or the process died. */
  datatype Result = Result(db: Db, status: Status)

  /** The label the identity has in etcd; the empty string when it has none. */
  function EtcdLabel(db: Db, id: Identity): string {
    var k := IdKey(IdentityToLabel, id);
    if k in db then db[k].value else ""
  }

  datatype Edit = Edit(slice: Slice, status: Status)

  /** One scanned value, decoded and with the identity taken out. */
  function EditList(text: string, id: Identity): Edit {
    match Unmarshal(text)
    case Malformed => Edit(Nil, Fatal)
    case Decoded(Nil) => Edit(Nil, Done)
    case Decoded(Of(ids)) =>
      match Remove(ids, id)
      case OutOfRange => Edit(Nil, Panicked)
      case Finished(buf, window) => Edit(Of(buf[..window]), Done)
  }

  /** The loop over the scanned keys: every edited list is written under the one `key`. */
  function WriteBack(db: Db, key: string, id: Identity, kvs: seq<KeyValue>): Result
    decreases |kvs|
  {
    if kvs == [] then Result(db, Done)
    else
      var edit := EditList(kvs[0].value, id);
      if edit.status != Done then Result(db, edit.status)
      else WriteBack(Put(db, key, Marshal(edit.slice)), key, id, kvs[1..])
  }

  function Unserve(db: Db, id: Identity): Db { DeletePrefix(db, IdKey(IdentityToPodIp, id)) }

  /** `UpdateETCDLabelToIdentitiesMaps`, given the scanned keys in the order they came. */
  function Disconnect(db: Db, id: Identity, kvs: seq<KeyValue>): Result {
    var db1 := Unserve(db, id);
    if kvs == [] then Result(db1, NilDereference)
    else WriteBack(db1, Key(LabelToIdentities, EtcdLabel(db1, id)), id, kvs)
  }

  ghost predicate Scanned(db: Db, id: Identity, kvs: seq<KeyValue>) {
    Enumerates(kvs, Scan(Unserve(db, id), Key(LabelToIdentities, EtcdLabel(Unserve(db, id), id))))
  }

  /** Deleting a served entry leaves the other namespaces alone. */
  lemma UnserveFrame(db: Db, id: Identity, ns: Namespace, x: string)
    requires ns != IdentityToPodIp
    ensures Key(ns, x) in Unserve(db, id) <==> Key(ns, x) in db
    ensures Key(ns, x) in db ==> Unserve(db, id)[Key(ns, x)] == db[Key(ns, x)]
  {
    KeyPrefix(IdentityToPodIp, Dec(id), ns, x);
  }

  /** No stored label properly extends `l`. */
  ghost predicate Unextended(db: Db, l: string) {
    forall x :: Key(LabelToIdentities, x) in db && l <= x ==> x == l
  }

  lemma OnlyItself(db: Db, id: Identity, l: string, kvs: seq<KeyValue>)
    requires Scanned(db, id, kvs) && IdKey(IdentityToLabel, id) in db && db[IdKey(IdentityToLabel, id)].value == l
    requires Key(LabelToIdentities, l) in db && Unextended(db, l)
    ensures EtcdLabel(Unserve(db, id), id) == l
    ensures kvs == [KeyValue(Key(LabelToIdentities, l), db[Key(LabelToIdentities, l)].value)]
  {
    var db1, key := Unserve(db, id), Key(LabelToIdentities, l);
    UnserveFrame(db, id, IdentityToLabel, Dec(id));
    UnserveFrame(db, id, LabelToIdentities, l);
    var found := Scan(db1, key);
    forall k | k in found ensures k == key {
      assert Prefix(LabelToIdentities) <= key;
      var x := KeyOfNamespace(LabelToIdentities, k);
      KeyPrefix(LabelToIdentities, l, LabelToIdentities, x);
      UnserveFrame(db, id, LabelToIdentities, x);
    }
    assert found.Keys == {key};
    EnumerationOfOne(kvs, found, key);
  }

  /** Editing only takes away; of an identity held once it takes exactly that. */
  lemma EditMeaning(text: string, id: Identity, slice: Slice)
    requires id != 0 && Unmarshal(text) == Decoded(slice)
    ensures var e := EditList(text, id);
            && e.status == Done
            && (forall x <- e.slice.Elems() :: x in slice.Elems())
            && (AtMostOnce(slice.Elems(), id) ==> multiset(e.slice.Elems()) == multiset(slice.Elems()) - multiset{id})
  {
    if slice.Of? {
      NonzeroStaysInBounds(slice.ids, id);
      if AtMostOnce(slice.ids, id) {
        RemoveCounts(slice.ids, id);
      }
    }
  }

  /** A disconnect of a labelled identity edits its own list, if no label extends that label. */
  lemma DisconnectRemoves(db: Db, id: Identity, l: string, slice: Slice, kvs: seq<KeyValue>)
    requires id != 0 && Scanned(db, id, kvs)
    requires IdKey(IdentityToLabel, id) in db && db[IdKey(IdentityToLabel, id)].value == l
    requires Key(LabelToIdentities, l) in db && Unmarshal(db[Key(LabelToIdentities, l)].value) == Decoded(slice)
    requires Unextended(db, l)
    ensures var e := EditList(db[Key(LabelToIdentities, l)].value, id);
            Disconnect(db, id, kvs) == Result(Put(Unserve(db, id), Key(LabelToIdentities, l), Marshal(e.slice)), Done)
  {
    OnlyItself(db, id, l, kvs);
    EditMeaning(kvs[0].value, id, slice);
    WriteBackOne(Unserve(db, id), Key(LabelToIdentities, l), id, kvs[0]);
  }

  lemma WriteBackOne(db: Db, key: string, id: Identity, kv: KeyValue)
    requires EditList(kv.value, id).status == Done
    ensures WriteBack(db, key, id, [kv]) == Result(Put(db, key, Marshal(EditList(kv.value, id).slice)), Done)
  {
    assert [kv][1..] == [];
  }

  /** How many scanned lists are edited and written back before the first edit that fails. */
  function Edited(kvs: seq<KeyValue>, id: Identity): (n: nat)
    ensures n <= |kvs|
    ensures forall i :: 0 <= i < n ==> EditList(kvs[i].value, id).status == Done
    ensures n < |kvs| ==> EditList(kvs[n].value, id).status != Done
  {
    if kvs == [] || EditList(kvs[0].value, id).status != Done then 0 else 1 + Edited(kvs[1..], id)
  }

  /** Whatever is scanned: the last list that was edited is what the key ends up with, and the first failure ends it. */
  lemma {:induction false} LastEditDecides(db: Db, key: string, id: Identity, kvs: seq<KeyValue>)
    ensures var n := Edited(kvs, id);
            WriteBack(db, key, id, kvs) ==
            Result(if n == 0 then db else Put(db, key, Marshal(EditList(kvs[n - 1].value, id).slice)),
                   if n == |kvs| then Done else EditList(kvs[n].value, id).status)
    decreases |kvs|
  {
    if kvs != [] && EditList(kvs[0].value, id).status == Done {
      var v := Marshal(EditList(kvs[0].value, id).slice);
      var rest, n := kvs[1..], Edited(kvs[1..], id);
      LastEditDecides(Put(db, key, v), key, id, rest);
      if n > 0 {
        PutTwice(db, key, v, Marshal(EditList(rest[n - 1].value, id).slice));
      }
    }
  }

  lemma PutTwice(db: Db, key: string, v: string, w: string)
    ensures Put(Put(db, key, v), key, w) == Put(db, key, w)
  {}

  /** `UpdateETCDLabelToIdentitiesMaps`. */
  method UpdateETCDLabelToIdentitiesMaps(etcd: EtcdClient, id: Identity)
    returns (status: Status, ghost kvs: seq<KeyValue>)
    modifies etcd
    ensures Scanned(old(etcd.db), id, kvs)
    ensures Result(etcd.db, status) == Disconnect(old(etcd.db), id, kvs)
  {
    etcd.EtcdDelete(IdKey(IdentityToPodIp, id));
    ghost var db1 := etcd.db;
    var labelKV := etcd.EtcdGet(IdKey(IdentityToLabel, id));
    var lbl := if IdKey(IdentityToLabel, id) in labelKV then labelKV[IdKey(IdentityToLabel, id)] else "";
    assert lbl == EtcdLabel(db1, id);
    var data := etcd.EtcdGetRaw(Key(LabelToIdentities, lbl));
    kvs := data;
    if |data| == 0 {
      return NilDereference, kvs;
    }
    status := EditLists(etcd, Key(LabelToIdentities, lbl), id, data);
  }

  method EditLists(etcd: EtcdClient, key: string, id: Identity, data: seq<KeyValue>) returns (status: Status)
    modifies etcd
    ensures Result(etcd.db, status) == WriteBack(old(etcd.db), key, id, data)
  {
    for n := 0 to |data|
      invariant WriteBack(etcd.db, key, id, data[n..]) == WriteBack(old(etcd.db), key, id, data)
    {
      assert data[n..][0] == data[n] && data[n..][1..] == data[n + 1..];
      var slice;
      slice, status := EditInPlace(data[n].value, id);
      if status != Done {
        return;
      }
      etcd.EtcdPut(key, Marshal(slice));
    }
    status := Done;
  }

  /** Unmarshal into `arr` and run the loop on it. */
  method EditInPlace(text: string, id: Identity) returns (slice: Slice, status: Status)
    ensures Edit(slice, status) == EditList(text, id)
  {
    var decoded := Unmarshal(text);
    match decoded
    case Malformed => return Nil, Fatal;
    case Decoded(Nil) => return Nil, Done;
    case Decoded(Of(ids)) =>
      var arr := new Identity[|ids|](i requires 0 <= i < |ids| => ids[i]);
      assert arr[..|ids|] == ids;
      var window, inRange := RemoveInPlace(arr, |ids|, id);
      if !inRange {
        return Nil, Panicked;
      }
      assert arr[..|ids|][..window] == arr[..window];
      return Of(arr[..window]), Done;
  }

  // ---- the identity of a stream ----

  /** `GetIdentityFromContext`: the first value of the metadata entry, or the empty token. */
  function IdentityFromContext(values: seq<string>): Identity {
    ToUint16(Atoi(if |values| > 0 then values[0] else ""))
  }

  /** An agent that presents its formatted identity is served as that identity; one that presents none, as 0. */
  lemma ContextDecodesBack(i: Identity, rest: seq<string>)
    ensures IdentityFromContext([Dec(i)] + rest) == i
    ensures IdentityFromContext([]) == 0
  {
    AtoiRoundTrip(i);
  }

  // ---- registration ----

  /** `IsIdentityServing(identity) == 1`. */
  ghost predicate Accepts(db: Db, identity: string) {
    && (forall k <- db :: !(Key(IdentityToPodIp, identity) <= k))
    && (exists k <- db :: Key(IdentityToLabel, "") <= k && LastSegment(k) == identity)
  }

  method IsIdentityServing(etcd: EtcdClient, identity: string) returns (accepted: bool)
    ensures accepted <==> Accepts(etcd.db, identity)
  {
    var served := etcd.EtcdGet(Key(IdentityToPodIp, identity));
    if |served| > 0 {
      var k :| k in served;
      return false;
    }
    assert forall k <- etcd.db :: Key(IdentityToPodIp, identity) <= k ==> k in served;
    var labels := etcd.EtcdGet(Key(IdentityToLabel, ""));
    var todo := labels.Keys;
    while todo != {}
      invariant todo <= labels.Keys
      invariant forall k <- labels.Keys - todo :: LastSegment(k) != identity
      decreases |todo|
    {
      var key :| key in todo;
      if LastSegment(key) == identity {
        return true;
      }
      todo := todo - {key};
    }
    assert forall k <- etcd.db :: Key(IdentityToLabel, "") <= k ==> k in labels.Keys - todo;
    return false;
  }

  function RegisterDb(db: Db, identity: string, podIp: string, client: nat): Db {
    PutWithTTL(db, Key(IdentityToPodIp, identity), podIp, client)
  }

  method RegisterAgentIdentity(etcd: EtcdClient, identity: string, podIp: string) returns (status: int)
    modifies etcd
    ensures status == if Accepts(old(etcd.db), identity) then 0 else -1
    ensures etcd.db == if !Accepts(old(etcd.db), identity) then old(etcd.db)
                       else old(etcd.db)[Key(IdentityToPodIp, identity) := Entry(podIp, Leased(etcd.lease))]
  {
    var accepted := IsIdentityServing(etcd, identity);
    if !accepted {
      return -1;
    }
    etcd.EtcdPutWithTTL(Key(IdentityToPodIp, identity), podIp);
    return 0;
  }

  /** When every identity-to-label key is one the operator can write, an accepted string is a formatted identity. */
  lemma AcceptedDecodesBack(db: Db, identity: string)
    requires forall k <- db :: Prefix(IdentityToLabel) <= k ==> exists i: Identity :: k == IdKey(IdentityToLabel, i)
    ensures Accepts(db, identity) <==>
            && (forall k <- db :: !(Key(IdentityToPodIp, identity) <= k))
            && (exists i: Identity ::
                  IdKey(IdentityToLabel, i) in db && identity == Dec(i) && ToUint16(Atoi(identity)) == i)
    ensures Accepts(db, identity) ==> '/' !in identity
  {
    var p := Prefix(IdentityToLabel);
    var head := p[..|p| - 1];
    assert p == head + "/" && Key(IdentityToLabel, "") == p;
    forall i: Identity ensures LastSegment(IdKey(IdentityToLabel, i)) == Dec(i) && '/' !in Dec(i) {
      DecAvoids(i, '/');
      assert IdKey(IdentityToLabel, i) == head + "/" + Dec(i);
      LastSegmentRoundTrip(head, Dec(i));
    }
    if k :| k in db && p <= k && LastSegment(k) == identity {
      var i: Identity :| k == IdKey(IdentityToLabel, i);
      AtoiRoundTrip(i);
    }
  }
}

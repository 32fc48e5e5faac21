/** The operator and the server both write the label lists in etcd. */
module TwoWriters {
  import opened Decimal
  import opened Json
  import opened Etcd
  import opened Keys
  import opened SwapRemove
  import opened Registry
  import opened RegistryMaps
  import opened EventWrites
  import opened Server
  import opened Cluster

  /** `x` is listed under `l` in etcd. */
  ghost predicate ListedInEtcd(db: Db, l: string, x: Identity) {
    && Key(LabelToIdentities, l) in db
    && Unmarshal(db[Key(LabelToIdentities, l)].value).Decoded?
    && x in Unmarshal(db[Key(LabelToIdentities, l)].value).slice.Elems()
  }

  /** No list in etcd holds a nonzero identity that the operator's list lacks. */
  ghost predicate Ordered(m: Memory, db: Db) {
    forall l, x: Identity :: x != 0 && ListedInEtcd(db, l, x) ==> x in ListOf(m, l)
  }

  // ---- what holds whether the writers are ordered or not ----

  /** The stored list of `l` decodes, repeats nothing but 0 and has no lease. */
  ghost predicate GoodList(db: Db, l: string)
    requires Key(LabelToIdentities, l) in db
  {
    var entry := db[Key(LabelToIdentities, l)];
    entry.lease == NoLease && Unmarshal(entry.value).Decoded? && NoRepeats(Unmarshal(entry.value).slice.Elems())
  }

  /** The label stored under the identity text `x` has a list, and no lease. */
  ghost predicate GoodLabel(db: Db, x: string)
    requires Key(IdentityToLabel, x) in db
  {
    var entry := db[Key(IdentityToLabel, x)];
    entry.lease == NoLease && Key(LabelToIdentities, entry.value) in db
  }

  ghost predicate Sound(m: Memory, db: Db) {
    && (forall l :: Key(LabelToIdentities, l) in db ==> GoodList(db, l))
    && (forall x :: Key(IdentityToLabel, x) in db ==> GoodLabel(db, x))
    && (forall l <- m.labelToIds :: Key(LabelToIdentities, l) in db)
    && (forall l :: NoRepeats(ListOf(m, l)))
  }

  lemma OperatorKeepsListKeys(m: Memory, db: Db, e: Event, l: string)
    requires Sound(m, db) && Apply(m, e).Ok?
    ensures Key(LabelToIdentities, l) in db ==> Key(LabelToIdentities, l) in ApplyDb(m, db, e)
    ensures l in Apply(m, e).mem.labelToIds ==> Key(LabelToIdentities, l) in ApplyDb(m, db, e)
    ensures Key(LabelToIdentities, l) in ApplyDb(m, db, e) ==> GoodList(ApplyDb(m, db, e), l)
    ensures NoRepeats(ListOf(Apply(m, e).mem, l))
  {
    var m', db' := Apply(m, e).mem, ApplyDb(m, db, e);
    EventList(m, db, e, l);
    EventEffect(m, e);
    EffectKeepsNoRepeats(m, e, m', l);
    MarshalRoundTrip(SliceOf(m', l));
    if !Writes(m, e, l) {
      assert l in m'.labelToIds <==> l in m.labelToIds by { assert SliceOf(m', l) == SliceOf(m, l); }
    }
  }

  lemma OperatorKeepsLabels(m: Memory, db: Db, e: Event, x: string)
    requires Sound(m, db) && Apply(m, e).Ok? && Key(IdentityToLabel, x) in ApplyDb(m, db, e)
    ensures GoodLabel(ApplyDb(m, db, e), x)
  {
    EventKey(m, db, e, IdentityToLabel, x);
    if Relabels(m, e) && x == Dec(EventId(m, e)) {
      EventList(m, db, e, e.lbl);
      OperatorKeepsListKeys(m, db, e, e.lbl);
    } else {
      OperatorKeepsListKeys(m, db, e, db[Key(IdentityToLabel, x)].value);
    }
  }

  lemma OperatorKeepsSound(m: Memory, db: Db, e: Event)
    requires Sound(m, db) && Apply(m, e).Ok?
    ensures Sound(Apply(m, e).mem, ApplyDb(m, db, e))
  {
    var m', db' := Apply(m, e).mem, ApplyDb(m, db, e);
    forall l ensures (Key(LabelToIdentities, l) in db' ==> GoodList(db', l)) && NoRepeats(ListOf(m', l))
                     && (l in m'.labelToIds ==> Key(LabelToIdentities, l) in db') {
      OperatorKeepsListKeys(m, db, e, l);
    }
    forall x | Key(IdentityToLabel, x) in db' ensures GoodLabel(db', x) {
      OperatorKeepsLabels(m, db, e, x);
    }
  }

  lemma OperatorKeepsOrder(m: Memory, db: Db, e: Event)
    requires Ordered(m, db) && Apply(m, e).Ok?
    ensures Ordered(Apply(m, e).mem, ApplyDb(m, db, e))
  {
    var m', db' := Apply(m, e).mem, ApplyDb(m, db, e);
    forall l, x: Identity | x != 0 && ListedInEtcd(db', l, x) ensures x in ListOf(m', l) {
      EventList(m, db, e, l);
      if Writes(m, e, l) {
        MarshalRoundTrip(SliceOf(m', l));
      } else {
        assert ListedInEtcd(db, l, x);
      }
    }
  }

  // ---- actions that the lists do not see ----

  /** The lists and the identity-to-label keys are the same. */
  ghost predicate Unseen(db: Db, db': Db) {
    && (forall l :: Same(db, db', Key(LabelToIdentities, l)))
    && (forall x :: Same(db, db', Key(IdentityToLabel, x)))
  }

  lemma UnseenKeeps(m: Memory, db: Db, db': Db)
    requires Unseen(db, db')
    ensures Sound(m, db) ==> Sound(m, db')
    ensures Ordered(m, db) <==> Ordered(m, db')
  {
    if Sound(m, db) {
      forall l | Key(LabelToIdentities, l) in db' ensures GoodList(db', l) {
        assert Same(db, db', Key(LabelToIdentities, l));
      }
      forall x | Key(IdentityToLabel, x) in db' ensures GoodLabel(db', x) {
        assert Same(db, db', Key(IdentityToLabel, x));
        assert Same(db, db', Key(LabelToIdentities, db[Key(IdentityToLabel, x)].value));
      }
      forall l | l in m.labelToIds ensures Key(LabelToIdentities, l) in db' {
        assert Same(db, db', Key(LabelToIdentities, l));
      }
    }
    forall l, x: Identity ensures ListedInEtcd(db, l, x) <==> ListedInEtcd(db', l, x) {
      assert Same(db, db', Key(LabelToIdentities, l));
    }
  }

  lemma UnserveIsUnseen(db: Db, id: Identity)
    ensures Unseen(db, Unserve(db, id))
  {
    forall x
      ensures Same(db, Unserve(db, id), Key(LabelToIdentities, x))
      ensures Same(db, Unserve(db, id), Key(IdentityToLabel, x))
    {
      DeleteFrame(db, IdentityToPodIp, Dec(id), LabelToIdentities, x);
      DeleteFrame(db, IdentityToPodIp, Dec(id), IdentityToLabel, x);
    }
  }

  lemma RegisterIsUnseen(db: Db, identity: string, podIp: string, client: nat)
    ensures Unseen(db, RegisterDb(db, identity, podIp, client))
  {
    forall ns, x | ns != IdentityToPodIp ensures Key(ns, x) != Key(IdentityToPodIp, identity) {
      KeyPrefix(ns, x, IdentityToPodIp, identity);
    }
  }

  lemma ExpiryIsUnseen(m: Memory, db: Db, client: nat)
    requires Sound(m, db)
    ensures Unseen(db, Expire(db, client))
  {
    forall l ensures Same(db, Expire(db, client), Key(LabelToIdentities, l)) {
      assert Key(LabelToIdentities, l) in db ==> GoodList(db, l);
    }
    forall x ensures Same(db, Expire(db, client), Key(IdentityToLabel, x)) {
      assert Key(IdentityToLabel, x) in db ==> GoodLabel(db, x);
    }
  }

  // ---- a list put by the server ----

  lemma ListPutKeepsSound(m: Memory, db: Db, l: string, slice: Slice)
    requires Sound(m, db) && NoRepeats(slice.Elems())
    ensures Sound(m, Put(db, Key(LabelToIdentities, l), Marshal(slice)))
  {
    var db' := Put(db, Key(LabelToIdentities, l), Marshal(slice));
    MarshalRoundTrip(slice);
    forall k | Key(LabelToIdentities, k) in db' ensures GoodList(db', k) {
      if k != l { PutFrame(db, LabelToIdentities, l, Marshal(slice), LabelToIdentities, k); }
    }
    forall x | Key(IdentityToLabel, x) in db' ensures GoodLabel(db', x) {
      PutFrame(db, LabelToIdentities, l, Marshal(slice), IdentityToLabel, x);
      assert GoodLabel(db, x);
    }
  }

  lemma ListPutKeepsOrderExactlyWhen(m: Memory, db: Db, l: string, slice: Slice)
    requires Ordered(m, db)
    ensures Ordered(m, Put(db, Key(LabelToIdentities, l), Marshal(slice))) <==>
            forall x: Identity :: x != 0 && x in slice.Elems() ==> x in ListOf(m, l)
  {
    var db' := Put(db, Key(LabelToIdentities, l), Marshal(slice));
    MarshalRoundTrip(slice);
    forall k, x: Identity | k != l && ListedInEtcd(db', k, x) ensures ListedInEtcd(db, k, x) {
      PutFrame(db, LabelToIdentities, l, Marshal(slice), LabelToIdentities, k);
    }
    if Ordered(m, db') {
      forall x: Identity | x != 0 && x in slice.Elems() ensures x in ListOf(m, l) {
        assert ListedInEtcd(db', l, x);
      }
    }
  }

  // ---- the disconnect ----

  /** A 0 before the last position: what the edit for identity 0 panics on. */
  ghost predicate EarlyZero(ids: seq<Identity>) { exists i :: 0 <= i < |ids| - 1 && ids[i] == 0 }

  /** Without repetitions an edit takes out the identity and nothing else, or panics, which only the one for 0 can. */
  lemma EditExactly(text: string, id: Identity, slice: Slice)
    requires Unmarshal(text) == Decoded(slice) && NoRepeats(slice.Elems())
    ensures EditList(text, id).status == if id == 0 && EarlyZero(slice.Elems()) then Panicked else Done
    ensures EditList(text, id).status == Done ==>
              && NoRepeats(EditList(text, id).slice.Elems())
              && forall x: Identity :: x != 0 ==>
                   (x in EditList(text, id).slice.Elems() <==> x in slice.Elems() && x != id)
  {
    if slice.Of? {
      if id == 0 {
        ZeroCrashesExactlyWhen(slice.ids);
        EditOfZero(slice.ids);
      } else {
        EditOfNonzero(slice.ids, id);
      }
      if Remove(slice.ids, id).Finished? {
        RemoveKeepsNoRepeats(slice.ids, id);
      }
    }
  }

  lemma EditOfNonzero(ids: seq<Identity>, id: Identity)
    requires id != 0 && NoRepeats(ids)
    ensures var r := Remove(ids, id);
            && r.Finished? && r.window <= |r.buf|
            && forall x: Identity :: x != 0 ==> (x in r.buf[..r.window] <==> x in ids && x != id)
  {
    assert AtMostOnce(ids, id);
    RemoveCounts(ids, id);
    var r := Remove(ids, id);
    var left := r.buf[..r.window];
    forall x: Identity | x != 0 ensures x in left <==> x in ids && x != id {
      assert x in left <==> x in multiset(left);
      assert x in ids <==> x in multiset(ids);
      assert AtMostOnce(ids, x);
      CountOnce(ids, x);
    }
  }

  lemma EditOfZero(ids: seq<Identity>)
    ensures var r := Remove(ids, 0);
            r.Finished? ==>
              && r.window <= |r.buf|
              && forall x: Identity :: x != 0 ==> (x in r.buf[..r.window] <==> x in ids)
  {
    ZeroCrashesExactlyWhen(ids);
    if Remove(ids, 0).Finished? {
      ZeroLoop(ids, 0);
      var w := Remove(ids, 0).window;
      forall x: Identity | x != 0 && x in ids ensures x in ids[..w] {
        var i :| 0 <= i < |ids| && ids[i] == x;
        assert ids[..w][i] == x;
      }
    }
  }

  /** The label under which a scanned list is stored. */
  lemma ScannedLabel(db: Db, id: Identity, kvs: seq<KeyValue>, i: nat) returns (x: string)
    requires Scanned(db, id, kvs) && i < |kvs|
    ensures Key(LabelToIdentities, x) in db && EtcdLabel(db, id) <= x
    ensures kvs[i] == KeyValue(Key(LabelToIdentities, x), db[Key(LabelToIdentities, x)].value)
  {
    var db1 := Unserve(db, id);
    var l := EtcdLabel(db1, id);
    SameLabel(db, id);
    assert Prefix(LabelToIdentities) <= Key(LabelToIdentities, l);
    x := KeyOfNamespace(LabelToIdentities, kvs[i].key);
    KeyPrefix(LabelToIdentities, l, LabelToIdentities, x);
    UnserveFrame(db, id, LabelToIdentities, x);
  }

  lemma SameLabel(db: Db, id: Identity)
    ensures EtcdLabel(Unserve(db, id), id) == EtcdLabel(db, id)
  {
    UnserveFrame(db, id, IdentityToLabel, Dec(id));
  }

  /** The edit of the list stored under `x` panics. */
  ghost predicate PanicsOn(db: Db, id: Identity, x: string) {
    && id == 0 && Key(LabelToIdentities, x) in db
    && var decoded := Unmarshal(db[Key(LabelToIdentities, x)].value);
       decoded.Decoded? && EarlyZero(decoded.slice.Elems())
  }

  lemma ScannedEdits(m: Memory, db: Db, id: Identity, kvs: seq<KeyValue>, i: nat) returns (x: string)
    requires Sound(m, db) && Scanned(db, id, kvs) && i < |kvs|
    ensures Key(LabelToIdentities, x) in db && EtcdLabel(db, id) <= x
    ensures kvs[i] == KeyValue(Key(LabelToIdentities, x), db[Key(LabelToIdentities, x)].value)
    ensures EditList(kvs[i].value, id).status == if PanicsOn(db, id, x) then Panicked else Done
    ensures var edit := EditList(kvs[i].value, id);
            edit.status == Done ==>
              && NoRepeats(edit.slice.Elems())
              && forall y: Identity :: y != 0 ==> (y in edit.slice.Elems() <==> ListedInEtcd(db, x, y) && y != id)
  {
    x := ScannedLabel(db, id, kvs, i);
    assert GoodList(db, x);
    EditExactly(kvs[i].value, id, Unmarshal(kvs[i].value).slice);
  }

  /** What the last successful edit wrote: a scanned list without the identity, under the identity's label. */
  lemma LastScannedListWins(m: Memory, db: Db, id: Identity, kvs: seq<KeyValue>) returns (x: string)
    requires Sound(m, db) && Scanned(db, id, kvs) && Edited(kvs, id) > 0
    ensures Key(LabelToIdentities, x) in db && EtcdLabel(db, id) <= x && !PanicsOn(db, id, x)
    ensures kvs[Edited(kvs, id) - 1].key == Key(LabelToIdentities, x)
    ensures var edit := EditList(db[Key(LabelToIdentities, x)].value, id);
            Disconnect(db, id, kvs).db ==
            Put(Unserve(db, id), Key(LabelToIdentities, EtcdLabel(db, id)), Marshal(edit.slice))
    ensures var edit := EditList(db[Key(LabelToIdentities, x)].value, id);
            && NoRepeats(edit.slice.Elems())
            && forall y: Identity :: y != 0 ==> (y in edit.slice.Elems() <==> ListedInEtcd(db, x, y) && y != id)
  {
    SameLabel(db, id);
    LastEditDecides(Unserve(db, id), Key(LabelToIdentities, EtcdLabel(db, id)), id, kvs);
    x := ScannedEdits(m, db, id, kvs, Edited(kvs, id) - 1);
  }

  /** Without a successful edit no list is written. */
  lemma NothingEdited(db: Db, id: Identity, kvs: seq<KeyValue>)
    requires Edited(kvs, id) == 0
    ensures Disconnect(db, id, kvs).db == Unserve(db, id)
  {
    LastEditDecides(Unserve(db, id), Key(LabelToIdentities, EtcdLabel(Unserve(db, id), id)), id, kvs);
  }

  lemma ScanFinds(db: Db, id: Identity, kvs: seq<KeyValue>, x: string) returns (i: nat)
    requires Scanned(db, id, kvs) && Key(LabelToIdentities, x) in db && EtcdLabel(db, id) <= x
    ensures i < |kvs| && kvs[i].key == Key(LabelToIdentities, x)
  {
    SameLabel(db, id);
    UnserveFrame(db, id, LabelToIdentities, x);
    KeyPrefix(LabelToIdentities, EtcdLabel(db, id), LabelToIdentities, x);
    assert HasKey(kvs, Key(LabelToIdentities, x));
    i :| 0 <= i < |kvs| && kvs[i].key == Key(LabelToIdentities, x);
  }

  ghost predicate SomeExtends(db: Db, id: Identity) {
    exists x :: Key(LabelToIdentities, x) in db && EtcdLabel(db, id) <= x
  }

  ghost predicate SomePanics(db: Db, id: Identity) {
    exists x :: Key(LabelToIdentities, x) in db && EtcdLabel(db, id) <= x && PanicsOn(db, id, x)
  }

  lemma LeaveFinds(db: Db, id: Identity, kvs: seq<KeyValue>)
    requires Scanned(db, id, kvs)
    ensures kvs != [] <==> SomeExtends(db, id)
  {
    if kvs != [] {
      var x := ScannedLabel(db, id, kvs, 0);
    }
    if x :| Key(LabelToIdentities, x) in db && EtcdLabel(db, id) <= x {
      var i := ScanFinds(db, id, kvs, x);
    }
  }

  lemma LeavePanics(m: Memory, db: Db, id: Identity, kvs: seq<KeyValue>)
    requires Sound(m, db) && Scanned(db, id, kvs)
    ensures Edited(kvs, id) < |kvs| <==> SomePanics(db, id)
    ensures Edited(kvs, id) < |kvs| ==> EditList(kvs[Edited(kvs, id)].value, id).status == Panicked
  {
    var n := Edited(kvs, id);
    if n < |kvs| {
      var x := ScannedEdits(m, db, id, kvs, n);
    }
    if x :| Key(LabelToIdentities, x) in db && EtcdLabel(db, id) <= x && PanicsOn(db, id, x) {
      var i := ScanFinds(db, id, kvs, x);
      var z := ScannedEdits(m, db, id, kvs, i);
      KeyPrefix(LabelToIdentities, x, LabelToIdentities, z);
    }
  }

  /** How a disconnect ends, for every identity and every scan order. */
  lemma LeaveStatus(m: Memory, db: Db, id: Identity, kvs: seq<KeyValue>)
    requires Sound(m, db) && Scanned(db, id, kvs)
    ensures Disconnect(db, id, kvs).status ==
            if !SomeExtends(db, id) then NilDereference else if SomePanics(db, id) then Panicked else Done
  {
    SameLabel(db, id);
    LeaveFinds(db, id, kvs);
    LeavePanics(m, db, id, kvs);
    LastEditDecides(Unserve(db, id), Key(LabelToIdentities, EtcdLabel(db, id)), id, kvs);
  }

  /** Whatever etcd lists under `x`, the leaving identity aside, the operator lists under `l`. */
  ghost predicate Belongs(m: Memory, db: Db, id: Identity, x: string, l: string) {
    forall y: Identity :: y != 0 && y != id && ListedInEtcd(db, x, y) ==> y in ListOf(m, l)
  }

  lemma LeaveKeepsSound(m: Memory, db: Db, id: Identity, kvs: seq<KeyValue>)
    requires Sound(m, db) && Scanned(db, id, kvs)
    ensures Sound(m, Disconnect(db, id, kvs).db)
  {
    UnserveIsUnseen(db, id);
    UnseenKeeps(m, db, Unserve(db, id));
    if Edited(kvs, id) == 0 {
      NothingEdited(db, id, kvs);
    } else {
      var x := LastScannedListWins(m, db, id, kvs);
      ListPutKeepsSound(m, Unserve(db, id), EtcdLabel(db, id), EditList(db[Key(LabelToIdentities, x)].value, id).slice);
    }
  }

  /** The label of the last edited list decides. */
  lemma LastLabelDecides(m: Memory, db: Db, id: Identity, kvs: seq<KeyValue>) returns (x: string)
    requires Sound(m, db) && Ordered(m, db) && Scanned(db, id, kvs) && Edited(kvs, id) > 0
    ensures Key(LabelToIdentities, x) in db && EtcdLabel(db, id) <= x && !PanicsOn(db, id, x)
    ensures kvs[Edited(kvs, id) - 1].key == Key(LabelToIdentities, x)
    ensures Ordered(m, Disconnect(db, id, kvs).db) <==> Belongs(m, db, id, x, EtcdLabel(db, id))
  {
    UnserveIsUnseen(db, id);
    UnseenKeeps(m, db, Unserve(db, id));
    x := LastScannedListWins(m, db, id, kvs);
    var slice := EditList(db[Key(LabelToIdentities, x)].value, id).slice;
    ListPutKeepsOrderExactlyWhen(m, Unserve(db, id), EtcdLabel(db, id), slice);
  }

  lemma UneditedKeepsOrder(m: Memory, db: Db, id: Identity, kvs: seq<KeyValue>)
    requires Ordered(m, db) && Edited(kvs, id) == 0
    ensures Ordered(m, Disconnect(db, id, kvs).db)
  {
    NothingEdited(db, id, kvs);
    UnserveIsUnseen(db, id);
    UnseenKeeps(m, db, Unserve(db, id));
  }

  /**
   A test on the store before the call: the lists stored under labels that extend the identity's label, those
   aside that the edit panics on, hold nothing, the identity aside, that the operator does not list under that label.
   */
  ghost predicate Harmless(m: Memory, db: Db, id: Identity) {
    forall x :: Key(LabelToIdentities, x) in db && EtcdLabel(db, id) <= x && !PanicsOn(db, id, x) ==>
      Belongs(m, db, id, x, EtcdLabel(db, id))
  }

  lemma HarmlessKeepsOrder(m: Memory, db: Db, id: Identity, kvs: seq<KeyValue>)
    requires Sound(m, db) && Ordered(m, db) && Harmless(m, db, id) && Scanned(db, id, kvs)
    ensures Ordered(m, Disconnect(db, id, kvs).db)
  {
    if Edited(kvs, id) == 0 {
      UneditedKeepsOrder(m, db, id, kvs);
    } else {
      var x := LastLabelDecides(m, db, id, kvs);
    }
  }

  // ---- a scan whose last edited list is a chosen one ----

  /** The scan finds exactly the stored labels that extend the identity's. */
  lemma FoundKey(db: Db, id: Identity, x: string)
    requires Key(LabelToIdentities, x) in db && EtcdLabel(db, id) <= x
    ensures var found := Scan(Unserve(db, id), Key(LabelToIdentities, EtcdLabel(Unserve(db, id), id)));
            && Key(LabelToIdentities, x) in found
            && found[Key(LabelToIdentities, x)] == db[Key(LabelToIdentities, x)].value
  {
    SameLabel(db, id);
    UnserveFrame(db, id, LabelToIdentities, x);
    KeyPrefix(LabelToIdentities, EtcdLabel(db, id), LabelToIdentities, x);
  }

  /** When nothing panics, a scan that ends with `x`. */
  lemma ScanEndingIn(m: Memory, db: Db, id: Identity, x: string) returns (kvs: seq<KeyValue>)
    requires Sound(m, db) && Key(LabelToIdentities, x) in db && EtcdLabel(db, id) <= x && !SomePanics(db, id)
    ensures Scanned(db, id, kvs) && Edited(kvs, id) > 0 && kvs[Edited(kvs, id) - 1].key == Key(LabelToIdentities, x)
  {
    FoundKey(db, id, x);
    var found := Scan(Unserve(db, id), Key(LabelToIdentities, EtcdLabel(Unserve(db, id), id)));
    kvs := EnumerationEndingIn(found, Key(LabelToIdentities, x));
    LeavePanics(m, db, id, kvs);
  }

  /** When something does, one that starts with `x` and then panics. */
  lemma ScanStartingWith(m: Memory, db: Db, id: Identity, x: string, z: string) returns (kvs: seq<KeyValue>)
    requires Sound(m, db) && Key(LabelToIdentities, x) in db && EtcdLabel(db, id) <= x && !PanicsOn(db, id, x)
    requires Key(LabelToIdentities, z) in db && EtcdLabel(db, id) <= z && PanicsOn(db, id, z)
    ensures Scanned(db, id, kvs) && Edited(kvs, id) > 0 && kvs[Edited(kvs, id) - 1].key == Key(LabelToIdentities, x)
  {
    FoundKey(db, id, x);
    FoundKey(db, id, z);
    KeyPrefix(LabelToIdentities, x, LabelToIdentities, z);
    var found := Scan(Unserve(db, id), Key(LabelToIdentities, EtcdLabel(Unserve(db, id), id)));
    kvs := EnumerationStartingWith(found, Key(LabelToIdentities, x), Key(LabelToIdentities, z));
    FirstTwoEdits(m, db, id, kvs, x, z);
  }

  lemma FirstTwoEdits(m: Memory, db: Db, id: Identity, kvs: seq<KeyValue>, x: string, z: string)
    requires Sound(m, db) && Scanned(db, id, kvs) && |kvs| >= 2 && !PanicsOn(db, id, x) && PanicsOn(db, id, z)
    requires kvs[0].key == Key(LabelToIdentities, x) && kvs[1].key == Key(LabelToIdentities, z)
    ensures Edited(kvs, id) == 1
  {
    var x' := ScannedEdits(m, db, id, kvs, 0);
    var z' := ScannedEdits(m, db, id, kvs, 1);
    KeyPrefix(LabelToIdentities, x, LabelToIdentities, x');
    KeyPrefix(LabelToIdentities, z, LabelToIdentities, z');
  }

  lemma ScanLastEditing(m: Memory, db: Db, id: Identity, x: string) returns (kvs: seq<KeyValue>)
    requires Sound(m, db) && Key(LabelToIdentities, x) in db && EtcdLabel(db, id) <= x && !PanicsOn(db, id, x)
    ensures Scanned(db, id, kvs) && Edited(kvs, id) > 0 && kvs[Edited(kvs, id) - 1].key == Key(LabelToIdentities, x)
  {
    if SomePanics(db, id) {
      var z :| Key(LabelToIdentities, z) in db && EtcdLabel(db, id) <= z && PanicsOn(db, id, z);
      kvs := ScanStartingWith(m, db, id, x, z);
    } else {
      kvs := ScanEndingIn(m, db, id, x);
    }
  }

  /** Some scan moves what etcd lists under `x` to the identity's label. */
  lemma ScanMoves(m: Memory, db: Db, id: Identity, x: string, y: Identity) returns (kvs: seq<KeyValue>)
    requires Sound(m, db) && y != 0 && y != id && EtcdLabel(db, id) <= x && ListedInEtcd(db, x, y)
    requires !PanicsOn(db, id, x)
    ensures Scanned(db, id, kvs) && ListedInEtcd(Disconnect(db, id, kvs).db, EtcdLabel(db, id), y)
  {
    kvs := ScanLastEditing(m, db, id, x);
    var z := LastScannedListWins(m, db, id, kvs);
    KeyPrefix(LabelToIdentities, x, LabelToIdentities, z);
    MarshalRoundTrip(EditList(db[Key(LabelToIdentities, x)].value, id).slice);
  }

  lemma HarmfulBreaksOrder(m: Memory, db: Db, id: Identity) returns (kvs: seq<KeyValue>)
    requires Sound(m, db) && !Harmless(m, db, id)
    ensures Scanned(db, id, kvs) && !Ordered(m, Disconnect(db, id, kvs).db)
  {
    var l := EtcdLabel(db, id);
    var x :| Key(LabelToIdentities, x) in db && l <= x && !PanicsOn(db, id, x) && !Belongs(m, db, id, x, l);
    var y: Identity :| y != 0 && y != id && ListedInEtcd(db, x, y) && y !in ListOf(m, l);
    kvs := ScanMoves(m, db, id, x, y);
  }

  /** In whatever order the scan comes, a disconnect keeps the writers ordered, exactly when it is harmless. */
  lemma DisconnectStaysOrderedExactlyWhen(m: Memory, db: Db, id: Identity)
    requires Sound(m, db) && Ordered(m, db)
    ensures (forall kvs :: Scanned(db, id, kvs) ==> Ordered(m, Disconnect(db, id, kvs).db)) <==> Harmless(m, db, id)
  {
    if Harmless(m, db, id) {
      forall kvs | Scanned(db, id, kvs) ensures Ordered(m, Disconnect(db, id, kvs).db) {
        HarmlessKeepsOrder(m, db, id, kvs);
      }
    } else {
      var kvs := HarmfulBreaksOrder(m, db, id);
    }
  }

  /** It is harmless when no stored label properly extends the identity's. */
  lemma UnextendedIsHarmless(m: Memory, db: Db, id: Identity)
    requires Ordered(m, db) && Unextended(db, EtcdLabel(db, id))
    ensures Harmless(m, db, id)
  {}

  // ---- every interleaving ----

  /** Anything but the wipe at shutdown. */
  predicate Tame(a: Action) { !a.Wipe? }

  ghost predicate TameAt(worlds: seq<World>, actions: seq<Action>, k: nat)
    requires k < |actions| < |worlds|
  {
    Next(worlds[k], actions[k], worlds[k + 1]) && Tame(actions[k])
  }

  ghost predicate TameRun(worlds: seq<World>, actions: seq<Action>) {
    && |worlds| == |actions| + 1 && worlds[0] == EMPTY_WORLD
    && forall k :: 0 <= k < |actions| ==> TameAt(worlds, actions, k)
  }

  lemma TameAtPrefix(worlds: seq<World>, actions: seq<Action>, ws: seq<World>, acts: seq<Action>, k: nat)
    requires k < |actions| < |worlds| && worlds <= ws && actions <= acts && |acts| < |ws|
    ensures TameAt(worlds, actions, k) <==> TameAt(ws, acts, k)
  {
    assert acts[k] == actions[k] && ws[k] == worlds[k] && ws[k + 1] == worlds[k + 1];
  }

  lemma TameExtends(worlds: seq<World>, actions: seq<Action>, ws: seq<World>, acts: seq<Action>)
    requires TameRun(worlds, actions) && |acts| == |actions| + 1 == |ws| - 1 && worlds <= ws && actions <= acts
    requires TameAt(ws, acts, |actions|)
    ensures TameRun(ws, acts)
  {
    forall k | 0 <= k < |acts| ensures TameAt(ws, acts, k) {
      if k < |actions| {
        TameAtPrefix(worlds, actions, ws, acts, k);
      }
    }
    assert ws[0] == worlds[0];
  }

  lemma StepKeepsSound(w: World, a: Action, w': World)
    requires Next(w, a, w') && Tame(a) && Sound(w.mem, w.db)
    ensures Sound(w'.mem, w'.db)
    ensures !a.Leave? && Ordered(w.mem, w.db) ==> Ordered(w'.mem, w'.db)
  {
    match a
    case Operator(e) =>
      OperatorKeepsSound(w.mem, w.db, e);
      if Ordered(w.mem, w.db) { OperatorKeepsOrder(w.mem, w.db, e); }
    case Register(identity, podIp, client) =>
      RegisterIsUnseen(w.db, identity, podIp, client);
      UnseenKeeps(w.mem, w.db, RegisterDb(w.db, identity, podIp, client));
    case Leave(id, kvs) => LeaveKeepsSound(w.mem, w.db, id, kvs);
    case LeaseExpires(client) =>
      ExpiryIsUnseen(w.mem, w.db, client);
      UnseenKeeps(w.mem, w.db, w'.db);
  }

  lemma EmptyIsSound()
    ensures Sound(EMPTY, map[]) && Ordered(EMPTY, map[])
  {}

  lemma StartIsSound(worlds: seq<World>)
    requires worlds != [] && worlds[0] == EMPTY_WORLD
    ensures Sound(worlds[0].mem, worlds[0].db) && Ordered(worlds[0].mem, worlds[0].db)
  {
    EmptyIsSound();
  }

  lemma SoundStep(worlds: seq<World>, actions: seq<Action>, n: nat)
    requires TameRun(worlds, actions) && n < |worlds|
    requires n > 0 ==> Sound(worlds[n - 1].mem, worlds[n - 1].db)
    ensures Sound(worlds[n].mem, worlds[n].db)
  {
    if n == 0 {
      StartIsSound(worlds);
    } else {
      assert TameAt(worlds, actions, n - 1);
      StepKeepsSound(worlds[n - 1], actions[n - 1], worlds[n]);
    }
  }

  lemma {:induction false} SoundThroughout(worlds: seq<World>, actions: seq<Action>, n: nat)
    requires TameRun(worlds, actions) && n < |worlds|
    ensures Sound(worlds[n].mem, worlds[n].db)
    decreases n
  {
    if n > 0 {
      SoundThroughout(worlds, actions, n - 1);
    }
    SoundStep(worlds, actions, n);
  }

  /** The last edited list belongs under the identity's label. */
  ghost predicate LastBelongs(m: Memory, db: Db, id: Identity, kvs: seq<KeyValue>) {
    var n := Edited(kvs, id);
    n > 0 ==> forall x :: kvs[n - 1].key == Key(LabelToIdentities, x) ==> Belongs(m, db, id, x, EtcdLabel(db, id))
  }

  ghost predicate EndsWell(w: World, a: Action) { a.Leave? ==> LastBelongs(w.mem, w.db, a.id, a.kvs) }

  lemma LeaveOrderExactlyWhen(m: Memory, db: Db, id: Identity, kvs: seq<KeyValue>)
    requires Sound(m, db) && Ordered(m, db) && Scanned(db, id, kvs)
    ensures Ordered(m, Disconnect(db, id, kvs).db) <==> LastBelongs(m, db, id, kvs)
  {
    if Edited(kvs, id) == 0 {
      UneditedKeepsOrder(m, db, id, kvs);
    } else {
      var x := LastLabelDecides(m, db, id, kvs);
      forall z | kvs[Edited(kvs, id) - 1].key == Key(LabelToIdentities, z) ensures z == x {
        KeyPrefix(LabelToIdentities, x, LabelToIdentities, z);
      }
    }
  }

  lemma StepKeepsOrderExactlyWhen(w: World, a: Action, w': World)
    requires Next(w, a, w') && Tame(a) && Sound(w.mem, w.db) && Ordered(w.mem, w.db)
    ensures Ordered(w'.mem, w'.db) <==> EndsWell(w, a)
  {
    if a.Leave? {
      LeaveOrderExactlyWhen(w.mem, w.db, a.id, a.kvs);
    } else {
      StepKeepsSound(w, a, w');
    }
  }

  lemma {:induction false} OrderedUpTo(worlds: seq<World>, actions: seq<Action>, n: nat)
    requires TameRun(worlds, actions) && n < |worlds|
    requires forall k {:trigger actions[k]} :: 0 <= k < n ==> EndsWell(worlds[k], actions[k])
    ensures Ordered(worlds[n].mem, worlds[n].db)
    decreases n
  {
    if n == 0 {
      StartIsSound(worlds);
    } else {
      OrderedUpTo(worlds, actions, n - 1);
      SoundThroughout(worlds, actions, n - 1);
      assert TameAt(worlds, actions, n - 1);
      StepKeepsOrderExactlyWhen(worlds[n - 1], actions[n - 1], worlds[n]);
    }
  }

  /** Over a whole run: the writers are ordered throughout exactly when every disconnect ends well. */
  lemma WritersOrderedExactlyWhen(worlds: seq<World>, actions: seq<Action>)
    requires TameRun(worlds, actions)
    ensures (forall n :: 0 <= n < |worlds| ==> Ordered(worlds[n].mem, worlds[n].db)) <==>
            (forall k {:trigger actions[k]} :: 0 <= k < |actions| ==> EndsWell(worlds[k], actions[k]))
  {
    if forall k {:trigger actions[k]} :: 0 <= k < |actions| ==> EndsWell(worlds[k], actions[k]) {
      forall n | 0 <= n < |worlds| ensures Ordered(worlds[n].mem, worlds[n].db) {
        OrderedUpTo(worlds, actions, n);
      }
    }
    if forall n :: 0 <= n < |worlds| ==> Ordered(worlds[n].mem, worlds[n].db) {
      forall k | 0 <= k < |actions| ensures EndsWell(worlds[k], actions[k]) {
        SoundThroughout(worlds, actions, k);
        assert TameAt(worlds, actions, k);
        StepKeepsOrderExactlyWhen(worlds[k], actions[k], worlds[k + 1]);
      }
    }
  }

  /** The disconnect of an identity labelled in etcd, whose label no stored label properly extends. */
  ghost predicate Orderly(w: World, a: Action) {
    match a
    case Leave(id, _) => IdKey(IdentityToLabel, id) in w.db && Unextended(w.db, EtcdLabel(w.db, id))
    case _ => true
  }

  ghost predicate OrderlyAt(worlds: seq<World>, actions: seq<Action>, k: nat)
    requires k < |actions| < |worlds|
  {
    TameAt(worlds, actions, k) && Orderly(worlds[k], actions[k])
  }

  ghost predicate OrderlyRun(worlds: seq<World>, actions: seq<Action>) {
    && |worlds| == |actions| + 1 && worlds[0] == EMPTY_WORLD
    && forall k :: 0 <= k < |actions| ==> OrderlyAt(worlds, actions, k)
  }

  lemma OrderlyIsTame(worlds: seq<World>, actions: seq<Action>)
    requires OrderlyRun(worlds, actions)
    ensures TameRun(worlds, actions)
  {
    forall k | 0 <= k < |actions| ensures TameAt(worlds, actions, k) {
      assert OrderlyAt(worlds, actions, k);
    }
  }

  lemma OneMoreStaysOrdered(w: World, a: Action, w': World)
    requires Next(w, a, w') && Tame(a) && Sound(w.mem, w.db) && Ordered(w.mem, w.db)
    requires a.Leave? ==> Harmless(w.mem, w.db, a.id)
    ensures Ordered(w'.mem, w'.db)
  {
    if a.Leave? {
      HarmlessKeepsOrder(w.mem, w.db, a.id, a.kvs);
    } else {
      StepKeepsSound(w, a, w');
    }
  }

  lemma OrderlyKeepsOrder(w: World, a: Action, w': World)
    requires Next(w, a, w') && Tame(a) && Orderly(w, a) && Sound(w.mem, w.db) && Ordered(w.mem, w.db)
    ensures Ordered(w'.mem, w'.db)
  {
    if a.Leave? {
      UnextendedIsHarmless(w.mem, w.db, a.id);
    }
    OneMoreStaysOrdered(w, a, w');
  }

  lemma OrderlyStep(worlds: seq<World>, actions: seq<Action>, k: nat)
    requires OrderlyRun(worlds, actions) && k + 1 < |worlds|
    ensures Ordered(worlds[k].mem, worlds[k].db) ==> Ordered(worlds[k + 1].mem, worlds[k + 1].db)
  {
    if Ordered(worlds[k].mem, worlds[k].db) {
      OrderlyIsTame(worlds, actions);
      SoundThroughout(worlds, actions, k);
      assert OrderlyAt(worlds, actions, k);
      OrderlyKeepsOrder(worlds[k], actions[k], worlds[k + 1]);
    }
  }

  /** What holds at the start and at each point after one where it holds, holds throughout. */
  lemma {:induction false} HoldsThroughout(holds: seq<bool>, n: nat)
    requires n < |holds| && holds[0] && forall k :: 0 <= k < n && holds[k] ==> holds[k + 1]
    ensures holds[n]
  {
    if n > 0 {
      HoldsThroughout(holds, n - 1);
    }
  }

  /** In every orderly interleaving etcd never lists a nonzero identity that the operator does not. */
  lemma WritersStayOrdered(worlds: seq<World>, actions: seq<Action>, n: nat, l: string, x: Identity)
    requires OrderlyRun(worlds, actions) && n < |worlds|
    ensures x != 0 && ListedInEtcd(worlds[n].db, l, x) ==> x in ListOf(worlds[n].mem, l)
  {
    StartIsSound(worlds);
    var ordered := seq(|worlds|, i requires 0 <= i < |worlds| => Ordered(worlds[i].mem, worlds[i].db));
    forall k | 0 <= k < n && ordered[k] ensures ordered[k + 1] {
      OrderlyStep(worlds, actions, k);
    }
    HoldsThroughout(ordered, n);
  }

  /**
   At any point, how the disconnect of any identity ends: it dereferences nil exactly when no stored label extends
   the identity's, and panics exactly for identity 0 when one that does has a list with a 0 before its last position.
   */
  lemma DisconnectCrashesExactlyWhen(worlds: seq<World>, actions: seq<Action>, n: nat, id: Identity, kvs: seq<KeyValue>)
    requires TameRun(worlds, actions) && n < |worlds| && Scanned(worlds[n].db, id, kvs)
    ensures Disconnect(worlds[n].db, id, kvs).status ==
            if !SomeExtends(worlds[n].db, id) then NilDereference
            else if SomePanics(worlds[n].db, id) then Panicked
            else Done
    ensures id != 0 && IdKey(IdentityToLabel, id) in worlds[n].db ==> Disconnect(worlds[n].db, id, kvs).status == Done
  {
    var m, db := worlds[n].mem, worlds[n].db;
    SoundThroughout(worlds, actions, n);
    LeaveStatus(m, db, id, kvs);
    if IdKey(IdentityToLabel, id) in db {
      assert GoodLabel(db, Dec(id));
      assert Key(LabelToIdentities, EtcdLabel(db, id)) in db;
    }
  }

  // ---- every scan order ----

  /** The same action, or the disconnect of the same identity with another scan. */
  predicate SamePlan(a: Action, b: Action) { a == b || (a.Leave? && b.Leave? && a.id == b.id) }

  ghost predicate PlannedAt(worlds: seq<World>, actions: seq<Action>, plan: seq<Action>, k: nat)
    requires k < |actions| < |worlds| && k < |plan|
  {
    TameAt(worlds, actions, k) && SamePlan(actions[k], plan[k])
  }

  /** A run of the first actions of a plan, with scans in any order. */
  ghost predicate Follows(worlds: seq<World>, actions: seq<Action>, plan: seq<Action>) {
    && |worlds| == |actions| + 1 && worlds[0] == EMPTY_WORLD && |actions| <= |plan|
    && forall k :: 0 <= k < |actions| ==> PlannedAt(worlds, actions, plan, k)
  }

  lemma FollowingIsTame(worlds: seq<World>, actions: seq<Action>, plan: seq<Action>)
    requires Follows(worlds, actions, plan)
    ensures TameRun(worlds, actions)
  {
    forall k | 0 <= k < |actions| ensures TameAt(worlds, actions, k) {
      assert PlannedAt(worlds, actions, plan, k);
    }
  }

  ghost predicate OrderedAtTheEnd(worlds: seq<World>) {
    worlds != [] && Ordered(worlds[|worlds| - 1].mem, worlds[|worlds| - 1].db)
  }

  /** The next action of the plan is no disconnect, or a harmless one. */
  ghost predicate HarmlessNext(worlds: seq<World>, n: nat, plan: seq<Action>) {
    n < |plan| && n < |worlds| && plan[n].Leave? ==> Harmless(worlds[n].mem, worlds[n].db, plan[n].id)
  }

  lemma PlannedAtPrefix(worlds: seq<World>, actions: seq<Action>, ws: seq<World>, acts: seq<Action>, plan: seq<Action>,
                        k: nat)
    requires k < |actions| < |worlds| && worlds <= ws && actions <= acts && |acts| < |ws| && k < |plan|
    ensures PlannedAt(worlds, actions, plan, k) <==> PlannedAt(ws, acts, plan, k)
  {
    TameAtPrefix(worlds, actions, ws, acts, k);
  }

  lemma RunExtends(worlds: seq<World>, actions: seq<Action>, plan: seq<Action>, ws: seq<World>, acts: seq<Action>)
    requires Follows(worlds, actions, plan) && |actions| < |plan|
    requires |acts| == |actions| + 1 == |ws| - 1 && worlds <= ws && actions <= acts
    requires PlannedAt(ws, acts, plan, |actions|)
    ensures Follows(ws, acts, plan)
  {
    forall k | 0 <= k < |acts| ensures PlannedAt(ws, acts, plan, k) {
      if k < |actions| {
        PlannedAtPrefix(worlds, actions, ws, acts, plan, k);
      }
    }
    assert ws[0] == worlds[0];
  }

  lemma RunShortens(worlds: seq<World>, actions: seq<Action>, plan: seq<Action>)
    requires Follows(worlds, actions, plan) && actions != []
    ensures Follows(worlds[..|actions|], actions[..|actions| - 1], plan)
    ensures PlannedAt(worlds, actions, plan, |actions| - 1)
  {
    var ws, acts := worlds[..|actions|], actions[..|actions| - 1];
    forall k | 0 <= k < |acts| ensures PlannedAt(ws, acts, plan, k) {
      PlannedAtPrefix(ws, acts, worlds, actions, plan, k);
    }
  }

  lemma {:induction false} HarmlessPlanStaysOrdered(worlds: seq<World>, actions: seq<Action>, plan: seq<Action>)
    requires Follows(worlds, actions, plan)
    requires forall ws, acts :: Follows(ws, acts, plan) ==> HarmlessNext(ws, |acts|, plan)
    ensures OrderedAtTheEnd(worlds)
    decreases |actions|
  {
    if actions == [] {
      EmptyIsSound();
    } else {
      var n := |actions| - 1;
      var ws, acts := worlds[..n + 1], actions[..n];
      RunShortens(worlds, actions, plan);
      HarmlessPlanStaysOrdered(ws, acts, plan);
      FollowingIsTame(worlds, actions, plan);
      SoundThroughout(worlds, actions, n);
      assert HarmlessNext(ws, |acts|, plan);
      OneMoreStaysOrdered(worlds[n], actions[n], worlds[n + 1]);
    }
  }

  lemma LeaveIsPlanned(worlds: seq<World>, actions: seq<Action>, plan: seq<Action>, n: nat, w: World, id: Identity,
                       kvs: seq<KeyValue>)
    requires n < |actions| < |worlds| && n < |plan| && Scanned(w.db, id, kvs)
    requires worlds[n] == w && worlds[n + 1] == World(w.mem, Disconnect(w.db, id, kvs).db)
    requires actions[n] == Leave(id, kvs) && plan[n].Leave? && plan[n].id == id
    ensures PlannedAt(worlds, actions, plan, n)
  {}

  lemma HarmfulExtends(worlds: seq<World>, actions: seq<Action>, plan: seq<Action>)
    returns (ws: seq<World>, acts: seq<Action>)
    requires Follows(worlds, actions, plan) && OrderedAtTheEnd(worlds)
    requires |actions| < |plan| && Tame(plan[|actions|]) && !HarmlessNext(worlds, |actions|, plan)
    ensures Follows(ws, acts, plan) && !OrderedAtTheEnd(ws)
  {
    var n := |actions|;
    var w, id := worlds[n], plan[n].id;
    FollowingIsTame(worlds, actions, plan);
    SoundThroughout(worlds, actions, n);
    var kvs := HarmfulBreaksOrder(w.mem, w.db, id);
    ws, acts := LeaveExtends(worlds, actions, plan, id, kvs);
  }

  lemma LeaveExtends(worlds: seq<World>, actions: seq<Action>, plan: seq<Action>, id: Identity, kvs: seq<KeyValue>)
    returns (ws: seq<World>, acts: seq<Action>)
    requires Follows(worlds, actions, plan) && |actions| < |plan| && plan[|actions|].Leave?
    requires plan[|actions|].id == id
    requires Scanned(worlds[|actions|].db, id, kvs)
    ensures Follows(ws, acts, plan) && ws != []
    ensures ws[|ws| - 1] == World(worlds[|actions|].mem, Disconnect(worlds[|actions|].db, id, kvs).db)
  {
    var n := |actions|;
    var w := worlds[n];
    var w' := World(w.mem, Disconnect(w.db, id, kvs).db);
    ws, acts := worlds + [w'], actions + [Leave(id, kvs)];
    LeaveIsPlanned(ws, acts, plan, n, w, id, kvs);
    RunExtends(worlds, actions, plan, ws, acts);
  }

  lemma OrderedPlanIsHarmless(worlds: seq<World>, actions: seq<Action>, plan: seq<Action>)
    requires Follows(worlds, actions, plan) && forall a <- plan :: Tame(a)
    requires forall ws, acts :: Follows(ws, acts, plan) ==> OrderedAtTheEnd(ws)
    ensures HarmlessNext(worlds, |actions|, plan)
  {
    if !HarmlessNext(worlds, |actions|, plan) {
      var ws, acts := HarmfulExtends(worlds, actions, plan);
    }
  }

  /**
   For any plan of actions: whatever the scan orders, all its runs are ordered throughout exactly when,
   in each of them, each disconnect that comes up is harmless in the store it meets.
   */
  lemma PlanStaysOrderedExactlyWhen(plan: seq<Action>)
    requires forall a <- plan :: Tame(a)
    ensures (forall worlds, actions :: Follows(worlds, actions, plan) ==> OrderedAtTheEnd(worlds)) <==>
            (forall worlds, actions :: Follows(worlds, actions, plan) ==> HarmlessNext(worlds, |actions|, plan))
  {
    if forall worlds, actions :: Follows(worlds, actions, plan) ==> OrderedAtTheEnd(worlds) {
      forall worlds, actions | Follows(worlds, actions, plan) ensures HarmlessNext(worlds, |actions|, plan) {
        OrderedPlanIsHarmless(worlds, actions, plan);
      }
    }
    if forall worlds, actions :: Follows(worlds, actions, plan) ==> HarmlessNext(worlds, |actions|, plan) {
      forall worlds, actions | Follows(worlds, actions, plan) ensures OrderedAtTheEnd(worlds) {
        HarmlessPlanStaysOrdered(worlds, actions, plan);
      }
    }
  }
}

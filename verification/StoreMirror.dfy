/**
 When the operator's four etcd namespaces equal its four maps. Puts always keep the
 mirror; a delete keeps it exactly when the deleted key leads no other live key.
 */
module StoreMirror {
  import opened Decimal
  import opened Json
  import opened Etcd
  import opened Keys
  import opened Registry
  import opened RegistryMaps
  import opened EventWrites

  // ---- what the store should hold ----

  datatype Binding = Unbound | Bound(value: string)

  /** The identity that a key suffix spells, if it spells one. */
  function IdentityIn(x: string): Identity { ToUint16(Atoi(x)) }

  predicate SpellsIdentity(x: string) { x == Dec(IdentityIn(x)) }

  lemma IdentitiesSpelled(i: Identity)
    ensures IdentityIn(Dec(i)) == i && SpellsIdentity(Dec(i))
  {
    AtoiRoundTrip(i);
  }

  function IdBinding(m: map<Identity, string>, x: string): Binding {
    if SpellsIdentity(x) && IdentityIn(x) in m then Bound(m[IdentityIn(x)]) else Unbound
  }

  /** The binding of the key with suffix `x` in one of the operator's namespaces. */
  function Expected(m: Memory, ns: Namespace, x: string): Binding {
    match ns
    case IdentityToEWName => IdBinding(m.idToName, x)
    case EWNameToIdentity => if x in m.nameToId then Bound(Dec(m.nameToId[x])) else Unbound
    case IdentityToLabel => IdBinding(m.idToLabel, x)
    case LabelToIdentities => if x in m.labelToIds then Bound(Marshal(Of(m.labelToIds[x]))) else Unbound
    case IdentityToPodIp => Unbound
  }

  ghost predicate MirrorsAt(m: Memory, db: Db, ns: Namespace, x: string) {
    var k := Key(ns, x);
    match Expected(m, ns, x)
    case Unbound => k !in db
    case Bound(v) => k in db && db[k] == Entry(v, NoLease)
  }

  /** One namespace of the store equals its map, written without leases. */
  ghost predicate Mirrors(m: Memory, db: Db, ns: Namespace) {
    forall x :: MirrorsAt(m, db, ns, x)
  }

  // ---- the namespaces of identities and names ----

  /** The own key of a removal leads no other live key of the namespace. */
  ghost predicate CleanIn(m: Memory, e: Event, ns: Namespace) {
    Removes(m, e) ==>
      var own := OwnSuffix(ns, EventId(m, e), e.p.name);
      forall x :: own <= x && x != own ==> Expected(m, ns, x) == Unbound
  }

  lemma IdBindingInsert(m: map<Identity, string>, id: Identity, v: string, x: string)
    ensures IdBinding(m[id := v], x) == if x == Dec(id) then Bound(v) else IdBinding(m, x)
  {
    IdentitiesSpelled(id);
  }

  lemma IdBindingRemove(m: map<Identity, string>, id: Identity, x: string)
    ensures IdBinding(m - {id}, x) == if x == Dec(id) then Unbound else IdBinding(m, x)
  {
    IdentitiesSpelled(id);
  }

  lemma ExpectedAfter(m: Memory, e: Event, ns: Namespace, x: string)
    requires Apply(m, e).Ok? && Tracking(ns)
    ensures Expected(Apply(m, e).mem, ns, x) ==
            if x != OwnSuffix(ns, EventId(m, e), e.p.name) then Expected(m, ns, x)
            else if PutsOwn(m, e, ns) then Bound(OwnValue(ns, EventId(m, e), e.p.name, e.lbl))
            else if Removes(m, e) then Unbound
            else Expected(m, ns, x)
  {
    var id := EventId(m, e);
    EventMaps(m, e);
    IdBindingInsert(m.idToName, id, e.p.name, x);
    IdBindingRemove(m.idToName, id, x);
    IdBindingInsert(m.idToLabel, id, e.lbl, x);
    IdBindingRemove(m.idToLabel, id, x);
  }

  lemma EventMirrorsAt(m: Memory, db: Db, e: Event, ns: Namespace, x: string)
    requires Apply(m, e).Ok? && Tracking(ns) && MirrorsAt(m, db, ns, x)
    ensures var own := OwnSuffix(ns, EventId(m, e), e.p.name);
            MirrorsAt(Apply(m, e).mem, ApplyDb(m, db, e), ns, x) <==>
            (Removes(m, e) && own <= x && x != own ==> Expected(m, ns, x) == Unbound)
  {
    EventKey(m, db, e, ns, x);
    ExpectedAfter(m, e, ns, x);
  }

  /** A tracking namespace keeps equal to its map exactly when the event is clean in it. */
  lemma EventMirrorsExactlyWhen(m: Memory, db: Db, e: Event, ns: Namespace)
    requires Apply(m, e).Ok? && Tracking(ns) && Mirrors(m, db, ns)
    ensures Mirrors(Apply(m, e).mem, ApplyDb(m, db, e), ns) <==> CleanIn(m, e, ns)
  {
    var own := OwnSuffix(ns, EventId(m, e), e.p.name);
    forall x
      ensures MirrorsAt(Apply(m, e).mem, ApplyDb(m, db, e), ns, x) <==>
              (Removes(m, e) && own <= x && x != own ==> Expected(m, ns, x) == Unbound)
    {
      assert MirrorsAt(m, db, ns, x);
      EventMirrorsAt(m, db, e, ns, x);
    }
  }

  // ---- the label lists ----

  lemma WrittenIsListed(m: Memory, e: Event, l: string)
    requires Apply(m, e).Ok? && Writes(m, e, l)
    ensures l in Apply(m, e).mem.labelToIds <==> (Removes(m, e) ==> l in m.labelToIds)
  {
    EventEffect(m, e);
  }

  lemma ListMirrorsAt(m: Memory, db: Db, e: Event, l: string)
    requires Apply(m, e).Ok? && MirrorsAt(m, db, LabelToIdentities, l)
    ensures MirrorsAt(Apply(m, e).mem, ApplyDb(m, db, e), LabelToIdentities, l) <==>
            (Writes(m, e, l) && Removes(m, e) ==> l in m.labelToIds)
  {
    EventList(m, db, e, l);
    if Writes(m, e, l) {
      WrittenIsListed(m, e, l);
    } else {
      assert SliceOf(Apply(m, e).mem, l) == SliceOf(m, l);
    }
  }

  /** The label namespace keeps equal to the lists exactly when a DELETED event names a label that has a list. */
  lemma EventListsExactlyWhen(m: Memory, db: Db, e: Event)
    requires Apply(m, e).Ok? && Mirrors(m, db, LabelToIdentities)
    ensures Mirrors(Apply(m, e).mem, ApplyDb(m, db, e), LabelToIdentities) <==>
            (Removes(m, e) ==> e.lbl in m.labelToIds)
  {
    forall l
      ensures MirrorsAt(Apply(m, e).mem, ApplyDb(m, db, e), LabelToIdentities, l) <==>
              (Writes(m, e, l) && Removes(m, e) ==> l in m.labelToIds)
    {
      assert MirrorsAt(m, db, LabelToIdentities, l);
      ListMirrorsAt(m, db, e, l);
    }
    assert Removes(m, e) ==> Writes(m, e, e.lbl);
  }

  // ---- the four namespaces together ----

  ghost predicate Mirror(m: Memory, db: Db) {
    && Mirrors(m, db, IdentityToEWName)
    && Mirrors(m, db, EWNameToIdentity)
    && Mirrors(m, db, IdentityToLabel)
    && Mirrors(m, db, LabelToIdentities)
  }

  /** A DELETED event that finds its policy leads no other live key, and names a label that has a list. */
  ghost predicate Clean(m: Memory, e: Event) {
    && CleanIn(m, e, IdentityToEWName)
    && CleanIn(m, e, EWNameToIdentity)
    && CleanIn(m, e, IdentityToLabel)
    && (Removes(m, e) ==> e.lbl in m.labelToIds)
  }

  lemma EventKeepsMirrorExactlyWhen(m: Memory, db: Db, e: Event)
    requires Mirror(m, db) && Apply(m, e).Ok?
    ensures Mirror(Apply(m, e).mem, ApplyDb(m, db, e)) <==> Clean(m, e)
  {
    EventMirrorsExactlyWhen(m, db, e, IdentityToEWName);
    EventMirrorsExactlyWhen(m, db, e, EWNameToIdentity);
    EventMirrorsExactlyWhen(m, db, e, IdentityToLabel);
    EventListsExactlyWhen(m, db, e);
  }

  lemma EmptyMirrors(ns: Namespace)
    ensures Mirrors(EMPTY, map[], ns)
  {}

  lemma EmptyMirror()
    ensures Mirror(EMPTY, map[])
  {
    EmptyMirrors(IdentityToEWName);
    EmptyMirrors(EWNameToIdentity);
    EmptyMirrors(IdentityToLabel);
    EmptyMirrors(LabelToIdentities);
  }

  // ---- over runs ----

  ghost predicate MirrorAfter(mems: seq<Memory>, dbs: seq<Db>, n: nat)
    requires n < |mems| && n < |dbs|
  {
    Mirror(mems[n], dbs[n])
  }

  lemma MirrorStepExactlyWhen(mems: seq<Memory>, events: seq<Event>, dbs: seq<Db>, n: nat)
    requires StoreRun(mems, events, dbs) && 0 < n <= |events| && MirrorAfter(mems, dbs, n - 1)
    ensures MirrorAfter(mems, dbs, n) <==> Clean(mems[n - 1], events[n - 1])
  {
    assert StoredAt(mems, events, dbs, n - 1);
    EventKeepsMirrorExactlyWhen(mems[n - 1], dbs[n - 1], events[n - 1]);
  }

  lemma MirrorAtStart(mems: seq<Memory>, events: seq<Event>, dbs: seq<Db>)
    requires StoreRun(mems, events, dbs)
    ensures MirrorAfter(mems, dbs, 0)
  {
    EmptyMirror();
  }

  lemma {:induction false} MirrorUpTo(mems: seq<Memory>, events: seq<Event>, dbs: seq<Db>, n: nat)
    requires StoreRun(mems, events, dbs) && n < |dbs|
    requires forall k :: 0 <= k < n ==> Clean(mems[k], events[k])
    ensures MirrorAfter(mems, dbs, n)
    decreases n
  {
    if n == 0 {
      MirrorAtStart(mems, events, dbs);
    } else {
      MirrorUpTo(mems, events, dbs, n - 1);
      MirrorStepExactlyWhen(mems, events, dbs, n);
    }
  }

  lemma CleanBetween(mems: seq<Memory>, events: seq<Event>, dbs: seq<Db>, k: nat)
    requires StoreRun(mems, events, dbs) && k < |events|
    requires forall n :: 0 <= n < |dbs| ==> MirrorAfter(mems, dbs, n)
    ensures Clean(mems[k], events[k])
  {
    var n := k + 1;
    assert MirrorAfter(mems, dbs, n - 1) && MirrorAfter(mems, dbs, n);
    MirrorStepExactlyWhen(mems, events, dbs, n);
  }

  /** In any run, etcd equals the four maps at every point exactly when every DELETED event is clean. */
  lemma StoreMirrorsMemoryExactlyWhen(mems: seq<Memory>, events: seq<Event>, dbs: seq<Db>)
    requires StoreRun(mems, events, dbs)
    ensures (forall n :: 0 <= n < |dbs| ==> MirrorAfter(mems, dbs, n)) <==>
            (forall k :: 0 <= k < |events| ==> Clean(mems[k], events[k]))
  {
    if forall k :: 0 <= k < |events| ==> Clean(mems[k], events[k]) {
      forall n | 0 <= n < |dbs| ensures MirrorAfter(mems, dbs, n) {
        MirrorUpTo(mems, events, dbs, n);
      }
    }
    if forall n :: 0 <= n < |dbs| ==> MirrorAfter(mems, dbs, n) {
      forall k | 0 <= k < |events| ensures Clean(mems[k], events[k]) {
        CleanBetween(mems, events, dbs, k);
      }
    }
  }

  ghost predicate PrefixFree(m: Memory) {
    && (forall i <- m.idToName, j <- m.idToName :: i != j ==> !(Dec(i) <= Dec(j)))
    && (forall a <- m.nameToId, b <- m.nameToId :: a != b ==> !(a <= b))
  }

  /** For the identities it is enough that all of them have five digits. */
  lemma FiveDigitsSuffice(m: Memory)
    requires forall i <- m.idToName :: i >= 10000
    requires forall a <- m.nameToId, b <- m.nameToId :: a != b ==> !(a <= b)
    ensures PrefixFree(m)
  {
    forall i, j | i in m.idToName && j in m.idToName && i != j ensures !(Dec(i) <= Dec(j)) {
      FiveDigitsArePrefixFree(i, j);
    }
  }

  /** Single labels and prefix-free identities and names keep store and memory equal throughout. */
  lemma PrefixFreeRunsMirror(mems: seq<Memory>, events: seq<Event>, dbs: seq<Db>, n: nat)
    requires SingleLabelRun(mems, events) && StoreRun(mems, events, dbs) && n < |dbs|
    requires forall k :: 0 <= k < |mems| ==> PrefixFree(mems[k])
    ensures Mirror(mems[n], dbs[n])
  {
    forall k | 0 <= k < |events| ensures Clean(mems[k], events[k]) {
      assert StoredAt(mems, events, dbs, k) && PrefixFree(mems[k]);
      ConsistentThroughout(mems, events, k);
      LabelIndex(mems, events, k);
      SingleLabelIsClean(mems[k], events[k]);
    }
    MirrorUpTo(mems, events, dbs, n);
  }

  /** Prefix-free identities lead no other identity. */
  lemma PrefixFreeIdsLeadNone(m: Memory, e: Event)
    requires Consistent(m) && forall i <- m.idToName, j <- m.idToName :: i != j ==> !(Dec(i) <= Dec(j))
    ensures CleanIn(m, e, IdentityToEWName) && CleanIn(m, e, IdentityToLabel)
  {
    if Removes(m, e) {
      TrackedIdentity(m, FirstEqual(m.policies, e.p));
      var id := EventId(m, e);
      forall x | Dec(id) <= x && x != Dec(id)
        ensures Expected(m, IdentityToEWName, x) == Unbound && Expected(m, IdentityToLabel, x) == Unbound
      {
        assert SpellsIdentity(x) && IdentityIn(x) in m.idToName ==> IdentityIn(x) == id;
      }
    }
  }

  /** And prefix-free names no other name. */
  lemma PrefixFreeNamesLeadNone(m: Memory, e: Event)
    requires Consistent(m) && forall a <- m.nameToId, b <- m.nameToId :: a != b ==> !(a <= b)
    ensures CleanIn(m, e, EWNameToIdentity)
  {
    if Removes(m, e) {
      TrackedIdentity(m, FirstEqual(m.policies, e.p));
    }
  }

  lemma SingleLabelIsClean(m: Memory, e: Event)
    requires Consistent(m) && Indexed(m) && PrefixFree(m) && LabelChoice(e.p.labels, e.lbl)
    ensures Clean(m, e)
  {
    PrefixFreeIdsLeadNone(m, e);
    PrefixFreeNamesLeadNone(m, e);
    if Removes(m, e) {
      assert m.policies[FirstEqual(m.policies, e.p)] in m.policies;
    }
  }
}

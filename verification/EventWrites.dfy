/**
 What one operator event does to the keys of the store, key by key: which list it
 writes, which identity-to-label keys can appear, and which entries stay as they were.
 */
module EventWrites {
  import opened Decimal
  import opened Json
  import opened Etcd
  import opened Keys
  import opened Registry

  /** The event runs `GenerateExternalWorkloadIdentity`. */
  predicate Adds(m: Memory, e: Event) { e.Added? && e.p !in m.policies }

  /** The event runs `UpdateIdentityLabelsMap`. */
  predicate Relabels(m: Memory, e: Event) {
    Adds(m, e) || (e.Modified? && FirstNamed(m.policies, e.p.name) < |m.policies|)
  }

  /** The event runs `UnMapLabelIdentity`. */
  predicate Removes(m: Memory, e: Event) {
    e.Deleted? && FirstEqual(m.policies, e.p) < |m.policies|
  }

  /** The identity an effective event is about. */
  function EventId(m: Memory, e: Event): Identity {
    if e.Added? then e.draw else IdentityOf(m, e.p.name)
  }

  /** The event puts a list under the key of `l`. */
  predicate Writes(m: Memory, e: Event, l: string) {
    e.lbl == l && (Removes(m, e) || (Relabels(m, e) && EventId(m, e) !in ListOf(m, l)))
  }

  // ---- one key across puts and deletes elsewhere ----

  ghost predicate Same(db: Db, db': Db, k: string) {
    (k in db <==> k in db') && (k in db ==> db[k] == db'[k])
  }

  lemma PutFrame(db: Db, ns: Namespace, s: string, v: string, ns': Namespace, x: string)
    requires ns != ns' || s != x
    ensures Same(db, Put(db, Key(ns, s), v), Key(ns', x))
  {
    KeyPrefix(ns, s, ns', x);
  }

  lemma DeleteFrame(db: Db, ns: Namespace, s: string, ns': Namespace, x: string)
    requires ns != ns' || !(s <= x)
    ensures Same(db, DeletePrefix(db, Key(ns, s)), Key(ns', x))
  {
    KeyPrefix(ns, s, ns', x);
  }

  lemma AllocateFrame(db: Db, name: string, id: Identity, ns: Namespace, x: string)
    requires ns != IdentityToEWName && ns != EWNameToIdentity
    ensures Same(db, AllocateDb(db, name, id), Key(ns, x))
  {
    PutFrame(db, IdentityToEWName, Dec(id), name, ns, x);
    PutFrame(Put(db, IdKey(IdentityToEWName, id), name), EWNameToIdentity, name, Dec(id), ns, x);
  }

  lemma ForgetFrame(db: Db, id: Identity, name: string, ns: Namespace, x: string)
    requires ns == LabelToIdentities || ns == IdentityToPodIp
    ensures Same(db, ForgetDb(db, id, name), Key(ns, x))
  {
    var db1 := DeletePrefix(db, IdKey(IdentityToEWName, id));
    DeleteFrame(db, IdentityToEWName, Dec(id), ns, x);
    DeleteFrame(db1, EWNameToIdentity, name, ns, x);
    DeleteFrame(DeletePrefix(db1, Key(EWNameToIdentity, name)), IdentityToLabel, Dec(id), ns, x);
  }

  // ---- the label lists ----

  /** The list of `l` after an event that puts it, or that leaves it alone. */
  ghost predicate ListEffect(m: Memory, db: Db, m': Memory, db': Db, l: string, written: bool) {
    var k := Key(LabelToIdentities, l);
    if written then k in db' && db'[k] == Entry(Marshal(SliceOf(m', l)), NoLease)
    else Same(db, db', k) && SliceOf(m', l) == SliceOf(m, l)
  }

  lemma RelabelList(m: Memory, db: Db, id: Identity, lbl: string, l: string)
    ensures ListEffect(m, db, Relabel(m, id, lbl), RelabelDb(m, db, id, lbl), l, l == lbl && id !in ListOf(m, l))
  {
    var db1 := Put(db, IdKey(IdentityToLabel, id), lbl);
    PutFrame(db, IdentityToLabel, Dec(id), lbl, LabelToIdentities, l);
    if l != lbl {
      PutFrame(db1, LabelToIdentities, lbl, Marshal(Of(ListOf(m, lbl) + [id])), LabelToIdentities, l);
    }
  }

  lemma UnmapList(m: Memory, db: Db, id: Identity, name: string, lbl: string, m': Memory, l: string)
    requires Unmap(m, id, name, lbl) == Ok(m')
    ensures ListEffect(m, db, m', UnmapDb(m', db, id, name, lbl), l, l == lbl)
  {
    ForgetFrame(db, id, name, LabelToIdentities, l);
    if l != lbl {
      PutFrame(ForgetDb(db, id, name), LabelToIdentities, lbl, Marshal(SliceOf(m', lbl)), LabelToIdentities, l);
    }
  }

  lemma AddedList(m: Memory, db: Db, e: Event, l: string)
    requires e.Added? && e.p !in m.policies
    ensures ListEffect(m, db, Apply(m, e).mem, ApplyDb(m, db, e), l, Writes(m, e, l))
  {
    var m2 := Allocate(m.(policies := m.policies + [e.p]), e.p.name, e.draw);
    AddedUnfolds(m, db, e, m2);
    AllocateFrame(db, e.p.name, e.draw, LabelToIdentities, l);
    RelabelList(m2, AllocateDb(db, e.p.name, e.draw), e.draw, e.lbl, l);
    assert SliceOf(m2, l) == SliceOf(m, l);
  }

  lemma ModifiedList(m: Memory, db: Db, e: Event, l: string, i: nat)
    requires e.Modified? && i == FirstNamed(m.policies, e.p.name) < |m.policies|
    ensures ListEffect(m, db, Apply(m, e).mem, ApplyDb(m, db, e), l, Writes(m, e, l))
  {
    var m1 := m.(policies := m.policies[i := e.p]);
    ModifiedUnfolds(m, db, e, i, m1);
    RelabelList(m1, db, IdentityOf(m, e.p.name), e.lbl, l);
    assert SliceOf(m1, l) == SliceOf(m, l);
  }

  lemma DeletedList(m: Memory, db: Db, e: Event, l: string, i: nat)
    requires e.Deleted? && Apply(m, e).Ok? && i == FirstEqual(m.policies, e.p) < |m.policies|
    ensures ListEffect(m, db, Apply(m, e).mem, ApplyDb(m, db, e), l, Writes(m, e, l))
  {
    var m1 := m.(policies := m.policies[..i] + m.policies[i + 1..]);
    DeletedUnfolds(m, db, e, i, m1);
    UnmapList(m1, db, IdentityOf(m, e.p.name), e.p.name, e.lbl, Apply(m, e).mem, l);
    assert SliceOf(m1, l) == SliceOf(m, l);
  }

  /** An event puts the list it writes as memory then has it, and touches no other list. */
  lemma EventList(m: Memory, db: Db, e: Event, l: string)
    requires Apply(m, e).Ok?
    ensures ListEffect(m, db, Apply(m, e).mem, ApplyDb(m, db, e), l, Writes(m, e, l))
  {
    match e
    case Added(p, _, _) =>
      if p !in m.policies { AddedList(m, db, e, l); }
    case Modified(p, _) =>
      var i := FirstNamed(m.policies, p.name);
      if i < |m.policies| { ModifiedList(m, db, e, l, i); }
    case Deleted(p, _) =>
      var i := FirstEqual(m.policies, p);
      if i < |m.policies| { DeletedList(m, db, e, l, i); }
  }

  // ---- the keys of one identity and of one name ----

  /** A namespace with one key for each identity or name that the operator tracks. */
  predicate Tracking(ns: Namespace) { ns == IdentityToEWName || ns == EWNameToIdentity || ns == IdentityToLabel }

  function OwnSuffix(ns: Namespace, id: Identity, name: string): string {
    if ns == EWNameToIdentity then name else Dec(id)
  }

  function OwnValue(ns: Namespace, id: Identity, name: string, lbl: string): string {
    match ns
    case IdentityToEWName => name
    case EWNameToIdentity => Dec(id)
    case _ => lbl
  }

  /** The event puts the own key of its identity or name. */
  predicate PutsOwn(m: Memory, e: Event, ns: Namespace) {
    if ns == IdentityToLabel then Relabels(m, e) else Adds(m, e)
  }

  /** An event puts its own key; a removal deletes every key that the own one leads; the rest stays. */
  ghost predicate KeyEffect(m: Memory, db: Db, e: Event, db': Db, ns: Namespace, x: string) {
    var k, own := Key(ns, x), OwnSuffix(ns, EventId(m, e), e.p.name);
    if PutsOwn(m, e, ns) && x == own then
      k in db' && db'[k] == Entry(OwnValue(ns, EventId(m, e), e.p.name, e.lbl), NoLease)
    else if Removes(m, e) && own <= x then k !in db'
    else Same(db, db', k)
  }

  lemma AllocateKey(db: Db, name: string, id: Identity, ns: Namespace, x: string)
    requires ns == IdentityToEWName || ns == EWNameToIdentity
    ensures var k, db' := Key(ns, x), AllocateDb(db, name, id);
            if x == OwnSuffix(ns, id, name) then k in db' && db'[k] == Entry(OwnValue(ns, id, name, ""), NoLease)
            else Same(db, db', k)
  {
    var db1 := Put(db, IdKey(IdentityToEWName, id), name);
    if ns != IdentityToEWName || x != Dec(id) {
      PutFrame(db, IdentityToEWName, Dec(id), name, ns, x);
    }
    if ns != EWNameToIdentity || x != name {
      PutFrame(db1, EWNameToIdentity, name, Dec(id), ns, x);
    }
  }

  lemma RelabelFrame(m: Memory, db: Db, id: Identity, lbl: string, ns: Namespace, x: string)
    requires ns != LabelToIdentities && (ns != IdentityToLabel || x != Dec(id))
    ensures Same(db, RelabelDb(m, db, id, lbl), Key(ns, x))
  {
    var db1 := Put(db, IdKey(IdentityToLabel, id), lbl);
    PutFrame(db, IdentityToLabel, Dec(id), lbl, ns, x);
    PutFrame(db1, LabelToIdentities, lbl, Marshal(Of(ListOf(m, lbl) + [id])), ns, x);
  }

  lemma RelabelOwn(m: Memory, db: Db, id: Identity, lbl: string)
    ensures IdKey(IdentityToLabel, id) in RelabelDb(m, db, id, lbl)
    ensures RelabelDb(m, db, id, lbl)[IdKey(IdentityToLabel, id)] == Entry(lbl, NoLease)
  {
    var db1 := Put(db, IdKey(IdentityToLabel, id), lbl);
    PutFrame(db1, LabelToIdentities, lbl, Marshal(Of(ListOf(m, lbl) + [id])), IdentityToLabel, Dec(id));
  }

  lemma DeleteKey(db: Db, ns: Namespace, s: string, x: string)
    ensures if s <= x then Key(ns, x) !in DeletePrefix(db, Key(ns, s))
            else Same(db, DeletePrefix(db, Key(ns, s)), Key(ns, x))
  {
    if s <= x {
      KeyPrefix(ns, s, ns, x);
    } else {
      DeleteFrame(db, ns, s, ns, x);
    }
  }

  lemma DeleteIn(db: Db, ns: Namespace, s: string, ns': Namespace, x: string)
    ensures if ns == ns' && s <= x then Key(ns', x) !in DeletePrefix(db, Key(ns, s))
            else Same(db, DeletePrefix(db, Key(ns, s)), Key(ns', x))
  {
    if ns == ns' {
      DeleteKey(db, ns, s, x);
    } else {
      DeleteFrame(db, ns, s, ns', x);
    }
  }

  lemma ForgetKey(db: Db, id: Identity, name: string, ns: Namespace, x: string)
    requires Tracking(ns)
    ensures if OwnSuffix(ns, id, name) <= x then Key(ns, x) !in ForgetDb(db, id, name)
            else Same(db, ForgetDb(db, id, name), Key(ns, x))
  {
    var db1 := DeletePrefix(db, IdKey(IdentityToEWName, id));
    var db2 := DeletePrefix(db1, Key(EWNameToIdentity, name));
    DeleteIn(db, IdentityToEWName, Dec(id), ns, x);
    DeleteIn(db1, EWNameToIdentity, name, ns, x);
    DeleteIn(db2, IdentityToLabel, Dec(id), ns, x);
  }

  lemma AddedKey(m: Memory, db: Db, e: Event, ns: Namespace, x: string)
    requires Adds(m, e) && Tracking(ns)
    ensures KeyEffect(m, db, e, ApplyDb(m, db, e), ns, x)
  {
    var m2 := Allocate(m.(policies := m.policies + [e.p]), e.p.name, e.draw);
    var db2 := AllocateDb(db, e.p.name, e.draw);
    AddedUnfolds(m, db, e, m2);
    if ns == IdentityToLabel {
      AllocateFrame(db, e.p.name, e.draw, ns, x);
      RelabelOwn(m2, db2, e.draw, e.lbl);
    } else {
      AllocateKey(db, e.p.name, e.draw, ns, x);
    }
    if ns != IdentityToLabel || x != Dec(e.draw) {
      RelabelFrame(m2, db2, e.draw, e.lbl, ns, x);
    }
  }

  lemma ModifiedKey(m: Memory, db: Db, e: Event, ns: Namespace, x: string, i: nat)
    requires e.Modified? && i == FirstNamed(m.policies, e.p.name) < |m.policies| && Tracking(ns)
    ensures KeyEffect(m, db, e, ApplyDb(m, db, e), ns, x)
  {
    var m1, id := m.(policies := m.policies[i := e.p]), IdentityOf(m, e.p.name);
    ModifiedUnfolds(m, db, e, i, m1);
    RelabelOwn(m1, db, id, e.lbl);
    if ns != IdentityToLabel || x != Dec(id) {
      RelabelFrame(m1, db, id, e.lbl, ns, x);
    }
  }

  lemma DeletedKey(m: Memory, db: Db, e: Event, ns: Namespace, x: string, i: nat)
    requires e.Deleted? && Apply(m, e).Ok? && i == FirstEqual(m.policies, e.p) < |m.policies| && Tracking(ns)
    ensures KeyEffect(m, db, e, ApplyDb(m, db, e), ns, x)
  {
    var id, m' := IdentityOf(m, e.p.name), Apply(m, e).mem;
    DeletedUnfolds(m, db, e, i, m.(policies := m.policies[..i] + m.policies[i + 1..]));
    ForgetKey(db, id, e.p.name, ns, x);
    PutFrame(ForgetDb(db, id, e.p.name), LabelToIdentities, e.lbl, Marshal(SliceOf(m', e.lbl)), ns, x);
  }

  lemma EventKey(m: Memory, db: Db, e: Event, ns: Namespace, x: string)
    requires Apply(m, e).Ok? && Tracking(ns)
    ensures KeyEffect(m, db, e, ApplyDb(m, db, e), ns, x)
  {
    match e
    case Added(p, _, _) =>
      if p !in m.policies { AddedKey(m, db, e, ns, x); }
    case Modified(p, _) =>
      var i := FirstNamed(m.policies, p.name);
      if i < |m.policies| { ModifiedKey(m, db, e, ns, x, i); }
    case Deleted(p, _) =>
      var i := FirstEqual(m.policies, p);
      if i < |m.policies| { DeletedKey(m, db, e, ns, x, i); }
  }

  /** What the event does to the three maps that these keys stand for. */
  ghost predicate MapsAfter(m: Memory, e: Event, m': Memory) {
    var id := EventId(m, e);
    && m'.idToName ==
       (if Adds(m, e) then m.idToName[id := e.p.name]
        else if Removes(m, e) then m.idToName - {id} else m.idToName)
    && m'.nameToId ==
       (if Adds(m, e) then m.nameToId[e.p.name := id]
        else if Removes(m, e) then m.nameToId - {e.p.name} else m.nameToId)
    && m'.idToLabel ==
       (if Relabels(m, e) then m.idToLabel[id := e.lbl]
        else if Removes(m, e) then m.idToLabel - {id} else m.idToLabel)
  }

  lemma AddedMaps(m: Memory, e: Event)
    requires Adds(m, e)
    ensures Apply(m, e).Ok? && MapsAfter(m, e, Apply(m, e).mem)
  {
    AddedUnfolds(m, map[], e, Allocate(m.(policies := m.policies + [e.p]), e.p.name, e.draw));
  }

  lemma ModifiedMaps(m: Memory, e: Event, i: nat)
    requires e.Modified? && i == FirstNamed(m.policies, e.p.name) < |m.policies|
    ensures Apply(m, e).Ok? && MapsAfter(m, e, Apply(m, e).mem)
  {
    ModifiedUnfolds(m, map[], e, i, m.(policies := m.policies[i := e.p]));
  }

  lemma DeletedMaps(m: Memory, e: Event, i: nat)
    requires e.Deleted? && Apply(m, e).Ok? && i == FirstEqual(m.policies, e.p) < |m.policies|
    ensures MapsAfter(m, e, Apply(m, e).mem)
  {
    DeletedUnfoldsMaps(m, e, i, m.(policies := m.policies[..i] + m.policies[i + 1..]));
  }

  lemma EventMaps(m: Memory, e: Event)
    requires Apply(m, e).Ok?
    ensures MapsAfter(m, e, Apply(m, e).mem)
  {
    match e
    case Added(p, _, _) =>
      if p !in m.policies { AddedMaps(m, e); }
    case Modified(p, _) =>
      var i := FirstNamed(m.policies, p.name);
      if i < |m.policies| { ModifiedMaps(m, e, i); }
    case Deleted(p, _) =>
      var i := FirstEqual(m.policies, p);
      if i < |m.policies| { DeletedMaps(m, e, i); }
  }

  // ---- the served entries ----

  /** The operator never touches a served entry. */
  lemma EventPods(m: Memory, db: Db, e: Event, x: string)
    requires Apply(m, e).Ok?
    ensures Same(db, ApplyDb(m, db, e), Key(IdentityToPodIp, x))
  {
    match e
    case Added(p, lbl, id) =>
      if p !in m.policies {
        var m2 := Allocate(m.(policies := m.policies + [p]), p.name, id);
        AddedUnfolds(m, db, e, m2);
        AllocateFrame(db, p.name, id, IdentityToPodIp, x);
        RelabelFrame(m2, AllocateDb(db, p.name, id), id, lbl, IdentityToPodIp, x);
      }
    case Modified(p, lbl) =>
      var i := FirstNamed(m.policies, p.name);
      if i < |m.policies| {
        var m1 := m.(policies := m.policies[i := p]);
        ModifiedUnfolds(m, db, e, i, m1);
        RelabelFrame(m1, db, IdentityOf(m, p.name), lbl, IdentityToPodIp, x);
      }
    case Deleted(p, lbl) =>
      var i := FirstEqual(m.policies, p);
      if i < |m.policies| {
        var id, m' := IdentityOf(m, p.name), Apply(m, e).mem;
        DeletedUnfolds(m, db, e, i, m.(policies := m.policies[..i] + m.policies[i + 1..]));
        ForgetFrame(db, id, p.name, IdentityToPodIp, x);
        PutFrame(ForgetDb(db, id, p.name), LabelToIdentities, lbl, Marshal(SliceOf(m', lbl)), IdentityToPodIp, x);
      }
  }
}

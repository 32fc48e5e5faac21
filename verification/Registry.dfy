/**
 What the operator's event handlers compute, as values: the policy list and the
 four in-memory maps, and beside them the etcd store. `Operator.dfy` holds the handlers themselves.
 */
module Registry {
  import opened Decimal
  import opened Json
  import opened Etcd
  import opened Keys
  import opened SwapRemove

  /** A Go label map; `reflect.DeepEqual` tells a nil map from an empty one. */
  datatype Labels = NilLabels | LabelMap(m: map<string, string>) {
    function Pairs(): map<string, string> {
      match this
      case NilLabels => map[]
      case LabelMap(m) => m
    }
  }

  datatype Policy = Policy(name: string, labels: Labels)

  function LabelText(k: string, v: string): string { k + "=" + v }

  /** `label` is a possible result of `convertLabelsToStr`: one pair, whichever comes last. */
  predicate LabelChoice(labels: Labels, lbl: string) {
    if labels.Pairs() == map[] then lbl == ""
    else exists k <- labels.Pairs() :: lbl == LabelText(k, labels.Pairs()[k])
  }

  /** The daemon's own fields. The handlers never read the store. */
  datatype Memory = Memory(
    policies: seq<Policy>,
    idToName: map<Identity, string>,
    nameToId: map<string, Identity>,
    idToLabel: map<Identity, string>,
    labelToIds: map<string, seq<Identity>>)

  const EMPTY := Memory([], map[], map[], map[], map[])

  /** `MapLabelToIdentities[label]`: nil for an unknown label. */
  function SliceOf(m: Memory, lbl: string): Slice {
    if lbl in m.labelToIds then Of(m.labelToIds[lbl]) else Nil
  }

  function ListOf(m: Memory, lbl: string): seq<Identity> { SliceOf(m, lbl).Elems() }

  /** `MapEWNameToIdentity[name]`: 0 for an unknown name. */
  function IdentityOf(m: Memory, name: string): Identity {
    if name in m.nameToId then m.nameToId[name] else 0
  }

  /** The allocator's exit test `MapIdentityToEWName[identity] == ""`. */
  predicate Free(m: Memory, id: Identity) {
    id in m.idToName ==> m.idToName[id] == ""
  }

  // ---- the three helpers, each on the maps and on the store ----

  /** `GenerateExternalWorkloadIdentity` with the draw that exits its loop. */
  function Allocate(m: Memory, name: string, id: Identity): Memory {
    m.(idToName := m.idToName[id := name], nameToId := m.nameToId[name := id])
  }

  function AllocateDb(db: Db, name: string, id: Identity): Db {
    Put(Put(db, IdKey(IdentityToEWName, id), name), Key(EWNameToIdentity, name), Dec(id))
  }

  /** `UpdateIdentityLabelsMap`. */
  function Relabel(m: Memory, id: Identity, lbl: string): Memory {
    var m1 := m.(idToLabel := m.idToLabel[id := lbl]);
    if id in ListOf(m, lbl) then m1
    else m1.(labelToIds := m.labelToIds[lbl := ListOf(m, lbl) + [id]])
  }

  function RelabelDb(m: Memory, db: Db, id: Identity, lbl: string): Db {
    var db1 := Put(db, IdKey(IdentityToLabel, id), lbl);
    if id in ListOf(m, lbl) then db1
    else Put(db1, Key(LabelToIdentities, lbl), Marshal(Of(ListOf(m, lbl) + [id])))
  }

  datatype Result = Ok(mem: Memory) | Crash

  /** `UnMapLabelIdentity`; the stored slice keeps its length. */
  function Unmap(m: Memory, id: Identity, name: string, lbl: string): Result {
    var m1 := m.(idToName := m.idToName - {id}, nameToId := m.nameToId - {name}, idToLabel := m.idToLabel - {id});
    match Remove(ListOf(m, lbl), id)
    case OutOfRange => Crash
    case Finished(buf, _) =>
      Ok(if lbl in m.labelToIds then m1.(labelToIds := m.labelToIds[lbl := buf]) else m1)
  }

  function ForgetDb(db: Db, id: Identity, name: string): Db {
    var db1 := DeletePrefix(db, IdKey(IdentityToEWName, id));
    var db2 := DeletePrefix(db1, Key(EWNameToIdentity, name));
    DeletePrefix(db2, IdKey(IdentityToLabel, id))
  }

  /** `m` is the memory after the list was edited. */
  function UnmapDb(m: Memory, db: Db, id: Identity, name: string, lbl: string): Db {
    Put(ForgetDb(db, id, name), Key(LabelToIdentities, lbl), Marshal(SliceOf(m, lbl)))
  }

  function FirstNamed(ps: seq<Policy>, name: string): (i: nat)
    ensures i <= |ps|
    ensures forall j :: 0 <= j < i ==> ps[j].name != name
    ensures i < |ps| ==> ps[i].name == name
  {
    if ps == [] || ps[0].name == name then 0 else 1 + FirstNamed(ps[1..], name)
  }

  function FirstEqual(ps: seq<Policy>, p: Policy): (i: nat)
    ensures i <= |ps|
    ensures forall j :: 0 <= j < i ==> ps[j] != p
    ensures i < |ps| ==> ps[i] == p
  {
    if ps == [] || ps[0] == p then 0 else 1 + FirstEqual(ps[1..], p)
  }

  /** A watch event with its nondeterminism resolved: the label picked and the identity drawn. */
  datatype Event =
    | Added(p: Policy, lbl: string, draw: Identity)
    | Modified(p: Policy, lbl: string)
    | Deleted(p: Policy, lbl: string)

  predicate Enabled(m: Memory, e: Event) {
    && LabelChoice(e.p.labels, e.lbl)
    && (e.Added? && e.p !in m.policies ==> Free(m, e.draw))
  }

  function Apply(m: Memory, e: Event): Result {
    match e
    case Added(p, lbl, draw) =>
      if p in m.policies then Ok(m)
      else Ok(Relabel(Allocate(m.(policies := m.policies + [p]), p.name, draw), draw, lbl))
    case Modified(p, lbl) =>
      var i := FirstNamed(m.policies, p.name);
      if i == |m.policies| then Ok(m)
      else Ok(Relabel(m.(policies := m.policies[i := p]), IdentityOf(m, p.name), lbl))
    case Deleted(p, lbl) =>
      var i := FirstEqual(m.policies, p);
      if i == |m.policies| then Ok(m)
      else Unmap(m.(policies := m.policies[..i] + m.policies[i + 1..]), IdentityOf(m, p.name), p.name, lbl)
  }

  /** The store writes of the same event. */
  function ApplyDb(m: Memory, db: Db, e: Event): Db
    requires Apply(m, e).Ok?
  {
    match e
    case Added(p, lbl, draw) =>
      if p in m.policies then db
      else RelabelDb(Allocate(m.(policies := m.policies + [p]), p.name, draw), AllocateDb(db, p.name, draw), draw, lbl)
    case Modified(p, lbl) =>
      var i := FirstNamed(m.policies, p.name);
      if i == |m.policies| then db
      else RelabelDb(m.(policies := m.policies[i := p]), db, IdentityOf(m, p.name), lbl)
    case Deleted(p, lbl) =>
      if FirstEqual(m.policies, p) == |m.policies| then db
      else UnmapDb(Apply(m, e).mem, db, IdentityOf(m, p.name), p.name, lbl)
  }

  lemma AddedUnfolds(m: Memory, db: Db, e: Event, m2: Memory)
    requires e.Added? && e.p !in m.policies && m2 == Allocate(m.(policies := m.policies + [e.p]), e.p.name, e.draw)
    ensures Apply(m, e) == Ok(Relabel(m2, e.draw, e.lbl))
    ensures ApplyDb(m, db, e) == RelabelDb(m2, AllocateDb(db, e.p.name, e.draw), e.draw, e.lbl)
  {}

  lemma ModifiedUnfolds(m: Memory, db: Db, e: Event, i: nat, m1: Memory)
    requires e.Modified? && i == FirstNamed(m.policies, e.p.name) < |m.policies|
    requires m1 == m.(policies := m.policies[i := e.p])
    ensures Apply(m, e) == Ok(Relabel(m1, IdentityOf(m, e.p.name), e.lbl))
    ensures ApplyDb(m, db, e) == RelabelDb(m1, db, IdentityOf(m, e.p.name), e.lbl)
  {}

  lemma DeletedUnfoldsMaps(m: Memory, e: Event, i: nat, m1: Memory)
    requires e.Deleted? && i == FirstEqual(m.policies, e.p) < |m.policies|
    requires m1 == m.(policies := m.policies[..i] + m.policies[i + 1..])
    ensures Unmap(m1, IdentityOf(m, e.p.name), e.p.name, e.lbl) == Apply(m, e)
  {}

  lemma DeletedUnfolds(m: Memory, db: Db, e: Event, i: nat, m1: Memory)
    requires e.Deleted? && Apply(m, e).Ok?
    requires i == FirstEqual(m.policies, e.p) < |m.policies|
    requires m1 == m.(policies := m.policies[..i] + m.policies[i + 1..])
    ensures Unmap(m1, IdentityOf(m, e.p.name), e.p.name, e.lbl) == Apply(m, e)
    ensures ApplyDb(m, db, e) == UnmapDb(Apply(m, e).mem, db, IdentityOf(m, e.p.name), e.p.name, e.lbl)
  {}

  /** What the API server guarantees about the events. */
  ghost predicate FromApi(m: Memory, e: Event) {
    && e.p.name != ""
    && match e
       case Added(p, _, _) => p in m.policies || forall q <- m.policies :: q.name != p.name
       case Modified(_, _) => true
       case Deleted(p, _) => forall q <- m.policies :: q.name == p.name ==> q == p
  }

  /** And an identity other than 0 for a new policy. */
  ghost predicate WellFormed(m: Memory, e: Event) {
    FromApi(m, e) && (e.Added? && e.p !in m.policies ==> e.draw != 0)
  }

  ghost predicate Step(m: Memory, e: Event, m': Memory) {
    Enabled(m, e) && Apply(m, e) == Ok(m')
  }

  ghost predicate StepAt(mems: seq<Memory>, events: seq<Event>, k: nat)
    requires k < |events| < |mems|
  {
    Step(mems[k], events[k], mems[k + 1])
  }

  /** Every run of the operator from its initial state. */
  ghost predicate IsRun(mems: seq<Memory>, events: seq<Event>) {
    && |mems| == |events| + 1
    && mems[0] == EMPTY
    && forall k :: 0 <= k < |events| ==> StepAt(mems, events, k)
  }

  ghost predicate WellFormedRun(mems: seq<Memory>, events: seq<Event>) {
    && IsRun(mems, events)
    && forall k {:trigger events[k]} :: 0 <= k < |events| ==> WellFormed(mems[k], events[k])
  }

  ghost predicate StoredAt(mems: seq<Memory>, events: seq<Event>, dbs: seq<Db>, k: nat)
    requires k < |events| < |mems| == |dbs|
  {
    Step(mems[k], events[k], mems[k + 1]) && dbs[k + 1] == ApplyDb(mems[k], dbs[k], events[k])
  }

  /** The store along a run: the same events, from an empty etcd. */
  ghost predicate StoreRun(mems: seq<Memory>, events: seq<Event>, dbs: seq<Db>) {
    && IsRun(mems, events)
    && |dbs| == |mems|
    && dbs[0] == map[]
    && forall k :: 0 <= k < |events| ==> StoredAt(mems, events, dbs, k)
  }

  // ---- longer runs ----

  lemma StepAtPrefix(mems: seq<Memory>, events: seq<Event>, ms: seq<Memory>, es: seq<Event>, k: nat)
    requires k < |events| < |mems| && mems <= ms && events <= es && |es| < |ms|
    ensures StepAt(mems, events, k) <==> StepAt(ms, es, k)
  {
    assert es[k] == events[k] && ms[k] == mems[k] && ms[k + 1] == mems[k + 1];
  }

  lemma RunGrows(mems: seq<Memory>, events: seq<Event>, ms: seq<Memory>, es: seq<Event>)
    requires IsRun(mems, events) && |es| == |events| + 1 == |ms| - 1 && mems <= ms && events <= es
    requires StepAt(ms, es, |events|)
    ensures IsRun(ms, es)
  {
    forall k | 0 <= k < |es| ensures StepAt(ms, es, k) {
      if k < |events| {
        StepAtPrefix(mems, events, ms, es, k);
      }
    }
    assert ms[0] == mems[0];
  }

  lemma StoredAtPrefix(mems: seq<Memory>, events: seq<Event>, dbs: seq<Db>, ms: seq<Memory>, es: seq<Event>,
                       ds: seq<Db>, k: nat)
    requires k < |events| < |mems| == |dbs| && |es| < |ms| == |ds| && mems <= ms && events <= es && dbs <= ds
    ensures StoredAt(mems, events, dbs, k) <==> StoredAt(ms, es, ds, k)
  {
    assert es[k] == events[k] && ms[k] == mems[k] && ms[k + 1] == mems[k + 1];
    assert ds[k] == dbs[k] && ds[k + 1] == dbs[k + 1];
  }

  lemma StoredGrows(mems: seq<Memory>, events: seq<Event>, dbs: seq<Db>, ms: seq<Memory>, es: seq<Event>, ds: seq<Db>,
                    k: nat)
    requires StoreRun(mems, events, dbs) && |es| == |events| + 1 == |ms| - 1 && |ds| == |ms|
    requires mems <= ms && events <= es && dbs <= ds && StoredAt(ms, es, ds, |events|) && k < |es|
    ensures StoredAt(ms, es, ds, k)
  {
    if k < |events| {
      assert StoredAt(mems, events, dbs, k);
      StoredAtPrefix(mems, events, dbs, ms, es, ds, k);
    }
  }

  lemma StoreRunGrows(mems: seq<Memory>, events: seq<Event>, dbs: seq<Db>, ms: seq<Memory>, es: seq<Event>, ds: seq<Db>)
    requires StoreRun(mems, events, dbs) && |es| == |events| + 1 == |ms| - 1 && |ds| == |ms|
    requires mems <= ms && events <= es && dbs <= ds && StepAt(ms, es, |events|) && StoredAt(ms, es, ds, |events|)
    ensures StoreRun(ms, es, ds)
  {
    RunGrows(mems, events, ms, es);
    forall k | 0 <= k < |es| ensures StoredAt(ms, es, ds, k) {
      StoredGrows(mems, events, dbs, ms, es, ds, k);
    }
    assert ds[0] == dbs[0];
  }

  ghost function StoreAfter(mems: seq<Memory>, events: seq<Event>, n: nat): Db
    requires IsRun(mems, events) && n < |mems|
  {
    if n == 0 then map[]
    else assert StepAt(mems, events, n - 1); ApplyDb(mems[n - 1], StoreAfter(mems, events, n - 1), events[n - 1])
  }

  ghost function Stores(mems: seq<Memory>, events: seq<Event>): (dbs: seq<Db>)
    requires IsRun(mems, events)
    ensures |dbs| == |mems| && forall n :: 0 <= n < |dbs| ==> dbs[n] == StoreAfter(mems, events, n)
  {
    seq(|mems|, n requires 0 <= n < |mems| => StoreAfter(mems, events, n))
  }

  lemma StoreAfterNext(mems: seq<Memory>, events: seq<Event>, k: nat)
    requires IsRun(mems, events) && k < |events|
    ensures Step(mems[k], events[k], mems[k + 1])
    ensures StoreAfter(mems, events, k + 1) == ApplyDb(mems[k], StoreAfter(mems, events, k), events[k])
  {
    assert StepAt(mems, events, k);
  }

  lemma StoresStep(mems: seq<Memory>, events: seq<Event>, dbs: seq<Db>, k: nat)
    requires IsRun(mems, events) && k < |events| && dbs == Stores(mems, events)
    ensures StoredAt(mems, events, dbs, k)
  {
    StoreAfterNext(mems, events, k);
    assert dbs[k] == StoreAfter(mems, events, k) && dbs[k + 1] == StoreAfter(mems, events, k + 1);
  }

  /** Every run has its store run. */
  lemma StoreRunExists(mems: seq<Memory>, events: seq<Event>) returns (dbs: seq<Db>)
    requires IsRun(mems, events)
    ensures StoreRun(mems, events, dbs)
  {
    dbs := Stores(mems, events);
    assert dbs[0] == StoreAfter(mems, events, 0);
    forall k | 0 <= k < |events| ensures StoredAt(mems, events, dbs, k) {
      StoresStep(mems, events, dbs, k);
    }
  }
}

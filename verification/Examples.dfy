/** Concrete runs that show why the theorems about runs need their conditions. */
module Examples {
  import opened Text
  import opened Decimal
  import opened Json
  import opened Etcd
  import opened Keys
  import opened SwapRemove
  import opened Registry
  import opened RegistryMaps
  import opened StoreMirror
  import opened EventWrites
  import opened Messages
  import opened FanOut
  import opened Cache
  import opened Server
  import opened Cluster
  import opened TwoWriters
  import opened Routing

  // ---- one event at a time ----

  function One(k: string, v: string): Labels { LabelMap(map[k := v]) }

  lemma OneChoice(k: string, v: string)
    ensures LabelChoice(One(k, v), LabelText(k, v)) && Single(One(k, v))
  {
    assert k in One(k, v).Pairs();
    OnePairIsSingle(One(k, v));
  }

  lemma AddNew(m: Memory, p: Policy, lbl: string, id: Identity) returns (m': Memory)
    requires p.name != "" && id != 0 && Free(m, id) && LabelChoice(p.labels, lbl)
    requires forall q <- m.policies :: q.name != p.name
    ensures Step(m, Added(p, lbl, id), m') && WellFormed(m, Added(p, lbl, id)) && AddedFields(m, p, lbl, id, m')
  {
    m' := Apply(m, Added(p, lbl, id)).mem;
    EventEffect(m, Added(p, lbl, id));
  }

  lemma DeleteTracked(m: Memory, p: Policy, lbl: string, i: nat) returns (m': Memory)
    requires i == FirstEqual(m.policies, p) < |m.policies| && p.name != "" && IdentityOf(m, p.name) != 0
    requires LabelChoice(p.labels, lbl) && forall q <- m.policies :: q.name == p.name ==> q == p
    ensures Step(m, Deleted(p, lbl), m') && WellFormed(m, Deleted(p, lbl))
    ensures DeletedFields(m, i, lbl, IdentityOf(m, p.name), m')
  {
    CrashesExactlyWhen(m, Deleted(p, lbl));
    m' := Apply(m, Deleted(p, lbl)).mem;
    EventEffect(m, Deleted(p, lbl));
  }

  /** The state after one workload was added. */
  ghost predicate OnlyWorkload(m: Memory, p: Policy, lbl: string, id: Identity) {
    && m.policies == [p] && m.idToName == map[id := p.name] && m.nameToId == map[p.name := id]
    && m.idToLabel == map[id := lbl] && m.labelToIds == map[lbl := [id]]
  }

  lemma AddFirst(p: Policy, lbl: string, id: Identity) returns (m': Memory)
    requires p.name != "" && id != 0 && LabelChoice(p.labels, lbl)
    ensures Step(EMPTY, Added(p, lbl, id), m') && WellFormed(EMPTY, Added(p, lbl, id)) && OnlyWorkload(m', p, lbl, id)
  {
    m' := AddNew(EMPTY, p, lbl, id);
    assert [] + [id] == [id] && [] + [p] == [p];
  }

  lemma RunOfTwo(m1: Memory, m2: Memory, e1: Event, e2: Event)
    requires Step(EMPTY, e1, m1) && Step(m1, e2, m2) && WellFormed(EMPTY, e1) && WellFormed(m1, e2)
    ensures WellFormedRun([EMPTY, m1, m2], [e1, e2])
    ensures Single(e1.p.labels) && Single(e2.p.labels) ==> SingleLabelRun([EMPTY, m1, m2], [e1, e2])
  {
    assert StepAt([EMPTY, m1], [e1], 0);
    assert StepAt([EMPTY, m1, m2], [e1, e2], 1);
    RunGrows([EMPTY], [], [EMPTY, m1], [e1]);
    RunGrows([EMPTY, m1], [e1], [EMPTY, m1, m2], [e1, e2]);
  }

  lemma RunOfThree(m1: Memory, m2: Memory, m3: Memory, e1: Event, e2: Event, e3: Event)
    requires SingleLabelRun([EMPTY, m1, m2], [e1, e2])
    requires Step(m2, e3, m3) && WellFormed(m2, e3) && Single(e3.p.labels)
    ensures SingleLabelRun([EMPTY, m1, m2, m3], [e1, e2, e3])
  {
    var mems, events := [EMPTY, m1, m2], [e1, e2];
    var ms, es := [EMPTY, m1, m2, m3], [e1, e2, e3];
    assert StepAt(ms, es, 2);
    RunGrows(mems, events, ms, es);
    assert mems[0] == EMPTY && mems[1] == m1 && events[0] == e1 && events[1] == e2;
  }

  // ---- the mirror ----

  lemma TwoLabelWorkload() returns (m1: Memory, m2: Memory, e1: Event, e2: Event)
    ensures Step(EMPTY, e1, m1) && Step(m1, e2, m2) && WellFormed(EMPTY, e1) && WellFormed(m1, e2)
    ensures PrefixFree(m1) && PrefixFree(m2) && e1.Added? && !Clean(m1, e2)
    ensures Removes(m1, e2) && e2.lbl !in m1.labelToIds
  {
    var p := Policy("w", LabelMap(map["a" := "b", "c" := "d"]));
    var l, l' := LabelText("a", "b"), LabelText("c", "d");
    assert l[0] == 'a' && l'[0] == 'c';
    assert LabelChoice(p.labels, l) by { assert "a" in p.labels.Pairs(); }
    assert LabelChoice(p.labels, l') by { assert "c" in p.labels.Pairs(); }
    m1 := AddFirst(p, l, 10001);
    m2 := DeleteTracked(m1, p, l', 0);
    e1, e2 := Added(p, l, 10001), Deleted(p, l');
  }

  lemma AddedIsClean(m: Memory, e: Event)
    requires e.Added?
    ensures Clean(m, e)
  {}

  /** An ADDED event keeps the mirror. */
  lemma MirrorAfterAdded(mems: seq<Memory>, events: seq<Event>, dbs: seq<Db>, n: nat)
    requires StoreRun(mems, events, dbs) && 0 < n <= |events| && MirrorAfter(mems, dbs, n - 1) && events[n - 1].Added?
    ensures MirrorAfter(mems, dbs, n)
  {
    AddedIsClean(mems[n - 1], events[n - 1]);
    MirrorStepExactlyWhen(mems, events, dbs, n);
  }

  lemma {:induction false} MirrorAfterAdditions(mems: seq<Memory>, events: seq<Event>, dbs: seq<Db>, n: nat)
    requires StoreRun(mems, events, dbs) && n <= |events| && forall k :: 0 <= k < n ==> events[k].Added?
    ensures MirrorAfter(mems, dbs, n)
    decreases n
  {
    if n == 0 {
      MirrorAtStart(mems, events, dbs);
    } else {
      MirrorAfterAdditions(mems, events, dbs, n - 1);
      MirrorAfterAdded(mems, events, dbs, n);
    }
  }

  /** The first event after some additions breaks the mirror if it is not clean. */
  lemma BrokenAfterAdditions(mems: seq<Memory>, events: seq<Event>, n: nat) returns (dbs: seq<Db>)
    requires IsRun(mems, events) && 0 < n <= |events| && !Clean(mems[n - 1], events[n - 1])
    requires forall k :: 0 <= k < n - 1 ==> events[k].Added?
    ensures StoreRun(mems, events, dbs) && !MirrorAfter(mems, dbs, n)
  {
    dbs := StoreRunExists(mems, events);
    MirrorAfterAdditions(mems, events, dbs, n - 1);
    MirrorStepExactlyWhen(mems, events, dbs, n);
  }

  lemma BrokenAtTwo(m1: Memory, m2: Memory, e1: Event, e2: Event) returns (dbs: seq<Db>)
    requires Step(EMPTY, e1, m1) && Step(m1, e2, m2) && WellFormed(EMPTY, e1) && WellFormed(m1, e2)
    requires e1.Added? && !Clean(m1, e2)
    ensures WellFormedRun([EMPTY, m1, m2], [e1, e2]) && StoreRun([EMPTY, m1, m2], [e1, e2], dbs)
    ensures !MirrorAfter([EMPTY, m1, m2], dbs, 2)
  {
    RunOfTwo(m1, m2, e1, e2);
    dbs := BrokenAfterAdditions([EMPTY, m1, m2], [e1, e2], 2);
  }

  lemma EmptyIsPrefixFree()
    ensures PrefixFree(EMPTY)
  {}

  /** A deletion under a label without a list puts `null`. */
  lemma StrayNull(mems: seq<Memory>, events: seq<Event>, dbs: seq<Db>, k: nat)
    requires StoreRun(mems, events, dbs) && k < |events| && Removes(mems[k], events[k])
    requires events[k].lbl !in mems[k].labelToIds
    ensures var l := events[k].lbl;
            && l !in mems[k + 1].labelToIds && Key(LabelToIdentities, l) in dbs[k + 1]
            && dbs[k + 1][Key(LabelToIdentities, l)] == Entry("null", NoLease)
  {
    assert StoredAt(mems, events, dbs, k);
    EventList(mems[k], dbs[k], events[k], events[k].lbl);
    EventEffect(mems[k], events[k]);
  }

  /** With two labels, DELETED may name a label that was never indexed, and then writes a stray key. */
  lemma TwoLabelsBreakTheMirror() returns (m1: Memory, m2: Memory, e1: Event, e2: Event, dbs: seq<Db>)
    ensures WellFormedRun([EMPTY, m1, m2], [e1, e2]) && StoreRun([EMPTY, m1, m2], [e1, e2], dbs)
    ensures PrefixFree(EMPTY) && PrefixFree(m1) && PrefixFree(m2)
    ensures !MirrorAfter([EMPTY, m1, m2], dbs, 2)
    ensures e2.lbl !in m2.labelToIds && Key(LabelToIdentities, e2.lbl) in dbs[2]
    ensures dbs[2][Key(LabelToIdentities, e2.lbl)] == Entry("null", NoLease)
  {
    m1, m2, e1, e2 := TwoLabelWorkload();
    EmptyIsPrefixFree();
    dbs := BrokenAtTwo(m1, m2, e1, e2);
    StrayNull([EMPTY, m1, m2], [e1, e2], dbs, 1);
  }

  /** The deletion of identity 1 is not clean while 12 is live. */
  lemma OneLeadsTwelve(m: Memory, e: Event)
    requires Removes(m, e) && EventId(m, e) == 1 && 12 in m.idToName
    ensures !CleanIn(m, e, IdentityToEWName)
  {
    assert InBlock(1, 1, 12) by { assert Pow10(1) == 10; }
    PrefixReach(1, 12);
    DecInjective(1, 12);
    IdentitiesSpelled(12);
    assert Expected(m, IdentityToEWName, Dec(12)) != Unbound;
  }

  lemma OneAndTwelve() returns (m1: Memory, m2: Memory, p: Policy, q: Policy, l: string)
    ensures Single(p.labels) && Single(q.labels) && LabelChoice(p.labels, l) && LabelChoice(q.labels, l)
    ensures Step(EMPTY, Added(p, l, 1), m1) && WellFormed(EMPTY, Added(p, l, 1))
    ensures Step(m1, Added(q, l, 12), m2) && WellFormed(m1, Added(q, l, 12))
    ensures p.name == "v" && q.name == "w" && m2.policies == [p, q]
    ensures IdentityOf(m2, p.name) == 1 && 12 in m2.idToName
  {
    p, q, l := Policy("v", One("a", "b")), Policy("w", One("a", "b")), LabelText("a", "b");
    OneChoice("a", "b");
    m1 := AddFirst(p, l, 1);
    m2 := AddNew(m1, q, l, 12);
  }

  lemma BrokenAtThree(m1: Memory, m2: Memory, m3: Memory, e1: Event, e2: Event, e3: Event) returns (dbs: seq<Db>)
    requires SingleLabelRun([EMPTY, m1, m2], [e1, e2])
    requires Step(m2, e3, m3) && WellFormed(m2, e3) && Single(e3.p.labels)
    requires e1.Added? && e2.Added? && !Clean(m2, e3)
    ensures SingleLabelRun([EMPTY, m1, m2, m3], [e1, e2, e3]) && StoreRun([EMPTY, m1, m2, m3], [e1, e2, e3], dbs)
    ensures !MirrorAfter([EMPTY, m1, m2, m3], dbs, 3)
  {
    RunOfThree(m1, m2, m3, e1, e2, e3);
    dbs := BrokenAfterAdditions([EMPTY, m1, m2, m3], [e1, e2, e3], 3);
  }

  /** Deleting identity 1 takes the keys of the live identity 12 with it. */
  lemma ShortIdentitiesBreakTheMirror()
    returns (m1: Memory, m2: Memory, m3: Memory, e1: Event, e2: Event, e3: Event, dbs: seq<Db>)
    ensures SingleLabelRun([EMPTY, m1, m2, m3], [e1, e2, e3]) && StoreRun([EMPTY, m1, m2, m3], [e1, e2, e3], dbs)
    ensures 12 in m3.idToName && !MirrorAfter([EMPTY, m1, m2, m3], dbs, 3)
  {
    var p, q, l;
    m1, m2, p, q, l := OneAndTwelve();
    m3 := DeleteTracked(m2, p, l, 0);
    e1, e2, e3 := Added(p, l, 1), Added(q, l, 12), Deleted(p, l);
    RunOfTwo(m1, m2, e1, e2);
    OneLeadsTwelve(m2, e3);
    dbs := BrokenAtThree(m1, m2, m3, e1, e2, e3);
  }

  // ---- the label lists ----

  lemma ModifyOnly(m: Memory, p: Policy, l: string, id: Identity, q: Policy, l': string) returns (m': Memory)
    requires OnlyWorkload(m, p, l, id) && q.name == p.name != "" && l != l' && LabelChoice(q.labels, l')
    ensures Step(m, Modified(q, l'), m') && WellFormed(m, Modified(q, l'))
    ensures id in m'.idToLabel && m'.idToLabel[id] == l' && id in ListOf(m', l)
  {
    m' := Apply(m, Modified(q, l')).mem;
    EventEffect(m, Modified(q, l'));
    assert FirstNamed(m.policies, q.name) == 0;
  }

  /** A MODIFIED event that changes the label leaves the identity in its old list. */
  lemma ChangedLabelStaysListed() returns (mems: seq<Memory>, events: seq<Event>)
    ensures SingleLabelRun(mems, events) && |mems| == 3
    ensures 10001 in mems[2].idToLabel && mems[2].idToLabel[10001] == LabelText("c", "d")
    ensures 10001 in ListOf(mems[2], LabelText("a", "b")) && !Exact(mems[2].idToLabel, mems[2].labelToIds)
  {
    var p, q := Policy("v", One("a", "b")), Policy("v", One("c", "d"));
    var l, l' := LabelText("a", "b"), LabelText("c", "d");
    assert l[0] != l'[0];
    OneChoice("a", "b");
    OneChoice("c", "d");
    var m1 := AddFirst(p, l, 10001);
    var m2 := ModifyOnly(m1, p, l, 10001, q, l');
    RunOfTwo(m1, m2, Added(p, l, 10001), Modified(q, l'));
    mems, events := [EMPTY, m1, m2], [Added(p, l, 10001), Modified(q, l')];
  }

  // ---- identity 0 ----

  lemma AddAny(m: Memory, p: Policy, lbl: string, id: Identity) returns (m': Memory)
    requires Free(m, id) && LabelChoice(p.labels, lbl) && p !in m.policies
    ensures Step(m, Added(p, lbl, id), m') && AddedFields(m, p, lbl, id, m')
  {
    m' := Apply(m, Added(p, lbl, id)).mem;
    EventEffect(m, Added(p, lbl, id));
  }

  lemma StepsOfTwo(m1: Memory, m2: Memory, e1: Event, e2: Event)
    requires Step(EMPTY, e1, m1) && Step(m1, e2, m2)
    ensures IsRun([EMPTY, m1, m2], [e1, e2])
  {
    assert StepAt([EMPTY, m1], [e1], 0);
    assert StepAt([EMPTY, m1, m2], [e1, e2], 1);
    RunGrows([EMPTY], [], [EMPTY, m1], [e1]);
    RunGrows([EMPTY, m1], [e1], [EMPTY, m1, m2], [e1, e2]);
  }

  /** Draw 0 for `v` and 5 for `w` under one label: then the deletion of `v` panics. */
  lemma DrawingZeroPanics() returns (m1: Memory, m2: Memory, e1: Event, e2: Event, e3: Event)
    ensures IsRun([EMPTY, m1, m2], [e1, e2]) && e1.Added? && e1.draw == 0 && e2.Added? && e2.draw == 5
    ensures e3.Deleted? && e3.p == e1.p && Enabled(m2, e3) && Apply(m2, e3) == Crash
  {
    var p, q, l := Policy("v", One("a", "b")), Policy("w", One("a", "b")), LabelText("a", "b");
    OneChoice("a", "b");
    m1 := AddAny(EMPTY, p, l, 0);
    m2 := AddAny(m1, q, l, 5);
    e1, e2, e3 := Added(p, l, 0), Added(q, l, 5), Deleted(p, l);
    StepsOfTwo(m1, m2, e1, e2);
    assert ListOf(m2, l) == [0, 5];
    assert ListOf(m2, l)[0] == 0;
    CrashesExactlyWhen(m2, e3);
  }

  // ---- the two writers ----

  /** The store after `v` was added under `l` and `w` under `l'`. */
  lemma TwoAdded(m1: Memory, m2: Memory, e1: Event, e2: Event) returns (db2: Db)
    requires Step(EMPTY, e1, m1) && e1.Added? && OnlyWorkload(m1, e1.p, e1.lbl, e1.draw) && e1.lbl != e2.lbl
    requires Step(m1, e2, m2) && e2.Added? && AddedFields(m1, e2.p, e2.lbl, e2.draw, m2) && e2.draw != e1.draw
    requires e2.p !in m1.policies
    ensures db2 == ApplyDb(m1, ApplyDb(EMPTY, map[], e1), e2)
    ensures EtcdLabel(db2, e1.draw) == e1.lbl && ListedInEtcd(db2, e2.lbl, e2.draw)
    ensures ListOf(m2, e1.lbl) == [e1.draw]
  {
    var db1 := ApplyDb(EMPTY, map[], e1);
    db2 := ApplyDb(m1, db1, e2);
    EventKey(EMPTY, map[], e1, IdentityToLabel, Dec(e1.draw));
    EventKey(m1, db1, e2, IdentityToLabel, Dec(e1.draw));
    DecInjective(e1.draw, e2.draw);
    EventList(m1, db1, e2, e2.lbl);
    MarshalRoundTrip(SliceOf(m2, e2.lbl));
    assert e2.draw in ListOf(m2, e2.lbl);
  }

  lemma TameOfTwo(w1: World, w2: World, a1: Cluster.Action, a2: Cluster.Action)
    requires Next(EMPTY_WORLD, a1, w1) && Next(w1, a2, w2) && Tame(a1) && Tame(a2)
    ensures TameRun([EMPTY_WORLD, w1, w2], [a1, a2])
  {
    assert TameAt([EMPTY_WORLD, w1], [a1], 0);
    assert TameAt([EMPTY_WORLD, w1, w2], [a1, a2], 1);
    TameExtends([EMPTY_WORLD], [], [EMPTY_WORLD, w1], [a1]);
    TameExtends([EMPTY_WORLD, w1], [a1], [EMPTY_WORLD, w1, w2], [a1, a2]);
  }

  lemma TameOfThree(w1: World, w2: World, w3: World, a1: Cluster.Action, a2: Cluster.Action, a3: Cluster.Action)
    requires TameRun([EMPTY_WORLD, w1, w2], [a1, a2]) && Next(w2, a3, w3) && Tame(a3)
    ensures TameRun([EMPTY_WORLD, w1, w2, w3], [a1, a2, a3])
  {
    assert TameAt([EMPTY_WORLD, w1, w2, w3], [a1, a2, a3], 2);
    TameExtends([EMPTY_WORLD, w1, w2], [a1, a2], [EMPTY_WORLD, w1, w2, w3], [a1, a2, a3]);
  }

  /** `v` has 10001 under `a=b`, and `w` has 10002 under `a=bc`. */
  lemma TwoWorkloads() returns (m1: Memory, m2: Memory, e1: Event, e2: Event)
    ensures Step(EMPTY, e1, m1) && Step(m1, e2, m2) && WellFormed(EMPTY, e1) && WellFormed(m1, e2)
    ensures e1.Added? && OnlyWorkload(m1, e1.p, e1.lbl, e1.draw) && e1.lbl == LabelText("a", "b") && e1.draw == 10001
    ensures e2.Added? && AddedFields(m1, e2.p, e2.lbl, e2.draw, m2) && e2.lbl == LabelText("a", "bc")
    ensures e2.draw == 10002
    ensures e2.p !in m1.policies
  {
    var p, q := Policy("v", One("a", "b")), Policy("w", One("a", "bc"));
    var l, l' := LabelText("a", "b"), LabelText("a", "bc");
    OneChoice("a", "b");
    OneChoice("a", "bc");
    m1 := AddFirst(p, l, 10001);
    m2 := AddNew(m1, q, l', 10002);
    e1, e2 := Added(p, l, 10001), Added(q, l', 10002);
  }

  lemma LabelsOverlap()
    ensures LabelText("a", "b") <= LabelText("a", "bc") && LabelText("a", "b") != LabelText("a", "bc")
  {
    assert |LabelText("a", "b")| != |LabelText("a", "bc")|;
  }

  /** When 10001 disconnects and the scan ends with `a=bc`, etcd lists 10002 under `a=b`; the operator does not. */
  lemma OverlappingLabelsBreakTheOrder()
    returns (w1: World, w2: World, w3: World, e1: Event, e2: Event, kvs: seq<KeyValue>)
    ensures TameRun([EMPTY_WORLD, w1, w2, w3], [Cluster.Operator(e1), Cluster.Operator(e2), Leave(10001, kvs)])
    ensures WellFormed(EMPTY, e1) && WellFormed(w1.mem, e2)
    ensures ListedInEtcd(w3.db, LabelText("a", "b"), 10002) && 10002 !in ListOf(w3.mem, LabelText("a", "b"))
  {
    var m1, m2;
    m1, m2, e1, e2 := TwoWorkloads();
    LabelsOverlap();
    var db2 := TwoAdded(m1, m2, e1, e2);
    w1, w2 := World(m1, ApplyDb(EMPTY, map[], e1)), World(m2, db2);
    TameOfTwo(w1, w2, Cluster.Operator(e1), Cluster.Operator(e2));
    SoundThroughout([EMPTY_WORLD, w1, w2], [Cluster.Operator(e1), Cluster.Operator(e2)], 2);
    kvs := ScanMoves(m2, db2, 10001, e2.lbl, 10002);
    w3 := World(m2, Disconnect(db2, 10001, kvs).db);
    TameOfThree(w1, w2, w3, Cluster.Operator(e1), Cluster.Operator(e2), Leave(10001, kvs));
  }

  // ---- delivery ----

  /** The operator tracks `v` under `a=b=c`. */
  lemma OneWorkload() returns (w: World, e: Event)
    ensures Next(EMPTY_WORLD, Cluster.Operator(e), w) && Routable(EMPTY_WORLD, Cluster.Operator(e))
    ensures w.mem.labelToIds.Keys == {"a=b=c"} && LiveLabel(w.mem, 10001) == Some("a=b=c")
  {
    var p, l := Policy("v", One("a", "b=c")), LabelText("a", "b=c");
    assert l == "a=b=c";
    OneChoice("a", "b=c");
    var m1 := AddFirst(p, l, 10001);
    e := Added(p, l, 10001);
    w := World(m1, ApplyDb(EMPTY, map[], e));
  }

  /** A first refresh against a store that holds the operator's only label. */
  lemma FirstRefresh(m: Memory, db: Db, l: string)
    requires Tidy(m, db) && m.labelToIds.Keys == {l}
    ensures Refresh(db, Completed, [], map[], [l], Refreshed(map[], db))
  {
    StoreIsReadable(m, db);
    SegmentsAreLabels(db);
    StoredIsScannable(db, l);
    KnownSegmentsCover(db, [l]);
    RefreshedIsOverwritten(map[], db);
  }

  /** A selector with two entries that spell one label. */
  function Doubled(): HostPolicyEvent { HostPolicyEvent("ADDED", "policy", map["a" := "b=c", "a=b" := "c"]) }

  lemma DoubledTexts()
    ensures Orders(["a", "a=b"], Doubled().matchLabels.Keys)
    ensures Texts(["a", "a=b"], Doubled().matchLabels) == ["a=b=c", "a=b=c"]
  {
    var ks := ["a", "a=b"];
    assert |ks[0]| != |ks[1]|;
    assert LabelText("a", "b=c") == "a=b=c" && LabelText("a=b", "c") == "a=b=c";
  }

  lemma SystemOfTwo(s1: System, s2: System, a: Cluster.Action, host: Move)
    requires Moves(START, Shared(a), s1) && Routable(EMPTY_WORLD, a) && Moves(s1, host, s2) && host.Host?
    ensures IsSystemRun([START, s1, s2], [Shared(a), host])
  {
    var states, moves := [START, s1, s2], [Shared(a), host];
    assert MoveAt(states, moves, 0) && MoveAt(states, moves, 1);
  }

  lemma DoubledMove(w: World) returns (s2: System)
    requires Tidy(w.mem, w.db) && w.mem.labelToIds.Keys == {"a=b=c"}
    ensures Moves(System(w, [], map[], []), Host(Doubled(), ["a", "a=b"], Completed), s2)
  {
    var l, cache := "a=b=c", Refreshed(map[], w.db);
    FirstRefresh(w.mem, w.db, l);
    DoubledTexts();
    var sent := Routed(Doubled(), [l, l], [l], cache);
    s2 := System(w, [l], cache, sent);
    assert [] + sent == sent;
  }

  /** A selector that spells one label twice sends each policy twice. */
  lemma SentTwice(states: seq<System>, moves: seq<Move>, event: HostPolicyEvent, ks: seq<string>, l: string,
                  id: Identity)
    requires IsSystemRun(states, moves) && |moves| == 2 && moves[0].Shared? && moves[0].a.Operator?
    requires moves[1] == Host(event, ks, Completed) && Orders(ks, event.matchLabels.Keys)
    requires Texts(ks, event.matchLabels) == [l, l] && id != 0
    requires l in states[1].world.mem.labelToIds && LiveLabel(states[1].world.mem, id) == Some(l)
    ensures Sent(states[1], states[2], Message(event, id, false)) == 2
  {
    NeverDisconnected(states, moves, 1, l, id);
    EndToEndRouting(states, moves, 1, Message(event, id, false));
    assert multiset([l, l])[l] == 2;
  }

  lemma RunOfHost(w: World, e: Event, s2: System, host: Move) returns (states: seq<System>, moves: seq<Move>)
    requires Next(EMPTY_WORLD, Cluster.Operator(e), w) && Routable(EMPTY_WORLD, Cluster.Operator(e))
    requires host.Host? && Moves(System(w, [], map[], []), host, s2)
    ensures IsSystemRun(states, moves) && |moves| == 2 && states[1].world == w
    ensures moves == [Shared(Cluster.Operator(e)), host]
  {
    var s1 := System(w, [], map[], []);
    SystemOfTwo(s1, s2, Cluster.Operator(e), host);
    states, moves := [START, s1, s2], [Shared(Cluster.Operator(e)), host];
  }

  lemma TidyAfterOne(w: World, e: Event)
    requires Next(EMPTY_WORLD, Cluster.Operator(e), w) && Routable(EMPTY_WORLD, Cluster.Operator(e))
    ensures Tidy(w.mem, w.db)
  {
    StartInv();
    SharedKeepsTidy(EMPTY_WORLD, Cluster.Operator(e), w);
  }

  /** It delivers the policy twice. */
  lemma EqualsSignDeliversTwice() returns (states: seq<System>, moves: seq<Move>)
    ensures IsSystemRun(states, moves) && |moves| == 2 && moves[1].Host? && moves[1].event == Doubled()
    ensures Sent(states[1], states[2], Message(Doubled(), 10001, false)) == 2
  {
    var w, e := OneWorkload();
    TidyAfterOne(w, e);
    var s2 := DoubledMove(w);
    var event, ks := Doubled(), ["a", "a=b"];
    states, moves := RunOfHost(w, e, s2, Host(event, ks, Completed));
    DoubledTexts();
    SentTwice(states, moves, event, ks, "a=b=c", 10001);
  }

  // ---- a disconnect and a policy ----

  lemma MoveAtPrefix(states: seq<System>, moves: seq<Move>, ss: seq<System>, ms: seq<Move>, k: nat)
    requires k < |moves| < |states| && states <= ss && moves <= ms && |ms| < |ss|
    ensures MoveAt(states, moves, k) <==> MoveAt(ss, ms, k)
  {
    assert ms[k] == moves[k] && ss[k] == states[k] && ss[k + 1] == states[k + 1];
  }

  lemma SystemExtends(states: seq<System>, moves: seq<Move>, ss: seq<System>, ms: seq<Move>)
    requires IsSystemRun(states, moves) && |ms| == |moves| + 1 == |ss| - 1 && states <= ss && moves <= ms
    requires MoveAt(ss, ms, |moves|)
    ensures IsSystemRun(ss, ms)
  {
    forall k | 0 <= k < |ms| ensures MoveAt(ss, ms, k) {
      if k < |moves| {
        MoveAtPrefix(states, moves, ss, ms, k);
      }
    }
    assert ss[0] == states[0];
  }

  lemma SystemOfThree(s1: System, s2: System, s3: System, a: Cluster.Action, b: Cluster.Action, host: Move)
    requires Moves(START, Shared(a), s1) && Routable(EMPTY_WORLD, a)
    requires Moves(s1, Shared(b), s2) && Routable(s1.world, b)
    requires Moves(s2, host, s3) && host.Host?
    ensures IsSystemRun([START, s1, s2, s3], [Shared(a), Shared(b), host])
  {
    assert MoveAt([START, s1], [Shared(a)], 0);
    SystemExtends([START], [], [START, s1], [Shared(a)]);
    assert MoveAt([START, s1, s2], [Shared(a), Shared(b)], 1);
    SystemExtends([START, s1], [Shared(a)], [START, s1, s2], [Shared(a), Shared(b)]);
    assert MoveAt([START, s1, s2, s3], [Shared(a), Shared(b), host], 2);
    SystemExtends([START, s1, s2], [Shared(a), Shared(b)], [START, s1, s2, s3], [Shared(a), Shared(b), host]);
  }

  /** The operator tracks `v` under `l`, and etcd says so. */
  lemma OneTracked(k: string, v: string) returns (w: World, e: Event)
    ensures Next(EMPTY_WORLD, Cluster.Operator(e), w) && WellFormed(EMPTY, e) && Single(e.p.labels)
    ensures e.lbl == LabelText(k, v) && w.mem.labelToIds.Keys == {e.lbl} && LiveLabel(w.mem, 10001) == Some(e.lbl)
    ensures IdKey(IdentityToLabel, 10001) in w.db && EtcdLabel(w.db, 10001) == e.lbl
  {
    var p, l := Policy("v", One(k, v)), LabelText(k, v);
    OneChoice(k, v);
    var m1 := AddFirst(p, l, 10001);
    e := Added(p, l, 10001);
    w := World(m1, ApplyDb(EMPTY, map[], e));
    EventKey(EMPTY, map[], e, IdentityToLabel, Dec(10001));
  }

  /** Its disconnect, with whatever scan. */
  lemma ItLeaves(w: World, l: string) returns (w': World, kvs: seq<KeyValue>)
    requires Tidy(w.mem, w.db) && w.mem.labelToIds.Keys == {l}
    requires IdKey(IdentityToLabel, 10001) in w.db && EtcdLabel(w.db, 10001) == l
    ensures Next(w, Leave(10001, kvs), w') && Routable(w, Leave(10001, kvs))
    ensures w'.mem == w.mem && Tidy(w'.mem, w'.db)
  {
    var db1 := Unserve(w.db, 10001);
    kvs := EnumerationExists(Scan(db1, Key(LabelToIdentities, EtcdLabel(db1, 10001))));
    assert Unextended(w.db, l);
    w' := World(w.mem, Disconnect(w.db, 10001, kvs).db);
    LeaveKeepsTidy(w.mem, w.db, 10001, kvs);
  }

  /** A policy event whose selector spells `l` alone, for a service that starts afresh. */
  lemma FirstPolicy(w: World, l: string, event: HostPolicyEvent, ks: seq<string>) returns (s': System)
    requires Tidy(w.mem, w.db) && w.mem.labelToIds.Keys == {l}
    requires Orders(ks, event.matchLabels.Keys) && Texts(ks, event.matchLabels) == [l]
    ensures Moves(System(w, [], map[], []), Host(event, ks, Completed), s')
  {
    var cache := Refreshed(map[], w.db);
    FirstRefresh(w.mem, w.db, l);
    var sent := Routed(event, [l], [l], cache);
    s' := System(w, [l], cache, sent);
    assert [] + sent == sent;
  }

  /** Whoever left the label gets nothing. */
  lemma LeftGetsNothing(states: seq<System>, moves: seq<Move>, l: string, event: HostPolicyEvent)
    requires IsSystemRun(states, moves) && |moves| == 3 && moves[2].Host? && moves[2].event == event
    requires moves[1].Shared? && moves[1].a.Leave? && moves[1].a.id == 10001
    requires EtcdLabel(states[1].world.db, 10001) == l && LiveLabel(states[2].world.mem, 10001) == Some(l)
    ensures Sent(states[2], states[3], Message(event, 10001, false)) == 0
  {
    assert 10001 in Left(states, moves, 2, l);
    EndToEndRouting(states, moves, 2, Message(event, 10001, false));
  }

  /** A policy event that names the label `a=b`. */
  function Naming(): HostPolicyEvent { HostPolicyEvent("ADDED", "policy", map["a" := "b"]) }

  lemma NamingTexts()
    ensures Orders(["a"], Naming().matchLabels.Keys)
    ensures Texts(["a"], Naming().matchLabels) == [LabelText("a", "b")]
  {}

  lemma RunOfLeave(w1: World, w2: World, s3: System, a: Cluster.Action, b: Cluster.Action, host: Move)
    returns (states: seq<System>, moves: seq<Move>)
    requires Next(EMPTY_WORLD, a, w1) && Routable(EMPTY_WORLD, a) && Next(w1, b, w2) && Routable(w1, b)
    requires host.Host? && Moves(System(w2, [], map[], []), host, s3)
    ensures IsSystemRun(states, moves) && moves == [Shared(a), Shared(b), host]
    ensures states[1].world == w1 && states[2].world == w2
  {
    var s1, s2 := System(w1, [], map[], []), System(w2, [], map[], []);
    SystemOfThree(s1, s2, s3, a, b, host);
    states, moves := [START, s1, s2, s3], [Shared(a), Shared(b), host];
  }

  lemma LeaveThenPolicy(w1: World, e: Event, l: string, event: HostPolicyEvent, ks: seq<string>)
    returns (states: seq<System>, moves: seq<Move>)
    requires Next(EMPTY_WORLD, Cluster.Operator(e), w1) && Routable(EMPTY_WORLD, Cluster.Operator(e))
    requires Tidy(w1.mem, w1.db) && w1.mem.labelToIds.Keys == {l} && LiveLabel(w1.mem, 10001) == Some(l)
    requires IdKey(IdentityToLabel, 10001) in w1.db && EtcdLabel(w1.db, 10001) == l
    requires Orders(ks, event.matchLabels.Keys) && Texts(ks, event.matchLabels) == [l]
    ensures IsSystemRun(states, moves) && |moves| == 3 && moves[2] == Host(event, ks, Completed)
    ensures LiveLabel(states[2].world.mem, 10001) == Some(l)
    ensures Sent(states[2], states[3], Message(event, 10001, false)) == 0
  {
    var w2, kvs := ItLeaves(w1, l);
    var s3 := FirstPolicy(w2, l, event, ks);
    states, moves := RunOfLeave(w1, w2, s3, Cluster.Operator(e), Leave(10001, kvs), Host(event, ks, Completed));
    LeftGetsNothing(states, moves, l, event);
  }

  /** A workload that disconnected misses a policy that names its label, although it is still live. */
  lemma DisconnectedMissesPolicy() returns (states: seq<System>, moves: seq<Move>)
    ensures IsSystemRun(states, moves) && |moves| == 3 && moves[2] == Host(Naming(), ["a"], Completed)
    ensures LiveLabel(states[2].world.mem, 10001) == Some(LabelText("a", "b"))
    ensures Sent(states[2], states[3], Message(Naming(), 10001, false)) == 0
  {
    var l := LabelText("a", "b");
    assert l == "a=b";
    var w1, e := OneTracked("a", "b");
    TidyAfterOne(w1, e);
    NamingTexts();
    states, moves := LeaveThenPolicy(w1, e, l, Naming(), ["a"]);
  }

  // ---- a label with a slash ----

  /** A store whose only label is cut to something that it does not extend. */
  lemma CutLabelCrashes(m: Memory, db: Db, l: string, event: HostPolicyEvent, ks: seq<string>, outcome: RefreshOutcome,
                        known': seq<string>, cache': Lists, chan': seq<Message>)
    requires Sound(m, db) && StoredLabels(db) == {l} && !(LastSegment(l) <= l)
    requires HostUpdate(db, event, ks, outcome, [], map[], [], known', cache', chan')
    ensures outcome == NilCrash && chan' == []
  {
    SoundDecodes(m, db);
    RefreshEnds(db, outcome, [], map[], known', cache');
    assert l in StoredLabels(db) && !Extended(db, LastSegment(l));
  }

  lemma SoundDecodes(m: Memory, db: Db)
    requires Sound(m, db)
    ensures AllDecode(db)
  {
    forall l | l in StoredLabels(db) && Key(LabelToIdentities, l) in db
      ensures Unmarshal(db[Key(LabelToIdentities, l)].value).Decoded?
    {
      assert GoodList(db, l);
    }
  }

  /** And such a crash is what happens. */
  lemma CutLabelUpdate(m: Memory, db: Db, l: string, event: HostPolicyEvent, ks: seq<string>)
    requires Sound(m, db) && StoredLabels(db) == {l} && !(LastSegment(l) <= l) && Orders(ks, event.matchLabels.Keys)
    ensures HostUpdate(db, event, ks, NilCrash, [], map[], [], [LastSegment(l)], map[], [])
  {
    var s := LastSegment(l);
    ScannableExactlyWhen(db, s);
    forall x ensures x in [s] <==> x in Segments(db) { SegmentsExactly(db, x); }
    assert s in [s] && !Loadable(db, s);
  }

  /** A label key with a prefix: the label is cut after the slash, and does not begin like that. */
  lemma CutLabel(head: string, name: string, value: string)
    requires head != "" && name != "" && head[0] != name[0] && '/' !in name && '/' !in value
    ensures var l := LabelText(head + "/" + name, value); !(LastSegment(l) <= l)
  {
    var l, tail := LabelText(head + "/" + name, value), LabelText(name, value);
    assert l == head + "/" + tail;
    LastSegmentRoundTrip(head, tail);
    assert l[0] == head[0] && tail[0] == name[0];
  }

  lemma OnlyLabelAt(w: World, e: Event, l: string)
    requires Next(EMPTY_WORLD, Cluster.Operator(e), w) && w.mem.labelToIds.Keys == {e.lbl} && Sound(w.mem, w.db)
    ensures l in StoredLabels(w.db) <==> l == e.lbl
  {
    StoredLabelsAt(w.db, l);
    EventList(EMPTY, map[], e, l);
    assert l == e.lbl ==> l in w.mem.labelToIds;
  }

  lemma OnlyLabel(w: World, e: Event)
    requires Next(EMPTY_WORLD, Cluster.Operator(e), w) && w.mem.labelToIds.Keys == {e.lbl}
    ensures Sound(w.mem, w.db) && StoredLabels(w.db) == {e.lbl}
  {
    EmptyIsSound();
    OperatorKeepsSound(EMPTY, map[], e);
    forall l ensures l in StoredLabels(w.db) <==> l == e.lbl {
      OnlyLabelAt(w, e, l);
    }
  }

  /** The first policy event crashes the service, and nothing else can happen. */
  ghost predicate FirstPolicyCrashes(db: Db, l: string) {
    && (forall event, ks, outcome, known, cache, chan ::
          HostUpdate(db, event, ks, outcome, [], map[], [], known, cache, chan) ==> outcome == NilCrash && chan == [])
    && (forall event: HostPolicyEvent, ks :: Orders(ks, event.matchLabels.Keys) ==>
          HostUpdate(db, event, ks, NilCrash, [], map[], [], [LastSegment(l)], map[], []))
  }

  lemma CutLabelAlwaysCrashes(m: Memory, db: Db, l: string)
    requires Sound(m, db) && StoredLabels(db) == {l} && !(LastSegment(l) <= l)
    ensures FirstPolicyCrashes(db, l)
  {
    forall event, ks, outcome, known, cache, chan |
      HostUpdate(db, event, ks, outcome, [], map[], [], known, cache, chan)
      ensures outcome == NilCrash && chan == []
    {
      CutLabelCrashes(m, db, l, event, ks, outcome, known, cache, chan);
    }
    forall event: HostPolicyEvent, ks | Orders(ks, event.matchLabels.Keys)
      ensures HostUpdate(db, event, ks, NilCrash, [], map[], [], [LastSegment(l)], map[], [])
    {
      CutLabelUpdate(m, db, l, event, ks);
    }
  }

  /** One workload labelled `kubernetes.io/os=linux`. */
  lemma SlashedLabelCrashes() returns (w: World, e: Event)
    ensures Next(EMPTY_WORLD, Cluster.Operator(e), w) && WellFormed(EMPTY, e)
    ensures e.lbl == LabelText("kubernetes.io" + "/" + "os", "linux") && FirstPolicyCrashes(w.db, e.lbl)
  {
    CutLabel("kubernetes.io", "os", "linux");
    w, e := OneTracked("kubernetes.io" + "/" + "os", "linux");
    OnlyLabel(w, e);
    CutLabelAlwaysCrashes(w.mem, w.db, e.lbl);
  }

  // ---- the disconnect of identity 0 ----

  lemma FirstOfTwoGoes(i: Identity, j: Identity)
    requires i != 0 && i != j
    ensures Remove([i, j], i) == Finished([j, 0], 1)
  {
    RemoveExact([i, j], i);
    assert Displaced([i, j], 0) == [j, 0];
  }

  /** Two workloads under one label. */
  ghost predicate TwoUnder(m: Memory, p: Policy, q: Policy, l: string) {
    && p.name == "u" && q.name == "v" && m.policies == [p, q] && ListOf(m, l) == [10001, 10002]
    && IdentityOf(m, "u") == 10001 && m.idToLabel == map[10001 := l, 10002 := l]
    && m.idToName == map[10001 := "u", 10002 := "v"]
  }

  lemma AddTwo(p: Policy, q: Policy, l: string) returns (m1: Memory, m2: Memory)
    requires p.name == "u" && q.name == "v" && LabelChoice(p.labels, l) && LabelChoice(q.labels, l)
    ensures Step(EMPTY, Added(p, l, 10001), m1) && WellFormed(EMPTY, Added(p, l, 10001))
    ensures Step(m1, Added(q, l, 10002), m2) && WellFormed(m1, Added(q, l, 10002)) && TwoUnder(m2, p, q, l)
  {
    m1 := AddFirst(p, l, 10001);
    m2 := AddNew(m1, q, l, 10002);
  }

  lemma ReplaceFirst(m2: Memory, p: Policy, q: Policy, r: Policy, l: string) returns (m3: Memory, m4: Memory)
    requires TwoUnder(m2, p, q, l) && r.name == "w" && LabelChoice(p.labels, l) && LabelChoice(r.labels, l)
    ensures Step(m2, Deleted(p, l), m3) && WellFormed(m2, Deleted(p, l))
    ensures Step(m3, Added(r, l, 10003), m4) && WellFormed(m3, Added(r, l, 10003))
    ensures Writes(m3, Added(r, l, 10003), l) && ListOf(m4, l) == [10002, 0, 10003] && 0 !in m4.idToLabel
  {
    m3 := DeleteTracked(m2, p, l, 0);
    FirstOfTwoGoes(10001, 10002);
    assert ListOf(m3, l) == [10002, 0];
    m4 := AddNew(m3, r, l, 10003);
  }

  lemma NoKeyForZero(w: World)
    requires LabelKeysLive(w.mem, w.db) && 0 !in w.mem.idToLabel
    ensures IdKey(IdentityToLabel, 0) !in w.db
  {
    assert LabelKeyLive(w.mem, w.db, Dec(0));
    if Key(IdentityToLabel, Dec(0)) in w.db {
      var i: Identity :| Dec(0) == Dec(i) && i in w.mem.idToLabel;
      DecInjective(0, i);
    }
  }

  lemma PanicAfterFour(w1: World, w2: World, w3: World, w4: World, e1: Event, e2: Event, e3: Event, e4: Event)
    returns (kvs: seq<KeyValue>)
    requires Next(EMPTY_WORLD, Cluster.Operator(e1), w1) && Next(w1, Cluster.Operator(e2), w2)
    requires Next(w2, Cluster.Operator(e3), w3) && Next(w3, Cluster.Operator(e4), w4)
    requires Writes(w3.mem, e4, e4.lbl) && ListOf(w4.mem, e4.lbl) == [10002, 0, 10003] && 0 !in w4.mem.idToLabel
    ensures TameRun([EMPTY_WORLD, w1, w2, w3, w4],
                    [Cluster.Operator(e1), Cluster.Operator(e2), Cluster.Operator(e3), Cluster.Operator(e4)])
    ensures Scanned(w4.db, 0, kvs) && Disconnect(w4.db, 0, kvs).status == Panicked
  {
    var a1, a2, a3, a4 := Cluster.Operator(e1), Cluster.Operator(e2), Cluster.Operator(e3), Cluster.Operator(e4);
    TameOfTwo(w1, w2, a1, a2);
    TameOfThree(w1, w2, w3, a1, a2, a3);
    TameOfFour(w1, w2, w3, w4, a1, a2, a3, a4);
    SoundThroughout([EMPTY_WORLD, w1, w2, w3, w4], [a1, a2, a3, a4], 4);
    LabelKeysLiveOfFour(w1, w2, w3, w4, a1, a2, a3, a4);
    NoKeyForZero(w4);
    EventList(w3.mem, w3.db, e4, e4.lbl);
    kvs := ZeroPanics(w4, e4.lbl);
  }

  /** Three additions and a deletion leave `[10002, 0, 10003]`: a stream without metadata then panics the server. */
  lemma DisconnectOfZeroPanics()
    returns (w1: World, w2: World, w3: World, w4: World, e1: Event, e2: Event, e3: Event, e4: Event, kvs: seq<KeyValue>)
    ensures WellFormed(EMPTY, e1) && WellFormed(w1.mem, e2) && WellFormed(w2.mem, e3) && WellFormed(w3.mem, e4)
    ensures TameRun([EMPTY_WORLD, w1, w2, w3, w4],
                    [Cluster.Operator(e1), Cluster.Operator(e2), Cluster.Operator(e3), Cluster.Operator(e4)])
    ensures Scanned(w4.db, 0, kvs) && Disconnect(w4.db, 0, kvs).status == Panicked
  {
    var p, q, r := Policy("u", One("a", "b")), Policy("v", One("a", "b")), Policy("w", One("a", "b"));
    var l := LabelText("a", "b");
    OneChoice("a", "b");
    var m1, m2 := AddTwo(p, q, l);
    var m3, m4 := ReplaceFirst(m2, p, q, r, l);
    e1, e2, e3, e4 := Added(p, l, 10001), Added(q, l, 10002), Deleted(p, l), Added(r, l, 10003);
    w1 := World(m1, ApplyDb(EMPTY, map[], e1));
    w2 := World(m2, ApplyDb(m1, w1.db, e2));
    w3 := World(m3, ApplyDb(m2, w2.db, e3));
    w4 := World(m4, ApplyDb(m3, w3.db, e4));
    kvs := PanicAfterFour(w1, w2, w3, w4, e1, e2, e3, e4);
  }

  lemma TameOfFour(w1: World, w2: World, w3: World, w4: World,
                   a1: Cluster.Action, a2: Cluster.Action, a3: Cluster.Action, a4: Cluster.Action)
    requires TameRun([EMPTY_WORLD, w1, w2, w3], [a1, a2, a3]) && Next(w3, a4, w4) && Tame(a4)
    ensures TameRun([EMPTY_WORLD, w1, w2, w3, w4], [a1, a2, a3, a4])
  {
    assert TameAt([EMPTY_WORLD, w1, w2, w3, w4], [a1, a2, a3, a4], 3);
    TameExtends([EMPTY_WORLD, w1, w2, w3], [a1, a2, a3], [EMPTY_WORLD, w1, w2, w3, w4], [a1, a2, a3, a4]);
  }

  lemma LabelKeysLiveOfFour(w1: World, w2: World, w3: World, w4: World,
                            a1: Cluster.Action, a2: Cluster.Action, a3: Cluster.Action, a4: Cluster.Action)
    requires Next(EMPTY_WORLD, a1, w1) && Next(w1, a2, w2) && Next(w2, a3, w3) && Next(w3, a4, w4)
    ensures LabelKeysLive(w4.mem, w4.db)
  {
    StepKeepsLabelKeys(EMPTY_WORLD, a1, w1);
    StepKeepsLabelKeys(w1, a2, w2);
    StepKeepsLabelKeys(w2, a3, w3);
    StepKeepsLabelKeys(w3, a4, w4);
  }

  lemma ZeroPanics(w: World, l: string) returns (kvs: seq<KeyValue>)
    requires Sound(w.mem, w.db) && Key(LabelToIdentities, l) in w.db
    requires w.db[Key(LabelToIdentities, l)].value == Marshal(Of([10002, 0, 10003]))
    requires IdKey(IdentityToLabel, 0) !in w.db
    ensures Scanned(w.db, 0, kvs) && Disconnect(w.db, 0, kvs).status == Panicked
  {
    kvs := EnumerationExists(Scan(Unserve(w.db, 0), Key(LabelToIdentities, EtcdLabel(Unserve(w.db, 0), 0))));
    MarshalRoundTrip(Of([10002, 0, 10003]));
    var ids: seq<Identity> := [10002, 0, 10003];
    assert ids[1] == 0;
    assert EarlyZero(ids);
    assert PanicsOn(w.db, 0, l);
    LeaveStatus(w.mem, w.db, 0, kvs);
  }

  // ---- the store, to the letter ----

  lemma SmallTexts()
    ensures Dec(10001) == "10001" && Marshal(Of([10001])) == "[10001]" && LabelText("a", "b") == "a=b"
  {
    MarshalShort(10001);
    DecStep(1, 0);
    DecStep(10, 0);
    DecStep(100, 0);
    DecStep(1000, 1);
    assert Dec(1) == "1";
  }

  /** What etcd holds after one workload labelled `a=b` was added. */
  lemma FirstStore() returns (e: Event)
    ensures e.Added? && e.p == Policy("v", One("a", "b")) && e.lbl == "a=b" && e.draw == 10001 && Enabled(EMPTY, e)
    ensures ApplyDb(EMPTY, map[], e) ==
            map["/kvm-opr-map-identity-to-ewname/" + "10001" := Entry("v", NoLease),
                "/kvm-opr-map-ewname-to-identity/" + "v" := Entry("10001", NoLease),
                "/kvm-opr-identity-to-label-maps/" + "10001" := Entry("a=b", NoLease),
                "/kvm-opr-label-to-identities-map/" + "a=b" := Entry("[10001]", NoLease)]
  {
    SmallTexts();
    OneChoice("a", "b");
    var p := Policy("v", One("a", "b"));
    e := Added(p, "a=b", 10001);
    var m2 := Allocate(EMPTY.(policies := EMPTY.policies + [p]), "v", 10001);
    AddedUnfolds(EMPTY, map[], e, m2);
    assert ListOf(m2, "a=b") + [10001] == [10001];
  }

  /** And where a server registers. */
  lemma FirstPod(db: Db)
    ensures RegisterDb(db, "10001", "10.0.0.1", 7) ==
            db["/kvm-svc-identity-podip-maps/" + "10001" := Entry("10.0.0.1", Leased(7))]
  {}
}

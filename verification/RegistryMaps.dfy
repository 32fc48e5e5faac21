/** Invariants of the in-memory maps over every run. */
module RegistryMaps {
  import opened Decimal
  import opened SwapRemove
  import opened Registry

  // ---- identities and names ----

  /** The two maps invert each other; no identity is 0 and no name is empty. */
  ghost predicate Inverse(names: map<Identity, string>, ids: map<string, Identity>) {
    && (forall i <- names :: i != 0 && names[i] != "" && names[i] in ids && ids[names[i]] == i)
    && (forall n <- ids :: ids[n] in names && names[ids[n]] == n)
  }

  lemma InverseInsert(names: map<Identity, string>, ids: map<string, Identity>, id: Identity, name: string)
    requires Inverse(names, ids) && id !in names && name !in ids && id != 0 && name != ""
    ensures Inverse(names[id := name], ids[name := id])
  {}

  lemma InverseRemove(names: map<Identity, string>, ids: map<string, Identity>, name: string)
    requires Inverse(names, ids) && name in ids
    ensures Inverse(names - {ids[name]}, ids - {name})
  {}

  ghost predicate Named(ps: seq<Policy>, name: string) {
    exists k :: 0 <= k < |ps| && ps[k].name == name
  }

  /** The policies carry distinct names, exactly those in `names`. */
  ghost predicate Tracks(ps: seq<Policy>, names: set<string>) {
    && (forall n :: n in names <==> Named(ps, n))
    && (forall i, j :: 0 <= i < j < |ps| ==> ps[i].name != ps[j].name)
  }

  lemma TracksAppend(ps: seq<Policy>, names: set<string>, p: Policy)
    requires Tracks(ps, names) && forall q <- ps :: q.name != p.name
    ensures Tracks(ps + [p], names + {p.name}) && p.name !in names
  {
    var ps' := ps + [p];
    forall n ensures Named(ps', n) <==> Named(ps, n) || n == p.name {
      assert ps'[|ps|] == p;
      if k :| 0 <= k < |ps| && ps[k].name == n { assert ps'[k].name == n; }
    }
  }

  lemma TracksReplace(ps: seq<Policy>, names: set<string>, i: nat, p: Policy)
    requires Tracks(ps, names) && i < |ps| && ps[i].name == p.name
    ensures Tracks(ps[i := p], names) && p.name in names
  {
    var ps' := ps[i := p];
    forall n ensures Named(ps', n) <==> Named(ps, n) {
      if k :| 0 <= k < |ps| && ps[k].name == n { assert ps'[k].name == n; }
      if k :| 0 <= k < |ps| && ps'[k].name == n { assert ps[k].name == n; }
    }
    assert Named(ps, p.name);
  }

  lemma TracksRemove(ps: seq<Policy>, names: set<string>, i: nat)
    requires Tracks(ps, names) && i < |ps|
    ensures Tracks(ps[..i] + ps[i + 1..], names - {ps[i].name}) && ps[i].name in names
  {
    var ps' := ps[..i] + ps[i + 1..];
    forall n ensures Named(ps', n) <==> Named(ps, n) && n != ps[i].name {
      if k :| 0 <= k < |ps'| && ps'[k].name == n {
        assert ps[if k < i then k else k + 1].name == n;
      }
      if k :| 0 <= k < |ps| && ps[k].name == n && k != i {
        assert ps'[if k < i then k else k - 1].name == n;
      }
    }
    assert Named(ps, ps[i].name);
  }

  ghost predicate Consistent(m: Memory) {
    && Inverse(m.idToName, m.nameToId)
    && m.idToLabel.Keys == m.idToName.Keys
    && Tracks(m.policies, m.nameToId.Keys)
  }

  lemma TrackedIdentity(m: Memory, i: nat)
    requires Consistent(m) && i < |m.policies|
    ensures m.policies[i].name in m.nameToId && IdentityOf(m, m.policies[i].name) != 0
  {
    assert Named(m.policies, m.policies[i].name);
  }

  // The fields an event changes, when it is not a no-op.

  ghost predicate AddedFields(m: Memory, p: Policy, lbl: string, id: Identity, m': Memory) {
    && m'.policies == m.policies + [p]
    && m'.idToName == m.idToName[id := p.name]
    && m'.nameToId == m.nameToId[p.name := id]
    && m'.idToLabel == m.idToLabel[id := lbl]
    && m'.labelToIds == Enlist(m.labelToIds, lbl, id)
  }

  ghost predicate ModifiedFields(m: Memory, i: nat, p: Policy, lbl: string, id: Identity, m': Memory) {
    && i < |m.policies|
    && m'.policies == m.policies[i := p]
    && m'.idToName == m.idToName
    && m'.nameToId == m.nameToId
    && m'.idToLabel == m.idToLabel[id := lbl]
    && m'.labelToIds == Enlist(m.labelToIds, lbl, id)
  }

  ghost predicate DeletedFields(m: Memory, i: nat, lbl: string, id: Identity, m': Memory) {
    && i < |m.policies|
    && m'.policies == m.policies[..i] + m.policies[i + 1..]
    && m'.idToName == m.idToName - {id}
    && m'.nameToId == m.nameToId - {m.policies[i].name}
    && m'.idToLabel == m.idToLabel - {id}
    && Remove(ListOf(m, lbl), id).Finished?
    && m'.labelToIds ==
       if lbl in m.labelToIds then m.labelToIds[lbl := Remove(ListOf(m, lbl), id).buf] else m.labelToIds
  }

  ghost predicate Effect(m: Memory, e: Event, m': Memory) {
    match e
    case Added(p, lbl, id) => if p in m.policies then m' == m else AddedFields(m, p, lbl, id, m')
    case Modified(p, lbl) =>
      var i := FirstNamed(m.policies, p.name);
      if i == |m.policies| then m' == m else ModifiedFields(m, i, p, lbl, IdentityOf(m, p.name), m')
    case Deleted(p, lbl) =>
      var i := FirstEqual(m.policies, p);
      if i == |m.policies| then m' == m else DeletedFields(m, i, lbl, IdentityOf(m, p.name), m')
  }

  lemma EventEffect(m: Memory, e: Event)
    requires Apply(m, e).Ok?
    ensures Effect(m, e, Apply(m, e).mem)
  {}

  lemma AddedKeepsConsistent(m: Memory, p: Policy, lbl: string, id: Identity, m': Memory)
    requires Consistent(m) && AddedFields(m, p, lbl, id, m')
    requires p.name != "" && id != 0 && Free(m, id) && forall q <- m.policies :: q.name != p.name
    ensures Consistent(m')
  {
    TracksAppend(m.policies, m.nameToId.Keys, p);
    InverseInsert(m.idToName, m.nameToId, id, p.name);
    assert m'.nameToId.Keys == m.nameToId.Keys + {p.name};
  }

  lemma ModifiedKeepsConsistent(m: Memory, i: nat, p: Policy, lbl: string, m': Memory)
    requires Consistent(m) && ModifiedFields(m, i, p, lbl, IdentityOf(m, p.name), m') && m.policies[i].name == p.name
    ensures Consistent(m')
  {
    TracksReplace(m.policies, m.nameToId.Keys, i, p);
  }

  lemma DeletedKeepsConsistent(m: Memory, i: nat, lbl: string, m': Memory)
    requires i < |m.policies| && Consistent(m) && DeletedFields(m, i, lbl, IdentityOf(m, m.policies[i].name), m')
    ensures Consistent(m')
  {
    var name := m.policies[i].name;
    TracksRemove(m.policies, m.nameToId.Keys, i);
    InverseRemove(m.idToName, m.nameToId, name);
    assert m'.nameToId.Keys == m.nameToId.Keys - {name};
  }

  /** A well-formed event never crashes the operator. */
  lemma EventNeverCrashes(m: Memory, e: Event)
    requires Consistent(m) && WellFormed(m, e)
    ensures Apply(m, e).Ok?
  {
    if e.Deleted? {
      var i := FirstEqual(m.policies, e.p);
      if i < |m.policies| {
        TrackedIdentity(m, i);
        NonzeroStaysInBounds(ListOf(m, e.lbl), IdentityOf(m, e.p.name));
      }
    }
  }

  /** Exactly which events crash the operator, in any state. */
  lemma CrashesExactlyWhen(m: Memory, e: Event)
    ensures Apply(m, e) == Crash <==>
            && e.Deleted? && e.p in m.policies && (e.p.name in m.nameToId ==> m.nameToId[e.p.name] == 0)
            && exists i :: 0 <= i < |ListOf(m, e.lbl)| - 1 && ListOf(m, e.lbl)[i] == 0
  {
    if e.Deleted? && FirstEqual(m.policies, e.p) < |m.policies| {
      var id := IdentityOf(m, e.p.name);
      if id == 0 {
        ZeroCrashesExactlyWhen(ListOf(m, e.lbl));
      } else {
        NonzeroStaysInBounds(ListOf(m, e.lbl), id);
      }
    }
  }

  lemma EffectKeepsConsistent(m: Memory, e: Event, m': Memory)
    requires Consistent(m) && Enabled(m, e) && WellFormed(m, e) && Effect(m, e, m')
    ensures Consistent(m')
  {
    match e
    case Added(p, lbl, id) =>
      if p !in m.policies { AddedKeepsConsistent(m, p, lbl, id, m'); }
    case Modified(p, lbl) =>
      var i := FirstNamed(m.policies, p.name);
      if i < |m.policies| { ModifiedKeepsConsistent(m, i, p, lbl, m'); }
    case Deleted(p, lbl) =>
      var i := FirstEqual(m.policies, p);
      if i < |m.policies| { DeletedKeepsConsistent(m, i, lbl, m'); }
  }

  lemma StepKeepsConsistent(m: Memory, e: Event, m': Memory)
    requires Consistent(m) && Step(m, e, m') && WellFormed(m, e)
    ensures Consistent(m')
  {
    EventEffect(m, e);
    EffectKeepsConsistent(m, e, m');
  }

  lemma {:induction false} ConsistentThroughout(mems: seq<Memory>, events: seq<Event>, n: nat)
    requires WellFormedRun(mems, events) && n < |mems|
    ensures Consistent(mems[n])
    decreases n
  {
    if n > 0 {
      ConsistentThroughout(mems, events, n - 1);
      assert StepAt(mems, events, n - 1);
      StepKeepsConsistent(mems[n - 1], events[n - 1], mems[n]);
    }
  }

  /** No well-formed event crashes the operator at any point of a well-formed run. */
  lemma RunsNeverCrash(mems: seq<Memory>, events: seq<Event>, n: nat, e: Event)
    requires WellFormedRun(mems, events) && n < |mems| && WellFormed(mems[n], e)
    ensures Apply(mems[n], e).Ok?
  {
    ConsistentThroughout(mems, events, n);
    EventNeverCrashes(mems[n], e);
  }

  /** The bijection theorem: inverse maps, the tracked names, and no identity shared. */
  lemma IdentityBijection(mems: seq<Memory>, events: seq<Event>, n: nat)
    requires WellFormedRun(mems, events) && n < |mems|
    ensures var m := mems[n];
            && (forall i: Identity, name ::
                  i in m.idToName && m.idToName[i] == name <==> name in m.nameToId && m.nameToId[name] == i)
            && (forall name :: name in m.nameToId <==> Named(m.policies, name))
            && (forall a, b :: a in m.nameToId && b in m.nameToId && m.nameToId[a] == m.nameToId[b] ==> a == b)
            && (forall i, j :: 0 <= i < j < |m.policies| ==> m.policies[i].name != m.policies[j].name)
  {
    ConsistentThroughout(mems, events, n);
  }

  // ---- labels and lists ----

  /** The label choice is forced; a map of at most one pair is enough. */
  ghost predicate Single(labels: Labels) {
    forall a, b :: LabelChoice(labels, a) && LabelChoice(labels, b) ==> a == b
  }

  lemma OnePairIsSingle(labels: Labels)
    requires |labels.Pairs()| <= 1
    ensures Single(labels)
  {
    var pairs := labels.Pairs();
    if k :| k in pairs {
      assert |pairs.Keys - {k}| == 0;
      assert pairs.Keys == {k};
    }
  }

  /** Each live identity is listed under its label, and nothing but 0 is listed twice. */
  ghost predicate Listed(labels: map<Identity, string>, lists: map<string, seq<Identity>>) {
    && (forall i <- labels :: labels[i] in lists && i in lists[labels[i]])
    && (forall l <- lists, x: Identity :: x != 0 ==> AtMostOnce(lists[l], x))
  }

  /** The converse: a listed nonzero identity is live and carries that label. */
  ghost predicate Exact(labels: map<Identity, string>, lists: map<string, seq<Identity>>) {
    forall l <- lists, x <- lists[l] :: x != 0 ==> x in labels && labels[x] == l
  }

  /** Each tracked policy has a forced label, which its identity carries. */
  ghost predicate Labelled(ps: seq<Policy>, ids: map<string, Identity>, labels: map<Identity, string>) {
    forall p <- ps ::
      && Single(p.labels) && p.name in ids && ids[p.name] in labels
      && LabelChoice(p.labels, labels[ids[p.name]])
  }

  ghost predicate Indexed(m: Memory) {
    Listed(m.idToLabel, m.labelToIds) && Labelled(m.policies, m.nameToId, m.idToLabel)
  }

  /** How `Relabel` changes the lists. */
  function Enlist(lists: map<string, seq<Identity>>, l: string, id: Identity): map<string, seq<Identity>> {
    var ids := if l in lists then lists[l] else [];
    if id in ids then lists else lists[l := ids + [id]]
  }

  lemma EnlistKeepsListed(labels: map<Identity, string>, lists: map<string, seq<Identity>>, id: Identity, l: string)
    requires Listed(labels, lists)
    ensures Listed(labels[id := l], Enlist(lists, l, id))
    ensures l in Enlist(lists, l, id)
  {
    var ids := if l in lists then lists[l] else [];
    if id !in ids {
      assert (ids + [id])[|ids|] == id;
      forall x: Identity | x != 0 ensures AtMostOnce(ids + [id], x) {
        assert AtMostOnce(ids, x);
      }
    }
  }

  lemma EnlistKeepsExact(labels: map<Identity, string>, lists: map<string, seq<Identity>>, id: Identity, l: string)
    requires Exact(labels, lists) && (id in labels ==> labels[id] == l) && id != 0
    ensures Exact(labels[id := l], Enlist(lists, l, id))
  {}

  /** Taking a live identity out of its own list. */
  lemma DelistKeepsListed(labels: map<Identity, string>, lists: map<string, seq<Identity>>, id: Identity)
    requires Listed(labels, lists) && id in labels && 0 !in labels
    ensures Remove(lists[labels[id]], id).Finished?
    ensures Listed(labels - {id}, lists[labels[id] := Remove(lists[labels[id]], id).buf])
    ensures Exact(labels, lists) ==> Exact(labels - {id}, lists[labels[id] := Remove(lists[labels[id]], id).buf])
  {
    var l := labels[id];
    var ids := lists[l];
    assert AtMostOnce(ids, id);
    RemoveMembers(ids, id);
    var buf := Remove(ids, id).buf;
    forall i | i in labels - {id} ensures labels[i] in lists[l := buf] && (i == 0 || i in lists[l := buf][labels[i]]) {}
    forall x: Identity | x != 0 ensures AtMostOnce(buf, x) {
      assert AtMostOnce(ids, x);
    }
  }

  /** A MODIFIED event that leaves the workload's label alone. */
  ghost predicate KeepsLabel(m: Memory, e: Event) {
    e.Modified? && e.p.name in m.nameToId && m.nameToId[e.p.name] in m.idToLabel ==>
      m.idToLabel[m.nameToId[e.p.name]] == e.lbl
  }

  lemma LabelledAppend(ps: seq<Policy>, ids: map<string, Identity>, labels: map<Identity, string>, p: Policy,
                       id: Identity, l: string)
    requires Labelled(ps, ids, labels) && p.name !in ids && id !in labels && Single(p.labels)
    requires LabelChoice(p.labels, l)
    ensures Labelled(ps + [p], ids[p.name := id], labels[id := l])
  {}

  lemma LabelledReplace(ps: seq<Policy>, ids: map<string, Identity>, labels: map<Identity, string>, i: nat, p: Policy,
                        l: string)
    requires Labelled(ps, ids, labels) && i < |ps| && ps[i].name == p.name && Single(p.labels)
    requires LabelChoice(p.labels, l)
    requires forall j, k :: 0 <= j < k < |ps| ==> ps[j].name != ps[k].name
    requires forall a, b :: a in ids && b in ids && ids[a] == ids[b] ==> a == b
    ensures Labelled(ps[i := p], ids, labels[ids[p.name] := l])
  {
    assert ps[i] in ps;
    forall q | q in ps[i := p] ensures q == p || (q in ps && q.name != p.name) {
      var k :| 0 <= k < |ps| && ps[i := p][k] == q;
    }
  }

  lemma LabelledRemove(ps: seq<Policy>, ids: map<string, Identity>, labels: map<Identity, string>, i: nat)
    requires Labelled(ps, ids, labels) && i < |ps|
    requires forall j, k :: 0 <= j < k < |ps| ==> ps[j].name != ps[k].name
    requires forall a, b :: a in ids && b in ids && ids[a] == ids[b] ==> a == b
    ensures ps[i].name in ids
    ensures Labelled(ps[..i] + ps[i + 1..], ids - {ps[i].name}, labels - {ids[ps[i].name]})
  {
    assert ps[i] in ps;
    var ps' := ps[..i] + ps[i + 1..];
    forall q | q in ps' ensures q in ps && q.name != ps[i].name {
      var k :| 0 <= k < |ps'| && ps'[k] == q;
      assert q == ps[if k < i then k else k + 1];
    }
  }

  lemma AddedKeepsIndexed(m: Memory, p: Policy, lbl: string, id: Identity, m': Memory)
    requires Consistent(m) && Indexed(m) && AddedFields(m, p, lbl, id, m')
    requires id != 0 && Free(m, id) && forall q <- m.policies :: q.name != p.name
    requires Single(p.labels) && LabelChoice(p.labels, lbl)
    ensures Indexed(m')
    ensures Exact(m.idToLabel, m.labelToIds) ==> Exact(m'.idToLabel, m'.labelToIds)
  {
    TracksAppend(m.policies, m.nameToId.Keys, p);
    LabelledAppend(m.policies, m.nameToId, m.idToLabel, p, id, lbl);
    EnlistKeepsListed(m.idToLabel, m.labelToIds, id, lbl);
    if Exact(m.idToLabel, m.labelToIds) {
      EnlistKeepsExact(m.idToLabel, m.labelToIds, id, lbl);
    }
  }

  lemma ModifiedKeepsIndexed(m: Memory, i: nat, p: Policy, lbl: string, m': Memory)
    requires Consistent(m) && Indexed(m) && ModifiedFields(m, i, p, lbl, IdentityOf(m, p.name), m')
    requires m.policies[i].name == p.name
    requires Single(p.labels) && LabelChoice(p.labels, lbl)
    ensures Indexed(m')
    ensures Exact(m.idToLabel, m.labelToIds) && m.idToLabel[IdentityOf(m, p.name)] == lbl ==>
              Exact(m'.idToLabel, m'.labelToIds)
  {
    TrackedIdentity(m, i);
    LabelledReplace(m.policies, m.nameToId, m.idToLabel, i, p, lbl);
    EnlistKeepsListed(m.idToLabel, m.labelToIds, m.nameToId[p.name], lbl);
    if Exact(m.idToLabel, m.labelToIds) && m.idToLabel[IdentityOf(m, p.name)] == lbl {
      EnlistKeepsExact(m.idToLabel, m.labelToIds, m.nameToId[p.name], lbl);
    }
  }

  lemma DeletedKeepsIndexed(m: Memory, i: nat, lbl: string, m': Memory)
    requires i < |m.policies| && Consistent(m) && Indexed(m)
    requires DeletedFields(m, i, lbl, IdentityOf(m, m.policies[i].name), m')
    requires LabelChoice(m.policies[i].labels, lbl)
    ensures Indexed(m')
    ensures Exact(m.idToLabel, m.labelToIds) ==> Exact(m'.idToLabel, m'.labelToIds)
  {
    TrackedIdentity(m, i);
    var id := m.nameToId[m.policies[i].name];
    assert m.policies[i] in m.policies;
    assert m.idToLabel[id] == lbl;
    LabelledRemove(m.policies, m.nameToId, m.idToLabel, i);
    DelistKeepsListed(m.idToLabel, m.labelToIds, id);
  }

  lemma EffectKeepsIndexed(m: Memory, e: Event, m': Memory)
    requires Consistent(m) && Enabled(m, e) && WellFormed(m, e) && Effect(m, e, m')
    requires Indexed(m) && Single(e.p.labels)
    ensures Indexed(m')
    ensures Exact(m.idToLabel, m.labelToIds) && KeepsLabel(m, e) ==> Exact(m'.idToLabel, m'.labelToIds)
  {
    match e
    case Added(p, lbl, id) =>
      if p !in m.policies { AddedKeepsIndexed(m, p, lbl, id, m'); }
    case Modified(p, lbl) =>
      var i := FirstNamed(m.policies, p.name);
      if i < |m.policies| {
        TrackedIdentity(m, i);
        ModifiedKeepsIndexed(m, i, p, lbl, m');
      }
    case Deleted(p, lbl) =>
      var i := FirstEqual(m.policies, p);
      if i < |m.policies| { DeletedKeepsIndexed(m, i, lbl, m'); }
  }

  lemma StepKeepsIndexed(m: Memory, e: Event, m': Memory)
    requires Consistent(m) && Indexed(m) && Step(m, e, m') && WellFormed(m, e) && Single(e.p.labels)
    ensures Indexed(m')
    ensures Exact(m.idToLabel, m.labelToIds) && KeepsLabel(m, e) ==> Exact(m'.idToLabel, m'.labelToIds)
  {
    EventEffect(m, e);
    EffectKeepsIndexed(m, e, m');
  }

  ghost predicate SingleLabelRun(mems: seq<Memory>, events: seq<Event>) {
    && WellFormedRun(mems, events)
    && forall k {:trigger events[k]} :: 0 <= k < |events| ==> Single(events[k].p.labels)
  }

  ghost predicate LabelKeepingRun(mems: seq<Memory>, events: seq<Event>) {
    && SingleLabelRun(mems, events)
    && forall k {:trigger events[k]} :: 0 <= k < |events| ==> KeepsLabel(mems[k], events[k])
  }

  /** Every live identity is listed under its label, and no nonzero identity twice. */
  lemma {:induction false} LabelIndex(mems: seq<Memory>, events: seq<Event>, n: nat)
    requires SingleLabelRun(mems, events) && n < |mems|
    ensures Indexed(mems[n])
    decreases n
  {
    if n > 0 {
      LabelIndex(mems, events, n - 1);
      ConsistentThroughout(mems, events, n - 1);
      assert StepAt(mems, events, n - 1);
      StepKeepsIndexed(mems[n - 1], events[n - 1], mems[n]);
    }
  }

  /** Without label changes the lists hold no other nonzero identity. */
  lemma {:induction false} LabelIndexExact(mems: seq<Memory>, events: seq<Event>, n: nat)
    requires LabelKeepingRun(mems, events) && n < |mems|
    ensures Exact(mems[n].idToLabel, mems[n].labelToIds)
    decreases n
  {
    if n > 0 {
      LabelIndexExact(mems, events, n - 1);
      LabelIndex(mems, events, n - 1);
      ConsistentThroughout(mems, events, n - 1);
      assert StepAt(mems, events, n - 1);
      StepKeepsIndexed(mems[n - 1], events[n - 1], mems[n]);
    }
  }

  /** A changed label leaves the identity behind in its old list. */
  lemma RelabelledStaysListed(m: Memory, i: nat, p: Policy, lbl: string, m': Memory)
    requires Consistent(m) && Indexed(m) && ModifiedFields(m, i, p, lbl, IdentityOf(m, p.name), m')
    requires m.policies[i].name == p.name && IdentityOf(m, p.name) in m.idToLabel
    requires m.idToLabel[IdentityOf(m, p.name)] != lbl
    ensures !Exact(m'.idToLabel, m'.labelToIds)
  {
    TrackedIdentity(m, i);
    var id := m.nameToId[p.name];
    var was := m.idToLabel[id];
    assert id in m'.labelToIds[was] && m'.idToLabel[id] == lbl;
  }

  lemma ModifiedKeepsExactlyWhen(m: Memory, e: Event, m': Memory)
    requires Consistent(m) && Indexed(m) && Exact(m.idToLabel, m.labelToIds)
    requires e.Modified? && Enabled(m, e) && WellFormed(m, e) && Single(e.p.labels) && Effect(m, e, m')
    ensures Exact(m'.idToLabel, m'.labelToIds) <==> KeepsLabel(m, e)
  {
    var i := FirstNamed(m.policies, e.p.name);
    if KeepsLabel(m, e) {
      EffectKeepsIndexed(m, e, m');
    } else if i < |m.policies| {
      TrackedIdentity(m, i);
      RelabelledStaysListed(m, i, e.p, e.lbl, m');
    }
  }

  /** In a single-label run the lists are exact throughout exactly when no MODIFIED event changes a label. */
  lemma LabelIndexExactlyWhen(mems: seq<Memory>, events: seq<Event>)
    requires SingleLabelRun(mems, events)
    ensures (forall n :: 0 <= n < |mems| ==> Exact(mems[n].idToLabel, mems[n].labelToIds)) <==>
            LabelKeepingRun(mems, events)
  {
    if LabelKeepingRun(mems, events) {
      forall n | 0 <= n < |mems| ensures Exact(mems[n].idToLabel, mems[n].labelToIds) {
        LabelIndexExact(mems, events, n);
      }
    }
    if forall n :: 0 <= n < |mems| ==> Exact(mems[n].idToLabel, mems[n].labelToIds) {
      forall k | 0 <= k < |events| ensures KeepsLabel(mems[k], events[k]) {
        assert StepAt(mems, events, k);
        assert Exact(mems[k].idToLabel, mems[k].labelToIds) && Exact(mems[k + 1].idToLabel, mems[k + 1].labelToIds);
        if events[k].Modified? {
          ConsistentThroughout(mems, events, k);
          LabelIndex(mems, events, k);
          EventEffect(mems[k], events[k]);
          ModifiedKeepsExactlyWhen(mems[k], events[k], mems[k + 1]);
        }
      }
    }
  }

  // ---- any run at all ----

  lemma EffectKeepsNoRepeats(m: Memory, e: Event, m': Memory, l: string)
    requires Effect(m, e, m') && NoRepeats(ListOf(m, l))
    ensures NoRepeats(ListOf(m', l))
  {
    if e.Deleted? {
      if FirstEqual(m.policies, e.p) < |m.policies| && e.lbl == l && l in m.labelToIds {
        RemoveKeepsNoRepeats(ListOf(m, l), IdentityOf(m, e.p.name));
      }
    } else {
      var id := if e.Added? then e.draw else IdentityOf(m, e.p.name);
      if ListOf(m', l) != ListOf(m, l) {
        assert ListOf(m', l) == ListOf(m, l) + [id] && id !in ListOf(m, l);
        AppendKeepsNoRepeats(ListOf(m, l), id);
      }
    }
  }

  lemma AppendKeepsNoRepeats(ids: seq<Identity>, id: Identity)
    requires NoRepeats(ids) && id !in ids
    ensures NoRepeats(ids + [id])
  {
    forall x: Identity | x != 0 ensures AtMostOnce(ids + [id], x) {
      assert AtMostOnce(ids, x);
    }
  }

  /** In any run at all, no nonzero identity stands twice in a list. */
  lemma {:induction false} NoIdentityTwice(mems: seq<Memory>, events: seq<Event>, n: nat, l: string)
    requires IsRun(mems, events) && n < |mems|
    ensures NoRepeats(ListOf(mems[n], l))
    decreases n
  {
    if n > 0 {
      NoIdentityTwice(mems, events, n - 1, l);
      assert StepAt(mems, events, n - 1);
      EventEffect(mems[n - 1], events[n - 1]);
      EffectKeepsNoRepeats(mems[n - 1], events[n - 1], mems[n], l);
    }
  }

  lemma EffectGrowsLists(m: Memory, e: Event, m': Memory, l: string)
    requires Effect(m, e, m')
    ensures |ListOf(m, l)| <= |ListOf(m', l)|
  {}

  lemma StepGrowsLists(mems: seq<Memory>, events: seq<Event>, n: nat, l: string)
    requires IsRun(mems, events) && n < |events|
    ensures |ListOf(mems[n], l)| <= |ListOf(mems[n + 1], l)|
  {
    assert StepAt(mems, events, n);
    EventEffect(mems[n], events[n]);
    EffectGrowsLists(mems[n], events[n], mems[n + 1], l);
  }

  lemma {:induction false} Ascending(sizes: seq<nat>, i: nat, n: nat)
    requires i <= n < |sizes| && forall k :: 0 < k < |sizes| ==> sizes[k - 1] <= sizes[k]
    ensures sizes[i] <= sizes[n]
  {
    if i < n {
      Ascending(sizes, i, n - 1);
    }
  }

  function Lengths(mems: seq<Memory>, l: string): (r: seq<nat>)
    ensures |r| == |mems| && forall k :: 0 <= k < |r| ==> r[k] == |ListOf(mems[k], l)|
  {
    seq(|mems|, k requires 0 <= k < |mems| => |ListOf(mems[k], l)|)
  }

  /** In any run at all, no list ever gets shorter. */
  lemma ListsNeverShrink(mems: seq<Memory>, events: seq<Event>, i: nat, n: nat, l: string)
    requires IsRun(mems, events) && i <= n < |mems|
    ensures |ListOf(mems[i], l)| <= |ListOf(mems[n], l)|
  {
    var sizes := Lengths(mems, l);
    forall k | 0 < k < |sizes| ensures sizes[k - 1] <= sizes[k] {
      StepGrowsLists(mems, events, k - 1, l);
    }
    Ascending(sizes, i, n);
  }
}

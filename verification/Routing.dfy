/**
 End to end: operator events, registrations, lease expiries, disconnects and host policy events
 in any order, and which workloads a host policy reaches.
 */
module Routing {
  import opened Text
  import opened Decimal
  import opened Json
  import opened Etcd
  import opened Keys
  import opened SwapRemove
  import opened Registry
  import opened RegistryMaps
  import opened EventWrites
  import opened Messages
  import opened FanOut
  import opened Cache
  import opened Server
  import opened Cluster
  import opened TwoWriters

  // ---- the system ----

  datatype System = System(world: World, known: seq<string>, cache: Lists, chan: seq<Message>)

  datatype Move = Shared(a: Cluster.Action) | Host(event: HostPolicyEvent, ks: seq<string>, outcome: RefreshOutcome)

  const START := System(EMPTY_WORLD, [], map[], [])

  /** `Host` is `KVMS.UpdateHostSecurityPolicies`. */
  ghost predicate Moves(s: System, move: Move, s': System) {
    match move
    case Shared(a) => Next(s.world, a, s'.world) && s' == s.(world := s'.world)
    case Host(event, ks, outcome) =>
      && s'.world == s.world
      && HostUpdate(s.world.db, event, ks, outcome, s.known, s.cache, s.chan, s'.known, s'.cache, s'.chan)
  }

  /** Well-formed events with single, slash-free labels that MODIFIED leaves alone, and orderly disconnects. */
  ghost predicate Routable(w: World, a: Cluster.Action) {
    && Tame(a) && Orderly(w, a)
    && (a.Operator? ==> WellFormed(w.mem, a.e) && Single(a.e.p.labels) && KeepsLabel(w.mem, a.e) && '/' !in a.e.lbl)
  }

  ghost predicate MoveAt(states: seq<System>, moves: seq<Move>, k: nat)
    requires k < |moves| < |states|
  {
    Moves(states[k], moves[k], states[k + 1]) && (moves[k].Shared? ==> Routable(states[k].world, moves[k].a))
  }

  ghost predicate IsSystemRun(states: seq<System>, moves: seq<Move>) {
    && |states| == |moves| + 1
    && states[0] == START
    && (forall k :: 0 <= k < |moves| ==> MoveAt(states, moves, k))
  }

  // ---- what every move keeps ----

  /** The operator's lists are exact, and etcd has a key for each of them and for no other label. */
  ghost predicate Tidy(m: Memory, db: Db) {
    && Consistent(m) && Indexed(m) && Exact(m.idToLabel, m.labelToIds) && Sound(m, db)
    && (forall l :: Key(LabelToIdentities, l) in db ==> l in m.labelToIds)
    && (forall l <- m.labelToIds :: '/' !in l)
  }

  ghost predicate Inv(s: System) {
    Tidy(s.world.mem, s.world.db) && forall l <- s.known :: l in s.world.mem.labelToIds
  }

  lemma DeletedLabelIsListed(m: Memory, e: Event)
    requires Consistent(m) && Indexed(m) && Enabled(m, e) && Removes(m, e)
    ensures e.lbl in m.labelToIds
  {
    var i := FirstEqual(m.policies, e.p);
    TrackedIdentity(m, i);
    assert m.policies[i] in m.policies;
  }

  lemma EffectOnLabels(m: Memory, e: Event, m': Memory, l: string)
    requires Effect(m, e, m')
    ensures l in m.labelToIds ==> l in m'.labelToIds
    ensures l in m'.labelToIds ==> l in m.labelToIds || l == e.lbl
    ensures Relabels(m, e) ==> e.lbl in m'.labelToIds || EventId(m, e) in ListOf(m, e.lbl)
  {}

  lemma OperatorKeepsMemory(m: Memory, e: Event, m': Memory)
    requires Step(m, e, m') && WellFormed(m, e) && Single(e.p.labels) && KeepsLabel(m, e)
    requires Consistent(m) && Indexed(m) && Exact(m.idToLabel, m.labelToIds)
    ensures Consistent(m') && Indexed(m') && Exact(m'.idToLabel, m'.labelToIds)
  {
    EventEffect(m, e);
    EffectKeepsConsistent(m, e, m');
    EffectKeepsIndexed(m, e, m');
  }

  lemma OperatorKeepsLabelSet(m: Memory, db: Db, e: Event, m': Memory, l: string)
    requires Step(m, e, m') && Tidy(m, db) && '/' !in e.lbl
    ensures l in m.labelToIds ==> l in m'.labelToIds
    ensures l in m'.labelToIds ==> '/' !in l
    ensures Key(LabelToIdentities, l) in ApplyDb(m, db, e) ==> l in m'.labelToIds
  {
    EventEffect(m, e);
    EffectOnLabels(m, e, m', l);
    EventList(m, db, e, l);
    if Removes(m, e) {
      DeletedLabelIsListed(m, e);
    }
  }

  lemma OperatorKeepsTidy(m: Memory, db: Db, e: Event, m': Memory)
    requires Step(m, e, m') && WellFormed(m, e) && Single(e.p.labels) && KeepsLabel(m, e) && '/' !in e.lbl
    requires Tidy(m, db)
    ensures Tidy(m', ApplyDb(m, db, e))
    ensures forall l <- m.labelToIds :: l in m'.labelToIds
  {
    OperatorKeepsMemory(m, e, m');
    OperatorKeepsSound(m, db, e);
    forall l
      ensures l in m.labelToIds ==> l in m'.labelToIds
      ensures l in m'.labelToIds ==> '/' !in l
      ensures Key(LabelToIdentities, l) in ApplyDb(m, db, e) ==> l in m'.labelToIds
    {
      OperatorKeepsLabelSet(m, db, e, m', l);
    }
  }

  /** An orderly disconnect takes the identity out of the list of its label. */
  lemma LeaveOnList(m: Memory, db: Db, id: Identity, kvs: seq<KeyValue>, l: string, y: Identity)
    requires Sound(m, db) && y != 0 && Scanned(db, id, kvs)
    requires IdKey(IdentityToLabel, id) in db && Unextended(db, EtcdLabel(db, id))
    ensures var db' := Disconnect(db, id, kvs).db;
            && (Key(LabelToIdentities, l) in db' <==> Key(LabelToIdentities, l) in db)
            && (ListedInEtcd(db', l, y) <==> ListedInEtcd(db, l, y) && !(l == EtcdLabel(db, id) && y == id))
  {
    var own := EtcdLabel(db, id);
    assert GoodLabel(db, Dec(id));
    if l != own {
      SameLabel(db, id);
      DisconnectFrame(db, id, kvs, LabelToIdentities, l);
    } else if Edited(kvs, id) == 0 {
      NothingEdited(db, id, kvs);
      UnserveFrame(db, id, LabelToIdentities, own);
      if id != 0 {
        NonzeroIsEdited(m, db, id, kvs, own);
      }
    } else {
      var x := LastScannedListWins(m, db, id, kvs);
      assert x == own;
      MarshalRoundTrip(EditList(db[Key(LabelToIdentities, own)].value, id).slice);
    }
  }

  lemma NonzeroIsEdited(m: Memory, db: Db, id: Identity, kvs: seq<KeyValue>, x: string)
    requires Sound(m, db) && id != 0 && Scanned(db, id, kvs)
    requires Key(LabelToIdentities, x) in db && EtcdLabel(db, id) <= x
    ensures Edited(kvs, id) > 0
  {
    var i := ScanFinds(db, id, kvs, x);
    LeavePanics(m, db, id, kvs);
  }

  lemma LeaveKeepsTidy(m: Memory, db: Db, id: Identity, kvs: seq<KeyValue>)
    requires Tidy(m, db) && Scanned(db, id, kvs)
    requires IdKey(IdentityToLabel, id) in db && Unextended(db, EtcdLabel(db, id))
    ensures Tidy(m, Disconnect(db, id, kvs).db)
  {
    LeaveKeepsSound(m, db, id, kvs);
    forall l ensures Key(LabelToIdentities, l) in Disconnect(db, id, kvs).db ==> l in m.labelToIds {
      LeaveOnList(m, db, id, kvs, l, 1);
    }
  }

  lemma UnseenKeepsTidy(m: Memory, db: Db, db': Db)
    requires Tidy(m, db) && Unseen(db, db')
    ensures Tidy(m, db')
  {
    UnseenKeeps(m, db, db');
    forall l | Key(LabelToIdentities, l) in db' ensures l in m.labelToIds {
      assert Same(db, db', Key(LabelToIdentities, l));
    }
  }

  /** Registrations and lease expiries are not seen by the lists. */
  lemma QuietIsUnseen(w: World, a: Cluster.Action, w': World)
    requires Next(w, a, w') && (a.Register? || a.LeaseExpires?) && Sound(w.mem, w.db)
    ensures w'.mem == w.mem && Unseen(w.db, w'.db)
  {
    match a
    case Register(identity, podIp, client) => RegisterIsUnseen(w.db, identity, podIp, client);
    case LeaseExpires(client) => ExpiryIsUnseen(w.mem, w.db, client);
  }

  lemma SharedKeepsTidy(w: World, a: Cluster.Action, w': World)
    requires Next(w, a, w') && Routable(w, a) && Tidy(w.mem, w.db)
    ensures Tidy(w'.mem, w'.db)
    ensures forall l <- w.mem.labelToIds :: l in w'.mem.labelToIds
  {
    if a.Operator? {
      OperatorKeepsTidy(w.mem, w.db, a.e, w'.mem);
    } else if a.Leave? {
      LeaveKeepsTidy(w.mem, w.db, a.id, a.kvs);
    } else {
      QuietIsUnseen(w, a, w');
      UnseenKeepsTidy(w.mem, w.db, w'.db);
    }
  }

  /** What the refresh finds: a slash-free, decodable list for every label of the operator. */
  lemma StoreIsReadable(m: Memory, db: Db)
    requires Tidy(m, db)
    ensures StoredLabels(db) == m.labelToIds.Keys && SlashFree(db)
    ensures forall l :: Readable(db, l)
  {
    forall l ensures l in StoredLabels(db) <==> l in m.labelToIds { StoredLabelsAt(db, l); }
    forall l ensures Readable(db, l) {
      forall k | k in db && Key(LabelToIdentities, l) <= k ensures Unmarshal(db[k].value).Decoded? {
        assert Prefix(LabelToIdentities) <= Key(LabelToIdentities, l);
        var x := KeyOfNamespace(LabelToIdentities, k);
        assert GoodList(db, x);
      }
    }
  }

  lemma RefreshSucceeds(m: Memory, db: Db, outcome: RefreshOutcome, known: seq<string>, cache: Lists,
                        known': seq<string>, cache': Lists)
    requires Tidy(m, db) && (forall l <- known :: l in m.labelToIds)
    requires Refresh(db, outcome, known, cache, known', cache')
    ensures outcome == Completed
    ensures forall l :: l in known' <==> l in m.labelToIds
    ensures forall l <- m.labelToIds :: ListIn(cache', l) == StoredList(db, l)
  {
    StoreIsReadable(m, db);
    SegmentsAreLabels(db);
    forall l | l in known' ensures Loadable(db, l) { StoredIsScannable(db, l); }
    RefreshAgrees(db, known, cache, known', cache');
  }

  /** A host policy event never crashes the service, and leaves its lists equal to etcd's. */
  lemma HostStepRefreshes(s: System, event: HostPolicyEvent, ks: seq<string>, outcome: RefreshOutcome, s': System)
    requires Inv(s) && Moves(s, Host(event, ks, outcome), s')
    ensures outcome == Completed && Inv(s')
    ensures forall l :: l in s'.known <==> l in s.world.mem.labelToIds
    ensures forall l <- s.world.mem.labelToIds :: ListIn(s'.cache, l) == StoredList(s.world.db, l)
  {
    RefreshSucceeds(s.world.mem, s.world.db, outcome, s.known, s.cache, s'.known, s'.cache);
  }

  lemma StartInv()
    ensures Inv(START)
  {
    EmptyIsSound();
  }

  lemma MoveKeepsInv(s: System, move: Move, s': System)
    requires Inv(s) && Moves(s, move, s') && (move.Shared? ==> Routable(s.world, move.a))
    ensures Inv(s')
  {
    match move
    case Shared(a) => SharedKeepsTidy(s.world, a, s'.world);
    case Host(event, ks, outcome) => HostStepRefreshes(s, event, ks, outcome, s');
  }

  lemma {:induction false} InvThroughout(states: seq<System>, moves: seq<Move>, n: nat)
    requires IsSystemRun(states, moves) && n < |states|
    ensures Inv(states[n])
    decreases n
  {
    if n == 0 {
      StartInv();
    } else {
      InvThroughout(states, moves, n - 1);
      assert MoveAt(states, moves, n - 1);
      MoveKeepsInv(states[n - 1], moves[n - 1], states[n]);
    }
  }

  // ---- who left since the operator last wrote a list ----

  ghost predicate WritesList(s: System, move: Move, l: string) {
    move.Shared? && move.a.Operator? && Writes(s.world.mem, move.a.e, l)
  }

  ghost predicate Leaves(s: System, move: Move, l: string, id: Identity) {
    move.Shared? && move.a.Leave? && move.a.id == id && EtcdLabel(s.world.db, id) == l
  }

  ghost function LeftAfter(s: System, move: Move, l: string, left: set<Identity>): set<Identity> {
    match move
    case Shared(Operator(e)) => if Writes(s.world.mem, e, l) then {} else left
    case Shared(Leave(id, _)) => if EtcdLabel(s.world.db, id) == l then left + {id} else left
    case _ => left
  }

  /** The identities that left label `l` after the operator last wrote its list. */
  ghost function Left(states: seq<System>, moves: seq<Move>, n: nat, l: string): set<Identity>
    requires n <= |moves| < |states|
  {
    if n == 0 then {} else LeftAfter(states[n - 1], moves[n - 1], l, Left(states, moves, n - 1, l))
  }

  /** No list of `l` was written from move `k` up to move `n`. */
  ghost predicate UnwrittenSince(states: seq<System>, moves: seq<Move>, k: nat, n: nat, l: string)
    requires n <= |moves| < |states|
  {
    forall j {:trigger moves[j]} :: k <= j < n ==> !WritesList(states[j], moves[j], l)
  }

  ghost predicate LeftAt(states: seq<System>, moves: seq<Move>, k: nat, n: nat, l: string, id: Identity)
    requires k < n <= |moves| < |states|
  {
    Leaves(states[k], moves[k], l, id) && UnwrittenSince(states, moves, k, n, l)
  }

  /** `id` left `l` at some move since the list was last written. */
  ghost predicate LeftSome(states: seq<System>, moves: seq<Move>, n: nat, l: string, id: Identity)
    requires n <= |moves| < |states|
  {
    exists k :: 0 <= k < n && LeftAt(states, moves, k, n, l, id)
  }

  lemma LeftAtMore(states: seq<System>, moves: seq<Move>, k: nat, n: nat, l: string, id: Identity)
    requires k < n < |moves| < |states|
    ensures LeftAt(states, moves, k, n + 1, l, id) <==>
            LeftAt(states, moves, k, n, l, id) && !WritesList(states[n], moves[n], l)
  {}

  lemma LeftAtLast(states: seq<System>, moves: seq<Move>, n: nat, l: string, id: Identity)
    requires n < |moves| < |states|
    ensures LeftAt(states, moves, n, n + 1, l, id) <==> Leaves(states[n], moves[n], l, id)
  {}

  lemma LeftSomeStep(states: seq<System>, moves: seq<Move>, n: nat, l: string, id: Identity)
    requires n < |moves| < |states|
    ensures LeftSome(states, moves, n + 1, l, id) <==>
            if WritesList(states[n], moves[n], l) then false
            else LeftSome(states, moves, n, l, id) || Leaves(states[n], moves[n], l, id)
  {
    var next := n + 1;
    LeftAtLast(states, moves, n, l, id);
    if k :| 0 <= k < next && LeftAt(states, moves, k, next, l, id) && k < n {
      LeftAtMore(states, moves, k, n, l, id);
    }
    if k :| 0 <= k < n && LeftAt(states, moves, k, n, l, id) {
      LeftAtMore(states, moves, k, n, l, id);
    }
  }

  /** In terms of the run: some disconnect of `id` under `l`, and no later write of that list. */
  lemma {:induction false} LeftMeaning(states: seq<System>, moves: seq<Move>, n: nat, l: string, id: Identity)
    requires n <= |moves| < |states|
    ensures id in Left(states, moves, n, l) <==> LeftSome(states, moves, n, l, id)
    decreases n
  {
    if n > 0 {
      LeftMeaning(states, moves, n - 1, l, id);
      LeftSomeStep(states, moves, n - 1, l, id);
    }
  }

  /** Etcd lists under `l` what the operator does, those in `left` aside. */
  ghost predicate Agrees(m: Memory, db: Db, l: string, left: set<Identity>) {
    forall x: Identity :: x != 0 ==> (ListedInEtcd(db, l, x) <==> x in ListOf(m, l) && x !in left)
  }

  lemma OperatorKeepsAgreement(m: Memory, db: Db, e: Event, m': Memory, l: string, left: set<Identity>)
    requires Step(m, e, m') && Agrees(m, db, l, left)
    ensures Agrees(m', ApplyDb(m, db, e), l, if Writes(m, e, l) then {} else left)
  {
    var db' := ApplyDb(m, db, e);
    EventList(m, db, e, l);
    if Writes(m, e, l) {
      MarshalRoundTrip(SliceOf(m', l));
    } else {
      forall x: Identity ensures ListedInEtcd(db', l, x) <==> ListedInEtcd(db, l, x) {}
    }
  }

  lemma LeaveKeepsAgreement(m: Memory, db: Db, id: Identity, kvs: seq<KeyValue>, l: string, left: set<Identity>)
    requires Sound(m, db) && Scanned(db, id, kvs) && Agrees(m, db, l, left)
    requires IdKey(IdentityToLabel, id) in db && Unextended(db, EtcdLabel(db, id))
    ensures Agrees(m, Disconnect(db, id, kvs).db, l, if EtcdLabel(db, id) == l then left + {id} else left)
  {
    forall x: Identity | x != 0
      ensures ListedInEtcd(Disconnect(db, id, kvs).db, l, x) <==>
              ListedInEtcd(db, l, x) && !(l == EtcdLabel(db, id) && x == id)
    {
      LeaveOnList(m, db, id, kvs, l, x);
    }
  }

  lemma QuietKeepsAgreement(w: World, a: Cluster.Action, w': World, l: string, left: set<Identity>)
    requires Next(w, a, w') && (a.Register? || a.LeaseExpires?) && Sound(w.mem, w.db) && Agrees(w.mem, w.db, l, left)
    ensures Agrees(w'.mem, w'.db, l, left)
  {
    QuietIsUnseen(w, a, w');
    assert Same(w.db, w'.db, Key(LabelToIdentities, l));
    forall x: Identity ensures ListedInEtcd(w'.db, l, x) <==> ListedInEtcd(w.db, l, x) {}
  }

  lemma MoveKeepsAgreement(s: System, move: Move, s': System, l: string, left: set<Identity>)
    requires Inv(s) && Moves(s, move, s') && (move.Shared? ==> Routable(s.world, move.a))
    requires Agrees(s.world.mem, s.world.db, l, left)
    ensures Agrees(s'.world.mem, s'.world.db, l, LeftAfter(s, move, l, left))
  {
    match move
    case Shared(Operator(e)) => OperatorKeepsAgreement(s.world.mem, s.world.db, e, s'.world.mem, l, left);
    case Shared(Leave(id, kvs)) => LeaveKeepsAgreement(s.world.mem, s.world.db, id, kvs, l, left);
    case Shared(a) => QuietKeepsAgreement(s.world, a, s'.world, l, left);
    case Host(_, _, _) =>
  }

  lemma EmptyAgrees(l: string)
    ensures Agrees(EMPTY, map[], l, {})
  {}

  ghost predicate AgreesAt(states: seq<System>, moves: seq<Move>, n: nat, l: string)
    requires n <= |moves| < |states|
  {
    Agrees(states[n].world.mem, states[n].world.db, l, Left(states, moves, n, l))
  }

  lemma AgreementStep(states: seq<System>, moves: seq<Move>, n: nat, l: string, left: set<Identity>)
    requires IsSystemRun(states, moves) && 0 < n < |states|
    requires Agrees(states[n - 1].world.mem, states[n - 1].world.db, l, left)
    ensures Agrees(states[n].world.mem, states[n].world.db, l, LeftAfter(states[n - 1], moves[n - 1], l, left))
  {
    InvThroughout(states, moves, n - 1);
    assert MoveAt(states, moves, n - 1);
    MoveKeepsAgreement(states[n - 1], moves[n - 1], states[n], l, left);
  }

  lemma AgreesAtNext(states: seq<System>, moves: seq<Move>, n: nat, l: string, left: set<Identity>)
    requires 0 < n <= |moves| < |states| && left == Left(states, moves, n - 1, l)
    requires Agrees(states[n].world.mem, states[n].world.db, l, LeftAfter(states[n - 1], moves[n - 1], l, left))
    ensures AgreesAt(states, moves, n, l)
  {}

  /** At any point of any run, etcd's lists are the operator's without those who left since. */
  lemma {:induction false} ListsAgree(states: seq<System>, moves: seq<Move>, n: nat, l: string)
    requires IsSystemRun(states, moves) && n < |states|
    ensures AgreesAt(states, moves, n, l)
    decreases n
  {
    if n == 0 {
      EmptyAgrees(l);
    } else {
      ListsAgree(states, moves, n - 1, l);
      var left := Left(states, moves, n - 1, l);
      AgreementStep(states, moves, n, l, left);
      AgreesAtNext(states, moves, n, l, left);
    }
  }

  // ---- who gets the policy ----

  /** The label of a live workload; `None` for any other identity. */
  datatype LabelOf = None | Some(l: string)

  function LiveLabel(m: Memory, id: Identity): LabelOf {
    if id in m.idToLabel then Some(m.idToLabel[id]) else None
  }

  /** How often etcd's list of `l` holds an identity. */
  lemma ListCounts(m: Memory, db: Db, l: string, id: Identity, left: set<Identity>)
    requires Tidy(m, db) && id != 0 && l in m.labelToIds && Agrees(m, db, l, left)
    ensures multiset(StoredList(db, l))[id] == if LiveLabel(m, id) == Some(l) && id !in left then 1 else 0
  {
    assert GoodList(db, l);
    assert AtMostOnce(StoredList(db, l), id);
    CountOnce(StoredList(db, l), id);
    assert ListedInEtcd(db, l, id) <==> id in StoredList(db, l);
  }

  lemma ListCountsInRuns(states: seq<System>, moves: seq<Move>, n: nat, l: string, id: Identity)
    requires IsSystemRun(states, moves) && n < |states| && id != 0 && l in states[n].world.mem.labelToIds
    ensures multiset(StoredList(states[n].world.db, l))[id] ==
            if LiveLabel(states[n].world.mem, id) == Some(l) && id !in Left(states, moves, n, l) then 1 else 0
  {
    InvThroughout(states, moves, n);
    ListsAgree(states, moves, n, l);
    ListCounts(states[n].world.mem, states[n].world.db, l, id, Left(states, moves, n, l));
  }

  /** When each list holds `id` once or not at all, and only the list of `live` can. */
  lemma {:induction false} TotalCounts(cache: Lists, labels: seq<string>, id: Identity, live: LabelOf, there: bool)
    requires forall l <- labels :: multiset(ListIn(cache, l))[id] == if live == Some(l) && there then 1 else 0
    ensures Total(labels, cache, id) == if live.Some? && there then multiset(labels)[live.l] else 0
    decreases |labels|
  {
    if labels != [] {
      TotalCounts(cache, labels[1..], id, live, there);
      assert labels == [labels[0]] + labels[1..];
    }
  }

  /** How many copies of a message one move added to the channel. */
  ghost function Sent(s: System, s': System, msg: Message): nat {
    if s.chan <= s'.chan then multiset(s'.chan[|s.chan|..])[msg] else 0
  }

  /** What a policy event must send at point `n`: one copy per selector entry that spells the workload's label. */
  ghost function Due(states: seq<System>, moves: seq<Move>, n: nat, event: HostPolicyEvent, labels: seq<string>,
                     msg: Message): nat
    requires n <= |moves| < |states|
  {
    var m := states[n].world.mem;
    var live := LiveLabel(m, msg.identity);
    if msg == Message(event, msg.identity, false) && labels != [] && (forall l <- labels :: l in m.labelToIds)
       && live.Some? && msg.identity !in Left(states, moves, n, live.l)
    then multiset(labels)[live.l]
    else 0
  }

  lemma RoutedSends(states: seq<System>, moves: seq<Move>, n: nat, event: HostPolicyEvent, labels: seq<string>,
                    known: seq<string>, cache: Lists, msg: Message)
    requires IsSystemRun(states, moves) && n < |states| && msg.identity != 0
    requires forall l :: l in known <==> l in states[n].world.mem.labelToIds
    requires forall l <- states[n].world.mem.labelToIds :: ListIn(cache, l) == StoredList(states[n].world.db, l)
    ensures multiset(Routed(event, labels, known, cache))[msg] == Due(states, moves, n, event, labels, msg)
  {
    if Matches(labels, known) {
      var live := LiveLabel(states[n].world.mem, msg.identity);
      var there := live.Some? && msg.identity !in Left(states, moves, n, live.l);
      forall l | l in labels
        ensures multiset(ListIn(cache, l))[msg.identity] == if live == Some(l) && there then 1 else 0
      {
        ListCountsInRuns(states, moves, n, l, msg.identity);
      }
      SendListsCounts(event, labels, cache, msg);
      TotalCounts(cache, labels, msg.identity, live, there);
    }
  }

  lemma HostAppends(s: System, event: HostPolicyEvent, ks: seq<string>, s': System, msg: Message)
    requires Moves(s, Host(event, ks, Completed), s')
    ensures Sent(s, s', msg) == multiset(Routed(event, Texts(ks, event.matchLabels), s'.known, s'.cache))[msg]
  {
    var sent := Routed(event, Texts(ks, event.matchLabels), s'.known, s'.cache);
    assert s'.chan == s.chan + sent && s'.chan[|s.chan|..] == sent;
  }

  /**
   Routing, over every run: a host policy event never crashes the service, and it reaches each nonzero
   identity once per selector entry that spells the label of a live workload with that identity, provided
   the selector is not empty, all its labels are known, and the identity has not disconnected since the
   operator last wrote that list; otherwise it does not reach it.
   */
  lemma EndToEndRouting(states: seq<System>, moves: seq<Move>, n: nat, msg: Message)
    requires IsSystemRun(states, moves) && n < |moves| && moves[n].Host? && msg.identity != 0
    ensures var h := moves[n];
            && h.outcome == Completed && Moves(states[n], h, states[n + 1])
            && Sent(states[n], states[n + 1], msg) ==
               Due(states, moves, n, h.event, Texts(h.ks, h.event.matchLabels), msg)
  {
    InvThroughout(states, moves, n);
    var h, s, s' := moves[n], states[n], states[n + 1];
    assert MoveAt(states, moves, n);
    HostStepRefreshes(s, h.event, h.ks, h.outcome, s');
    HostAppends(s, h.event, h.ks, s', msg);
    RoutedSends(states, moves, n, h.event, Texts(h.ks, h.event.matchLabels), s'.known, s'.cache, msg);
  }

  /** Selector entries spell different labels when their keys contain no '='. */
  lemma TextsDistinct(ks: seq<string>, sel: map<string, string>)
    requires Orders(ks, sel.Keys) && forall k <- sel :: '=' !in k
    ensures forall i, j :: 0 <= i < j < |ks| ==> Texts(ks, sel)[i] != Texts(ks, sel)[j]
  {
    forall i, j | 0 <= i < j < |ks| ensures Texts(ks, sel)[i] != Texts(ks, sel)[j] {
      SplitHead(ks[i], sel[ks[i]], '=');
      SplitHead(ks[j], sel[ks[j]], '=');
      assert Split(Texts(ks, sel)[i], '=')[0] == ks[i] && Split(Texts(ks, sel)[j], '=')[0] == ks[j];
    }
  }

  lemma {:induction false} CountDistinct(labels: seq<string>, l: string)
    requires forall i, j :: 0 <= i < j < |labels| ==> labels[i] != labels[j]
    ensures multiset(labels)[l] == if l in labels then 1 else 0
  {
    if labels != [] {
      var n := |labels| - 1;
      CountDistinct(labels[..n], l);
      assert labels == labels[..n] + [labels[n]];
    }
  }

  /**
   With '='-free label keys: exactly once for each live workload that the selector names and that has
   not left since the operator last wrote its list, and never otherwise.
   */
  lemma RoutedExactlyOnce(states: seq<System>, moves: seq<Move>, n: nat, id: Identity)
    requires IsSystemRun(states, moves) && n < |moves| && moves[n].Host? && id != 0
    requires forall k <- moves[n].event.matchLabels :: '=' !in k
    ensures Moves(states[n], moves[n], states[n + 1])
    ensures var m, event := states[n].world.mem, moves[n].event;
            var labels := Texts(moves[n].ks, event.matchLabels);
            Sent(states[n], states[n + 1], Message(event, id, false)) ==
            if (forall l <- labels :: l in m.labelToIds) && id in m.idToLabel && m.idToLabel[id] in labels
               && id !in Left(states, moves, n, m.idToLabel[id])
            then 1 else 0
  {
    var h := moves[n];
    EndToEndRouting(states, moves, n, Message(h.event, id, false));
    TextsDistinct(h.ks, h.event.matchLabels);
    if id in states[n].world.mem.idToLabel {
      CountDistinct(Texts(h.ks, h.event.matchLabels), states[n].world.mem.idToLabel[id]);
    }
  }

  /** Whether a live workload has so left can be read off the store. */
  lemma LeftExactlyWhenUnlisted(states: seq<System>, moves: seq<Move>, n: nat, id: Identity)
    requires IsSystemRun(states, moves) && n < |states| && id != 0 && LiveLabel(states[n].world.mem, id).Some?
    ensures var l := LiveLabel(states[n].world.mem, id).l;
            id in Left(states, moves, n, l) <==> id !in StoredList(states[n].world.db, l)
  {
    var l := LiveLabel(states[n].world.mem, id).l;
    InvThroughout(states, moves, n);
    ListCountsInRuns(states, moves, n, l, id);
    assert id in StoredList(states[n].world.db, l) <==> id in multiset(StoredList(states[n].world.db, l));
  }

  /** The same, as a test on memory and store at that point. */
  lemma RoutedExactlyWhenStored(states: seq<System>, moves: seq<Move>, n: nat, id: Identity)
    requires IsSystemRun(states, moves) && n < |moves| && moves[n].Host? && id != 0
    requires forall k <- moves[n].event.matchLabels :: '=' !in k
    ensures Moves(states[n], moves[n], states[n + 1])
    ensures var m, event := states[n].world.mem, moves[n].event;
            var labels := Texts(moves[n].ks, event.matchLabels);
            Sent(states[n], states[n + 1], Message(event, id, false)) ==
            if (forall l <- labels :: l in m.labelToIds) && id in m.idToLabel && m.idToLabel[id] in labels
               && id in StoredList(states[n].world.db, m.idToLabel[id])
            then 1 else 0
  {
    RoutedExactlyOnce(states, moves, n, id);
    if id in states[n].world.mem.idToLabel {
      LeftExactlyWhenUnlisted(states, moves, n, id);
    }
  }

  /** An identity that never disconnected has not left any label. */
  lemma NeverDisconnected(states: seq<System>, moves: seq<Move>, n: nat, l: string, id: Identity)
    requires n <= |moves| < |states|
    requires forall k {:trigger moves[k]} :: 0 <= k < n ==>
               !(moves[k].Shared? && moves[k].a.Leave? && moves[k].a.id == id)
    ensures id !in Left(states, moves, n, l)
  {
    LeftMeaning(states, moves, n, l, id);
  }
}

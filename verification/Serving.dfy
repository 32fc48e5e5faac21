/** Which agent an identity is served by, over every run of the operator and the servers. */
module Serving {
  import opened Text
  import opened Decimal
  import opened Etcd
  import opened Keys
  import opened EventWrites
  import opened Server
  import opened Cluster

  ghost predicate Served(db: Db, identity: string) { Key(IdentityToPodIp, identity) in db }

  /** The two ways an entry can go: its own lease, or a disconnect whose decimal leads its key. */
  ghost predicate Ends(db: Db, a: Action, identity: string)
    requires Served(db, identity)
  {
    match a
    case LeaseExpires(client) => db[Key(IdentityToPodIp, identity)].lease == Leased(client)
    case Leave(id, _) => Dec(id) <= identity
    case _ => false
  }

  // ---- one step ----

  lemma LeaveOnServed(db: Db, id: Identity, kvs: seq<KeyValue>, identity: string)
    ensures Served(Disconnect(db, id, kvs).db, identity) <==> Served(db, identity) && !(Dec(id) <= identity)
    ensures !(Dec(id) <= identity) ==> Same(db, Disconnect(db, id, kvs).db, Key(IdentityToPodIp, identity))
  {
    if Dec(id) <= identity {
      var db1 := Unserve(db, id);
      KeyPrefix(IdentityToPodIp, Dec(id), IdentityToPodIp, identity);
      WriteBackFrame(db1, EtcdLabel(db1, id), id, kvs, IdentityToPodIp, identity);
    } else {
      DisconnectFrame(db, id, kvs, IdentityToPodIp, identity);
    }
  }

  /** An entry survives a step unchanged exactly when the step does not end it. */
  lemma StepKeepsEntry(w: World, a: Action, w': World, identity: string)
    requires Next(w, a, w') && Served(w.db, identity)
    ensures Ends(w.db, a, identity) <==> !Served(w'.db, identity)
    ensures Served(w'.db, identity) ==> w'.db[Key(IdentityToPodIp, identity)] == w.db[Key(IdentityToPodIp, identity)]
  {
    match a
    case Operator(e) => EventPods(w.mem, w.db, e, identity);
    case Wipe => DeleteFrame(w.db, LabelToIdentities, "", IdentityToPodIp, identity);
    case Register(other, _, _) =>
      KeyPrefix(IdentityToPodIp, other, IdentityToPodIp, identity);
    case Leave(id, kvs) => LeaveOnServed(w.db, id, kvs, identity);
    case LeaseExpires(_) =>
  }

  // ---- the lease of a registration ----

  /** What an accepted registration writes: the address under the client's lease, and nothing else. */
  lemma RegistrationWrites(w: World, a: Action, w': World)
    requires Next(w, a, w') && a.Register? && Accepts(w.db, a.identity)
    ensures var k := Key(IdentityToPodIp, a.identity);
            && k in w'.db && w'.db[k] == Entry(a.podIp, Leased(a.client))
            && forall other :: other != k ==> Same(w.db, w'.db, other)
  {}

  /** After it, the expiry of that client's lease ends the entry, and the expiry of no other lease does. */
  lemma RegistrationLapses(w: World, a: Action, w1: World, client: nat, w2: World)
    requires Next(w, a, w1) && a.Register? && Accepts(w.db, a.identity) && Next(w1, LeaseExpires(client), w2)
    ensures Served(w2.db, a.identity) <==> client != a.client
  {
    RegistrationWrites(w, a, w1);
  }

  /** So the identity can register again, since the operator's label keys have no lease. */
  lemma CanRegisterAgain(w: World, a: Action, w1: World, w2: World)
    requires Next(w, a, w1) && a.Register? && Accepts(w.db, a.identity) && Next(w1, LeaseExpires(a.client), w2)
    requires forall k <- w.db :: !(Prefix(IdentityToLabel) <= k) || w.db[k].lease == NoLease
    ensures Accepts(w2.db, a.identity)
  {
    var pod := Key(IdentityToPodIp, a.identity);
    RegistrationWrites(w, a, w1);
    forall k | k in w2.db ensures !(pod <= k) {
      assert k != pod ==> Same(w.db, w1.db, k);
    }
    var k :| k in w.db && Key(IdentityToLabel, "") <= k && LastSegment(k) == a.identity;
    assert Key(IdentityToLabel, "") == Prefix(IdentityToLabel);
    var x := KeyOfNamespace(IdentityToLabel, k);
    KeyPrefix(IdentityToPodIp, a.identity, IdentityToLabel, x);
    assert Same(w.db, w1.db, k);
  }

  // ---- whole runs ----

  ghost predicate EndedBetween(worlds: seq<World>, actions: seq<Action>, i: nat, j: nat, identity: string)
    requires i <= j <= |actions| == |worlds| - 1
  {
    exists k {:trigger actions[k]} ::
      i <= k < j && Served(worlds[k].db, identity) && Ends(worlds[k].db, actions[k], identity)
  }

  lemma EndedEarlier(worlds: seq<World>, actions: seq<Action>, i: nat, j: nat, identity: string)
    requires i < j <= |actions| == |worlds| - 1 && !EndedBetween(worlds, actions, i, j, identity)
    ensures !EndedBetween(worlds, actions, i, j - 1, identity)
    ensures !(Served(worlds[j - 1].db, identity) && Ends(worlds[j - 1].db, actions[j - 1], identity))
  {}

  /** From any starting point: an entry stays as it is until its lease expires or a leading identity disconnects. */
  lemma {:induction false} ServingIsExclusive(worlds: seq<World>, actions: seq<Action>, i: nat, j: nat,
                                              identity: string)
    requires Interleaved(worlds, actions) && i <= j <= |actions|
    requires Served(worlds[i].db, identity) && !EndedBetween(worlds, actions, i, j, identity)
    ensures Served(worlds[j].db, identity)
    ensures worlds[j].db[Key(IdentityToPodIp, identity)] == worlds[i].db[Key(IdentityToPodIp, identity)]
    decreases j - i
  {
    if i < j {
      EndedEarlier(worlds, actions, i, j, identity);
      ServingIsExclusive(worlds, actions, i, j - 1, identity);
      assert NextAt(worlds, actions, j - 1);
      StepKeepsEntry(worlds[j - 1], actions[j - 1], worlds[j], identity);
    }
  }

  lemma RegisteredIsServed(w: World, a: Action, w': World)
    requires Next(w, a, w') && a.Register? && Accepts(w.db, a.identity)
    ensures Served(w'.db, a.identity)
  {}

  lemma ServedIsRefused(db: Db, identity: string)
    requires Served(db, identity)
    ensures !Accepts(db, identity)
  {
    assert Key(IdentityToPodIp, identity) <= Key(IdentityToPodIp, identity);
  }

  /** The action at `i` is a registration of the identity, and it is accepted. */
  ghost predicate RegisteredAt(worlds: seq<World>, actions: seq<Action>, i: nat, identity: string)
    requires i < |actions| < |worlds|
  {
    actions[i].Register? && actions[i].identity == identity && Accepts(worlds[i].db, identity)
  }

  lemma RegistrationServes(worlds: seq<World>, actions: seq<Action>, i: nat, identity: string)
    requires Interleaved(worlds, actions) && 0 < i <= |actions| && RegisteredAt(worlds, actions, i - 1, identity)
    ensures Served(worlds[i].db, identity)
  {
    assert NextAt(worlds, actions, i - 1);
    RegisteredIsServed(worlds[i - 1], actions[i - 1], worlds[i]);
  }

  /** Hence no second registration of the identity is accepted in between. */
  lemma NoSecondRegistration(worlds: seq<World>, actions: seq<Action>, i: nat, j: nat, identity: string)
    requires Interleaved(worlds, actions) && 0 < i <= j <= |actions| && RegisteredAt(worlds, actions, i - 1, identity)
    requires !EndedBetween(worlds, actions, i, j, identity)
    ensures !Accepts(worlds[j].db, identity)
  {
    RegistrationServes(worlds, actions, i, identity);
    StaysRefused(worlds, actions, i, j, identity);
  }

  lemma StaysRefused(worlds: seq<World>, actions: seq<Action>, i: nat, j: nat, identity: string)
    requires Interleaved(worlds, actions) && i <= j <= |actions| && Served(worlds[i].db, identity)
    requires !EndedBetween(worlds, actions, i, j, identity)
    ensures !Accepts(worlds[j].db, identity)
  {
    ServingIsExclusive(worlds, actions, i, j, identity);
    ServedIsRefused(worlds[j].db, identity);
  }
}

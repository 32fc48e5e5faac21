/**
 The keys of identities and names while servers and leases come and go: when they equal the operator's
 maps, and what registration and the command line then answer.
 */
module ClusterMirror {
  import opened Decimal
  import opened Etcd
  import opened Keys
  import opened Registry
  import opened RegistryMaps
  import opened EventWrites
  import opened StoreMirror
  import opened Server
  import opened Cluster
  import opened Cli

  // ---- actions of the others ----

  ghost predicate Untouched(db: Db, db': Db, ns: Namespace) {
    forall x :: Same(db, db', Key(ns, x))
  }

  lemma UntouchedMirrors(m: Memory, db: Db, db': Db, ns: Namespace)
    requires Untouched(db, db', ns)
    ensures Mirrors(m, db, ns) <==> Mirrors(m, db', ns)
  {
    forall x ensures MirrorsAt(m, db, ns, x) <==> MirrorsAt(m, db', ns, x) {
      assert Same(db, db', Key(ns, x));
    }
  }

  /** Only the operator touches the keys that it tracks; they carry no lease. */
  lemma OthersLeaveAlone(w: World, a: Action, w': World, ns: Namespace)
    requires Next(w, a, w') && !a.Operator? && Tracking(ns) && Mirrors(w.mem, w.db, ns)
    ensures w'.mem == w.mem && Untouched(w.db, w'.db, ns)
  {
    forall x ensures Same(w.db, w'.db, Key(ns, x)) {
      match a
      case Wipe => DeleteFrame(w.db, LabelToIdentities, "", ns, x);
      case Register(identity, _, _) => KeyPrefix(IdentityToPodIp, identity, ns, x);
      case Leave(id, kvs) => DisconnectFrame(w.db, id, kvs, ns, x);
      case LeaseExpires(_) => assert MirrorsAt(w.mem, w.db, ns, x);
    }
  }

  // ---- every interleaving ----

  ghost predicate CleanAction(w: World, a: Action, ns: Namespace) {
    match a
    case Operator(e) => CleanIn(w.mem, e, ns)
    case _ => true
  }

  ghost predicate MirrorsAfter(worlds: seq<World>, n: nat, ns: Namespace)
    requires n < |worlds|
  {
    Mirrors(worlds[n].mem, worlds[n].db, ns)
  }

  lemma StepMirrorsExactlyWhen(w: World, a: Action, w': World, ns: Namespace)
    requires Next(w, a, w') && Tracking(ns) && Mirrors(w.mem, w.db, ns)
    ensures Mirrors(w'.mem, w'.db, ns) <==> CleanAction(w, a, ns)
  {
    if a.Operator? {
      EventMirrorsExactlyWhen(w.mem, w.db, a.e, ns);
    } else {
      OthersLeaveAlone(w, a, w', ns);
      UntouchedMirrors(w.mem, w.db, w'.db, ns);
    }
  }

  lemma MirrorsNextExactlyWhen(worlds: seq<World>, actions: seq<Action>, n: nat, ns: Namespace)
    requires Interleaved(worlds, actions) && n < |actions| && Tracking(ns) && MirrorsAfter(worlds, n, ns)
    ensures MirrorsAfter(worlds, n + 1, ns) <==> CleanAction(worlds[n], actions[n], ns)
  {
    assert NextAt(worlds, actions, n);
    StepMirrorsExactlyWhen(worlds[n], actions[n], worlds[n + 1], ns);
  }

  lemma {:induction false} MirrorsUpTo(worlds: seq<World>, actions: seq<Action>, n: nat, ns: Namespace)
    requires Interleaved(worlds, actions) && worlds[0] == EMPTY_WORLD && n < |worlds| && Tracking(ns)
    requires forall k :: 0 <= k < n ==> CleanAction(worlds[k], actions[k], ns)
    ensures MirrorsAfter(worlds, n, ns)
    decreases n
  {
    if n == 0 {
      EmptyMirrors(ns);
    } else {
      MirrorsUpTo(worlds, actions, n - 1, ns);
      MirrorsNextExactlyWhen(worlds, actions, n - 1, ns);
    }
  }

  /**
   In any interleaving with servers and leases, each of the two identity namespaces and the name namespace
   equals its map throughout exactly when no DELETED event leads another live key of it.
   */
  lemma ClusterMirrorsExactlyWhen(worlds: seq<World>, actions: seq<Action>, ns: Namespace)
    requires Interleaved(worlds, actions) && worlds[0] == EMPTY_WORLD && Tracking(ns)
    ensures (forall n :: 0 <= n < |worlds| ==> MirrorsAfter(worlds, n, ns)) <==>
            (forall k :: 0 <= k < |actions| ==> CleanAction(worlds[k], actions[k], ns))
  {
    if forall k :: 0 <= k < |actions| ==> CleanAction(worlds[k], actions[k], ns) {
      forall n | 0 <= n < |worlds| ensures MirrorsAfter(worlds, n, ns) {
        MirrorsUpTo(worlds, actions, n, ns);
      }
    }
    if forall n :: 0 <= n < |worlds| ==> MirrorsAfter(worlds, n, ns) {
      forall k | 0 <= k < |actions| ensures CleanAction(worlds[k], actions[k], ns) {
        assert MirrorsAfter(worlds, k, ns) && MirrorsAfter(worlds, k + 1, ns);
        MirrorsNextExactlyWhen(worlds, actions, k, ns);
      }
    }
  }

  // ---- well-formed events and prefix-free identities or names ----

  ghost predicate WellFormedAction(w: World, a: Action) {
    match a
    case Operator(e) => WellFormed(w.mem, e)
    case _ => true
  }

  lemma StepKeepsConsistency(w: World, a: Action, w': World)
    requires Next(w, a, w') && WellFormedAction(w, a) && Consistent(w.mem)
    ensures Consistent(w'.mem)
  {
    if a.Operator? {
      StepKeepsConsistent(w.mem, a.e, w'.mem);
    }
  }

  lemma {:induction false} ConsistentInCluster(worlds: seq<World>, actions: seq<Action>, n: nat)
    requires Interleaved(worlds, actions) && worlds[0] == EMPTY_WORLD && n < |worlds|
    requires forall k :: 0 <= k < |actions| ==> WellFormedAction(worlds[k], actions[k])
    ensures Consistent(worlds[n].mem)
    decreases n
  {
    if n > 0 {
      ConsistentInCluster(worlds, actions, n - 1);
      assert NextAt(worlds, actions, n - 1);
      StepKeepsConsistency(worlds[n - 1], actions[n - 1], worlds[n]);
    }
  }

  ghost predicate IdsPrefixFree(m: Memory) {
    forall i <- m.idToName, j <- m.idToName :: i != j ==> !(Dec(i) <= Dec(j))
  }

  ghost predicate NamesPrefixFree(m: Memory) {
    forall a <- m.nameToId, b <- m.nameToId :: a != b ==> !(a <= b)
  }

  /** When the label keys equal their map, exactly the live identities that no served key extends are accepted. */
  lemma MirroredAcceptance(m: Memory, db: Db, identity: string)
    requires Mirrors(m, db, IdentityToLabel)
    ensures Accepts(db, identity) <==>
            && (forall k <- db :: !(Key(IdentityToPodIp, identity) <= k))
            && (exists i: Identity :: i in m.idToLabel && identity == Dec(i))
  {
    forall x ensures Key(IdentityToLabel, x) in db <==> SpellsIdentity(x) && IdentityIn(x) in m.idToLabel {
      assert MirrorsAt(m, db, IdentityToLabel, x);
    }
    forall k | k in db && Prefix(IdentityToLabel) <= k ensures exists i: Identity :: k == IdKey(IdentityToLabel, i) {
      var x := KeyOfNamespace(IdentityToLabel, k);
      assert k == IdKey(IdentityToLabel, IdentityIn(x));
    }
    AcceptedDecodesBack(db, identity);
    forall i: Identity ensures IdKey(IdentityToLabel, i) in db <==> i in m.idToLabel { IdentitiesSpelled(i); }
    forall i: Identity ensures ToUint16(Atoi(Dec(i))) == i { AtoiRoundTrip(i); }
  }

  lemma CleanIds(w: World, a: Action)
    requires Consistent(w.mem) && IdsPrefixFree(w.mem)
    ensures CleanAction(w, a, IdentityToEWName) && CleanAction(w, a, IdentityToLabel)
  {
    if a.Operator? {
      PrefixFreeIdsLeadNone(w.mem, a.e);
    }
  }

  /** With prefix-free identities, at any point a live identity is accepted unless a served key extends it. */
  lemma LiveIdentitiesAccepted(worlds: seq<World>, actions: seq<Action>, n: nat, identity: string)
    requires Interleaved(worlds, actions) && worlds[0] == EMPTY_WORLD && n < |worlds|
    requires forall k :: 0 <= k < |actions| ==> WellFormedAction(worlds[k], actions[k])
    requires forall k :: 0 <= k < |worlds| ==> IdsPrefixFree(worlds[k].mem)
    ensures Accepts(worlds[n].db, identity) <==>
            && (forall k <- worlds[n].db :: !(Key(IdentityToPodIp, identity) <= k))
            && (exists i: Identity :: i in worlds[n].mem.idToLabel && identity == Dec(i))
  {
    forall k | 0 <= k < n ensures CleanAction(worlds[k], actions[k], IdentityToLabel) {
      ConsistentInCluster(worlds, actions, k);
      CleanIds(worlds[k], actions[k]);
    }
    MirrorsUpTo(worlds, actions, n, IdentityToLabel);
    MirroredAcceptance(worlds[n].mem, worlds[n].db, identity);
  }

  /** With prefix-free names, at any point the command line finds exactly the live workloads. */
  lemma LiveNamesFound(worlds: seq<World>, actions: seq<Action>, n: nat, name: string)
    requires Interleaved(worlds, actions) && worlds[0] == EMPTY_WORLD && n < |worlds|
    requires forall k :: 0 <= k < |actions| ==> WellFormedAction(worlds[k], actions[k])
    requires forall k :: 0 <= k < |worlds| ==> NamesPrefixFree(worlds[k].mem)
    ensures var m := worlds[n].mem;
            HandleCliRequest(worlds[n].db, name) ==
            if name in m.nameToId then Found(name, Dec(m.nameToId[name])) else NotPresent
  {
    forall k | 0 <= k < n ensures CleanAction(worlds[k], actions[k], EWNameToIdentity) {
      ConsistentInCluster(worlds, actions, k);
      CleanNames(worlds[k], actions[k]);
    }
    MirrorsUpTo(worlds, actions, n, EWNameToIdentity);
    CliFindsLiveWorkloads(worlds[n].mem, worlds[n].db, name);
  }

  lemma CleanNames(w: World, a: Action)
    requires Consistent(w.mem) && NamesPrefixFree(w.mem)
    ensures CleanAction(w, a, EWNameToIdentity)
  {
    if a.Operator? {
      PrefixFreeNamesLeadNone(w.mem, a.e);
    }
  }
}

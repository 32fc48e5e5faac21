/**
 The operator, the servers and the store they share, one handler at a time: operator events,
 the wipe at shutdown, registrations, disconnects and lease expiries in any order.
 */
module Cluster {
  import opened Decimal
  import opened Json
  import opened Etcd
  import opened Keys
  import opened Registry
  import opened EventWrites
  import opened Server

  datatype World = World(mem: Memory, db: Db)

  const EMPTY_WORLD := World(EMPTY, map[])

  datatype Action =
    | Operator(e: Event)
    | Wipe
    | Register(identity: string, podIp: string, client: nat)
    | Leave(id: Identity, kvs: seq<KeyValue>)
    | LeaseExpires(client: nat)

  ghost predicate Next(w: World, a: Action, w': World) {
    match a
    case Operator(e) => Step(w.mem, e, w'.mem) && w'.db == ApplyDb(w.mem, w.db, e)
    case Wipe => w'.mem == w.mem && w'.db == DeletePrefix(w.db, Key(LabelToIdentities, ""))
    case Register(identity, podIp, client) =>
      w'.mem == w.mem && w'.db == if Accepts(w.db, identity) then RegisterDb(w.db, identity, podIp, client) else w.db
    case Leave(id, kvs) => w'.mem == w.mem && Scanned(w.db, id, kvs) && w'.db == Disconnect(w.db, id, kvs).db
    case LeaseExpires(client) => w'.mem == w.mem && w'.db == Expire(w.db, client)
  }

  ghost predicate NextAt(worlds: seq<World>, actions: seq<Action>, k: nat)
    requires k < |actions| < |worlds|
  {
    Next(worlds[k], actions[k], worlds[k + 1])
  }

  /** Any interleaving, from any starting point. */
  ghost predicate Interleaved(worlds: seq<World>, actions: seq<Action>) {
    && |worlds| == |actions| + 1
    && forall k :: 0 <= k < |actions| ==> NextAt(worlds, actions, k)
  }

  // ---- what a disconnect leaves alone ----

  /** The write-back of a disconnect touches no key but one in the label namespace. */
  lemma {:induction false} WriteBackFrame(db: Db, l: string, id: Identity, kvs: seq<KeyValue>, ns: Namespace, x: string)
    requires ns != LabelToIdentities || x != l
    ensures Same(db, WriteBack(db, Key(LabelToIdentities, l), id, kvs).db, Key(ns, x))
    decreases |kvs|
  {
    if kvs != [] && EditList(kvs[0].value, id).status == Done {
      var v := Marshal(EditList(kvs[0].value, id).slice);
      PutFrame(db, LabelToIdentities, l, v, ns, x);
      WriteBackFrame(Put(db, Key(LabelToIdentities, l), v), l, id, kvs[1..], ns, x);
    }
  }

  lemma DisconnectFrame(db: Db, id: Identity, kvs: seq<KeyValue>, ns: Namespace, x: string)
    requires ns != IdentityToPodIp || !(Dec(id) <= x)
    requires ns != LabelToIdentities || x != EtcdLabel(Unserve(db, id), id)
    ensures Same(db, Disconnect(db, id, kvs).db, Key(ns, x))
  {
    DeleteFrame(db, IdentityToPodIp, Dec(id), ns, x);
    if kvs != [] {
      WriteBackFrame(Unserve(db, id), EtcdLabel(Unserve(db, id), id), id, kvs, ns, x);
    }
  }

  // ---- the identity-to-label keys over every run ----

  ghost predicate LabelKeyLive(m: Memory, db: Db, x: string) {
    Key(IdentityToLabel, x) in db ==>
      exists i: Identity :: x == Dec(i) && i in m.idToLabel && db[Key(IdentityToLabel, x)].value == m.idToLabel[i]
  }

  /** Every identity-to-label key is that of a live identity, with the label it has in memory. */
  ghost predicate LabelKeysLive(m: Memory, db: Db) { forall x :: LabelKeyLive(m, db, x) }

  lemma KeptLabelKey(m: Memory, db: Db, m': Memory, db': Db, x: string)
    requires LabelKeyLive(m, db, x) && Same(db, db', Key(IdentityToLabel, x))
    requires forall i: Identity :: x == Dec(i) && i in m.idToLabel ==>
               i in m'.idToLabel && m'.idToLabel[i] == m.idToLabel[i]
    ensures LabelKeyLive(m', db', x)
  {}

  lemma OperatorKeepsLabelKey(m: Memory, db: Db, e: Event, x: string)
    requires LabelKeyLive(m, db, x) && Apply(m, e).Ok?
    ensures LabelKeyLive(Apply(m, e).mem, ApplyDb(m, db, e), x)
  {
    var m', db', id := Apply(m, e).mem, ApplyDb(m, db, e), EventId(m, e);
    EventMaps(m, e);
    EventKey(m, db, e, IdentityToLabel, x);
    if Relabels(m, e) && x == Dec(id) {
      assert m'.idToLabel[id] == e.lbl;
    } else if Key(IdentityToLabel, x) in db' {
      KeptLabelKey(m, db, m', db', x);
    }
  }

  lemma OperatorKeepsLabelKeys(m: Memory, db: Db, e: Event)
    requires LabelKeysLive(m, db) && Apply(m, e).Ok?
    ensures LabelKeysLive(Apply(m, e).mem, ApplyDb(m, db, e))
  {
    forall x ensures LabelKeyLive(Apply(m, e).mem, ApplyDb(m, db, e), x) {
      assert LabelKeyLive(m, db, x);
      OperatorKeepsLabelKey(m, db, e, x);
    }
  }

  /** No identity-to-label key is new or changed by the other actions. */
  lemma OthersKeepLabelKeys(w: World, a: Action, w': World, x: string)
    requires Next(w, a, w') && !a.Operator? && Key(IdentityToLabel, x) in w'.db
    ensures Key(IdentityToLabel, x) in w.db && w'.db[Key(IdentityToLabel, x)] == w.db[Key(IdentityToLabel, x)]
  {
    match a
    case Wipe =>
    case Register(identity, _, _) => KeyPrefix(IdentityToPodIp, identity, IdentityToLabel, x);
    case Leave(id, kvs) => DisconnectFrame(w.db, id, kvs, IdentityToLabel, x);
    case LeaseExpires(_) =>
  }

  lemma StepKeepsLabelKeys(w: World, a: Action, w': World)
    requires Next(w, a, w') && LabelKeysLive(w.mem, w.db)
    ensures LabelKeysLive(w'.mem, w'.db)
  {
    if a.Operator? {
      OperatorKeepsLabelKeys(w.mem, w.db, a.e);
    } else {
      forall x | Key(IdentityToLabel, x) in w'.db
        ensures Key(IdentityToLabel, x) in w.db && w'.db[Key(IdentityToLabel, x)] == w.db[Key(IdentityToLabel, x)]
      {
        OthersKeepLabelKeys(w, a, w', x);
      }
      forall x ensures LabelKeyLive(w'.mem, w'.db, x) {
        assert LabelKeyLive(w.mem, w.db, x);
      }
    }
  }

  lemma {:induction false} LabelKeysAlwaysLive(worlds: seq<World>, actions: seq<Action>, n: nat)
    requires Interleaved(worlds, actions) && n < |worlds| && worlds[0] == EMPTY_WORLD
    ensures LabelKeysLive(worlds[n].mem, worlds[n].db)
    decreases n
  {
    if n > 0 {
      LabelKeysAlwaysLive(worlds, actions, n - 1);
      assert NextAt(worlds, actions, n - 1);
      StepKeepsLabelKeys(worlds[n - 1], actions[n - 1], worlds[n]);
    }
  }

  /**
   Acceptance at any point of any run: exactly the formatted identities that have a label key and
   that no served key extends. They parse back, and all of them are live.
   */
  lemma AcceptedInRuns(worlds: seq<World>, actions: seq<Action>, n: nat, identity: string)
    requires Interleaved(worlds, actions) && n < |worlds| && worlds[0] == EMPTY_WORLD
    ensures var db := worlds[n].db;
            Accepts(db, identity) <==>
            && (forall k <- db :: !(Key(IdentityToPodIp, identity) <= k))
            && exists i: Identity ::
                 IdKey(IdentityToLabel, i) in db && identity == Dec(i) && ToUint16(Atoi(identity)) == i
    ensures Accepts(worlds[n].db, identity) ==>
            '/' !in identity && exists i: Identity :: i in worlds[n].mem.idToLabel && identity == Dec(i)
  {
    var m, db := worlds[n].mem, worlds[n].db;
    LabelKeysAlwaysLive(worlds, actions, n);
    forall k | k in db && Prefix(IdentityToLabel) <= k ensures exists i: Identity :: k == IdKey(IdentityToLabel, i) {
      var x := KeyOfNamespace(IdentityToLabel, k);
      assert LabelKeyLive(m, db, x);
      var i: Identity :| x == Dec(i) && i in m.idToLabel && db[Key(IdentityToLabel, x)].value == m.idToLabel[i];
      assert k == IdKey(IdentityToLabel, i);
    }
    AcceptedDecodesBack(db, identity);
    if Accepts(db, identity) {
      var i: Identity :| IdKey(IdentityToLabel, i) in db && identity == Dec(i) && ToUint16(Atoi(identity)) == i;
      assert LabelKeyLive(m, db, identity) && Key(IdentityToLabel, identity) in db;
    }
  }
}

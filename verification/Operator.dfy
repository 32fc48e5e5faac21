/**
 The operator daemon: the fields of `KVMSOperator` and the handlers that update them
 in place. Each handler is proved to do what `Registry` says.
 */
module Operator {
  import opened Decimal
  import opened Json
  import opened Etcd
  import opened Keys
  import opened SwapRemove
  import opened Registry
  import opened Common

  /** A Go slice header: a window on a backing array. */
  datatype Header = Header(buf: array<Identity>, len: nat)

  datatype Handling = Handled | Drawing | Panicked

  method Find(h: Header, id: Identity) returns (index: int, found: bool)
    requires h.len <= h.buf.Length
    ensures found <==> id in h.buf[..h.len]
    ensures found ==> 0 <= index < h.len && h.buf[index] == id && id !in h.buf[..index]
    ensures !found ==> index == -1
  {
    for i := 0 to h.len
      invariant id !in h.buf[..i]
    {
      if h.buf[i] == id {
        assert h.buf[..h.len][i] == id;
        return i, true;
      }
    }
    return -1, false;
  }

  /** `append(s, id)`: in place when there is room, else on a larger copy. */
  method Append(h: Header, id: Identity) returns (r: Header)
    requires h.len <= h.buf.Length
    modifies h.buf
    ensures r.len == h.len + 1 <= r.buf.Length
    ensures r.buf[..r.len] == old(h.buf[..h.len]) + [id]
    ensures if h.len < h.buf.Length then r.buf == h.buf && h.buf[r.len..] == old(h.buf[h.len + 1..])
            else fresh(r.buf) && h.buf[..] == old(h.buf[..])
  {
    if h.len < h.buf.Length {
      h.buf[h.len] := id;
      r := Header(h.buf, h.len + 1);
    } else {
      var bigger := new Identity[2 * h.len + 1](i => 0);
      for i := 0 to h.len
        invariant bigger[..i] == h.buf[..i]
        invariant h.buf[..] == old(h.buf[..])
      {
        bigger[i] := h.buf[i];
      }
      bigger[h.len] := id;
      r := Header(bigger, h.len + 1);
    }
  }

  /** Every draw so far, modulo 65536, hit an identity in use. */
  ghost predicate AllTaken(m: Memory, draws: seq<nat>) {
    forall n :: 0 <= n < |draws| ==> draws[n] % 65536 in m.idToName && m.idToName[draws[n] % 65536] != ""
  }

  /** `id` is the first of the draws, modulo 65536, that is not in use. */
  ghost predicate FirstFree(m: Memory, draws: seq<nat>, id: Identity) {
    exists n :: 0 <= n < |draws| && id == draws[n] % 65536
                && (id in m.idToName ==> m.idToName[id] == "") && AllTaken(m, draws[..n])
  }

  /** How the draw-until-free loop ends: with the first free draw, or not yet. */
  ghost predicate DrawEnds(m: Memory, draws: seq<nat>, exited: bool, id: Identity) {
    match exited
    case true => FirstFree(m, draws, id)
    case false => AllTaken(m, draws)
  }

  lemma DrawEndsExactlyWhen(m: Memory, draws: seq<nat>, exited: bool, id: Identity)
    requires DrawEnds(m, draws, exited, id)
    ensures exited <==> !AllTaken(m, draws)
    ensures exited ==> Free(m, id)
  {}

  /** What the watch receives, with the random numbers that the allocator would draw. */
  datatype Received = Received(kind: string, status: string, p: Policy, draws: seq<nat>)

  /** The entry has a type that is handled and no failed status. */
  predicate Acted(r: Received) {
    (r.status == "" || r.status == "OK") && (r.kind == "ADDED" || r.kind == "MODIFIED" || r.kind == "DELETED")
  }

  /** The abstract event of an entry. */
  ghost predicate FromEntry(m: Memory, e: Event, r: Received) {
    && e.p == r.p
    && (r.kind == "ADDED" <==> e.Added?)
    && (r.kind == "MODIFIED" <==> e.Modified?)
    && (r.kind == "DELETED" <==> e.Deleted?)
    && (e.Added? && e.p !in m.policies ==> FirstFree(m, r.draws, e.draw))
  }

  /** The event is a step of the operator, and the store follows. */
  ghost predicate Performs(m: Memory, db: Db, e: Event, m': Memory, db': Db) {
    match Apply(m, e)
    case Ok(next) => Enabled(m, e) && m' == next && db' == ApplyDb(m, db, e)
    case Crash => false
  }

  /** How the ADDED case ends. `Drawing` means every draw so far was taken. */
  ghost predicate AddedEnds(m: Memory, db: Db, draws: seq<nat>, outcome: Handling, e: Event, m': Memory, db': Db)
    requires e.Added?
  {
    match outcome
    case Handled => Performs(m, db, e, m', db') && (e.p !in m.policies ==> DrawEnds(m, draws, true, e.draw))
    case Drawing => e.p !in m.policies && AllTaken(m, draws) && m' == m.(policies := m.policies + [e.p]) && db' == db
    case Panicked => false
  }

  lemma UntouchedStep(m: Memory, db: Db, e: Event)
    requires Enabled(m, e)
    requires match e
             case Added(p, _, _) => p in m.policies
             case Modified(p, _) => FirstNamed(m.policies, p.name) == |m.policies|
             case Deleted(p, _) => FirstEqual(m.policies, p) == |m.policies|
    ensures Performs(m, db, e, m, db)
  {}

  lemma AddedStep(m: Memory, db: Db, e: Event, draws: seq<nat>, m2: Memory, db2: Db, m': Memory, db': Db)
    requires e.Added? && e.p !in m.policies && LabelChoice(e.p.labels, e.lbl) && DrawEnds(m, draws, true, e.draw)
    requires m2 == Allocate(m.(policies := m.policies + [e.p]), e.p.name, e.draw)
    requires db2 == AllocateDb(db, e.p.name, e.draw)
    requires m' == Relabel(m2, e.draw, e.lbl) && db' == RelabelDb(m2, db2, e.draw, e.lbl)
    ensures Performs(m, db, e, m', db')
  {
    DrawEndsExactlyWhen(m, draws, true, e.draw);
    AddedUnfolds(m, db, e, m2);
  }

  lemma ModifiedStep(m: Memory, db: Db, e: Event, i: nat, m': Memory, db': Db)
    requires e.Modified? && i == FirstNamed(m.policies, e.p.name) < |m.policies| && Enabled(m, e)
    requires var m1, id := m.(policies := m.policies[i := e.p]), IdentityOf(m, e.p.name);
             m' == Relabel(m1, id, e.lbl) && db' == RelabelDb(m1, db, id, e.lbl)
    ensures Performs(m, db, e, m', db')
  {
    ModifiedUnfolds(m, db, e, i, m.(policies := m.policies[i := e.p]));
  }

  /** A run of the operator with its store, and for each event the index of the entry that it comes from. */
  datatype Run = Run(mems: seq<Memory>, events: seq<Event>, dbs: seq<Db>, at: seq<nat>)

  /** The run handles the first `done` entries: each one that is acted on, once and in order. */
  ghost predicate IsDaemonRun(run: Run, stream: seq<Received>, done: nat) {
    && StoreRun(run.mems, run.events, run.dbs)
    && |run.at| == |run.events| && done <= |stream|
    && (forall k :: 0 <= k < |run.at| ==> run.at[k] < done && Acted(stream[run.at[k]]))
    && (forall k :: 0 <= k < |run.at| ==> FromEntry(run.mems[k], run.events[k], stream[run.at[k]]))
    && (forall j, k :: 0 <= j < k < |run.at| ==> run.at[j] < run.at[k])
    && (forall i :: 0 <= i < done && Acted(stream[i]) ==> i in run.at)
  }

  ghost predicate EndsIn(run: Run, m: Memory, db: Db) {
    && |run.mems| == |run.dbs| == |run.events| + 1
    && m == run.mems[|run.events|] && db == run.dbs[|run.events|]
  }

  lemma StoreRunLonger(mems: seq<Memory>, events: seq<Event>, dbs: seq<Db>, e: Event, m': Memory, db': Db)
    requires StoreRun(mems, events, dbs) && Performs(mems[|events|], dbs[|events|], e, m', db')
    ensures StoreRun(mems + [m'], events + [e], dbs + [db'])
  {
    var ms, es, ds := mems + [m'], events + [e], dbs + [db'];
    assert StepAt(ms, es, |events|) && StoredAt(ms, es, ds, |events|);
    StoreRunGrows(mems, events, dbs, ms, es, ds);
  }

  lemma EntriesLonger(mems: seq<Memory>, events: seq<Event>, at: seq<nat>, stream: seq<Received>, e: Event, i: nat,
                      m': Memory)
    requires |mems| - 1 == |events| == |at| && i < |stream| && FromEntry(mems[|events|], e, stream[i])
    requires forall k :: 0 <= k < |at| ==> at[k] < |stream| && FromEntry(mems[k], events[k], stream[at[k]])
    ensures var ms, es, more := mems + [m'], events + [e], at + [i];
            forall k :: 0 <= k < |more| ==> more[k] < |stream| && FromEntry(ms[k], es[k], stream[more[k]])
  {
    var ms, es, more := mems + [m'], events + [e], at + [i];
    forall k | 0 <= k < |more| ensures more[k] < |stream| && FromEntry(ms[k], es[k], stream[more[k]]) {
      if k < |at| {
        assert ms[k] == mems[k] && es[k] == events[k] && more[k] == at[k];
      }
    }
  }

  /** The run with one more step. */
  lemma Lengthened(run: Run, stream: seq<Received>, i: nat, m: Memory, db: Db, e: Event, m': Memory, db': Db)
    returns (longer: Run)
    requires IsDaemonRun(run, stream, i) && EndsIn(run, m, db) && i < |stream| && Acted(stream[i])
    requires FromEntry(m, e, stream[i]) && Performs(m, db, e, m', db')
    ensures IsDaemonRun(longer, stream, i + 1) && EndsIn(longer, m', db')
  {
    longer := Run(run.mems + [m'], run.events + [e], run.dbs + [db'], run.at + [i]);
    StoreRunLonger(run.mems, run.events, run.dbs, e, m', db');
    EntriesLonger(run.mems, run.events, run.at, stream, e, i, m');
    assert longer.at[|run.at|] == i;
  }

  /** Where the loop stands: at the end of the run, or at an entry that it cannot finish. */
  ghost predicate Progress(run: Run, stream: seq<Received>, done: nat, outcome: Handling, m: Memory, db: Db) {
    match outcome
    case Handled => EndsIn(run, m, db)
    case _ => done < |stream| && StuckAt(run, stream[done], outcome, m, db)
  }

  ghost predicate Halts(run: Run, stream: seq<Received>, done: nat, outcome: Handling, m: Memory, db: Db) {
    match outcome
    case Handled => done == |stream| && EndsIn(run, m, db)
    case _ => done < |stream| && StuckAt(run, stream[done], outcome, m, db)
  }

  /** The entry keeps the daemon drawing, or panics it. */
  ghost predicate StuckAt(run: Run, r: Received, outcome: Handling, m: Memory, db: Db) {
    && |run.mems| == |run.dbs| == |run.events| + 1 && r.status in {"", "OK"}
    && var last, stored := run.mems[|run.events|], run.dbs[|run.events|];
       match outcome
       case Handled => false
       case Drawing =>
         && r.kind == "ADDED" && r.p !in last.policies && AllTaken(last, r.draws)
         && m == last.(policies := last.policies + [r.p]) && db == stored
       case Panicked =>
         && r.kind == "DELETED"
         && (exists lbl :: LabelChoice(r.p.labels, lbl) && Apply(last, Deleted(r.p, lbl)) == Crash)
         && db == ForgetDb(stored, IdentityOf(last, r.p.name), r.p.name)
  }

  lemma OneEntry(run: Run, stream: seq<Received>, done: nat, m: Memory, db: Db, e: Event, m': Memory, db': Db)
    returns (longer: Run, next: nat)
    requires IsDaemonRun(run, stream, done) && EndsIn(run, m, db) && done < |stream|
    requires Acted(stream[done]) ==> FromEntry(m, e, stream[done]) && Performs(m, db, e, m', db')
    requires !Acted(stream[done]) ==> m' == m && db' == db
    ensures next == done + 1 && IsDaemonRun(longer, stream, next) && EndsIn(longer, m', db')
  {
    next := done + 1;
    if Acted(stream[done]) {
      longer := Lengthened(run, stream, done, m, db, e, m', db');
    } else {
      SkippedEntry(run, stream, done);
      longer := run;
    }
  }

  lemma StuckEntry(run: Run, r: Received, outcome: Handling, m: Memory, db: Db, e: Event, m': Memory, db': Db)
    requires EndsIn(run, m, db) && r.status in {"", "OK"}
    requires match outcome
             case Handled => false
             case Drawing =>
               r.kind == "ADDED" && r.p !in m.policies && AllTaken(m, r.draws)
               && m' == m.(policies := m.policies + [r.p]) && db' == db
             case Panicked =>
               r.kind == "DELETED" && e.Deleted? && e.p == r.p && Enabled(m, e) && Apply(m, e) == Crash
               && db' == ForgetDb(db, IdentityOf(m, r.p.name), r.p.name)
    ensures StuckAt(run, r, outcome, m', db')
  {}

  lemma RunMeaning(run: Run, stream: seq<Received>, done: nat)
    requires IsDaemonRun(run, stream, done)
    ensures StoreRun(run.mems, run.events, run.dbs) && |run.at| == |run.events| && done <= |stream|
    ensures forall k :: 0 <= k < |run.at| ==>
              run.at[k] < done && FromEntry(run.mems[k], run.events[k], stream[run.at[k]])
    ensures forall k :: 0 <= k < |run.at| ==>
              var r, e := stream[run.at[k]], run.events[k];
              e.p == r.p && (r.kind == "ADDED" <==> e.Added?) && (r.kind == "MODIFIED" <==> e.Modified?)
    ensures forall j, k :: 0 <= j < k < |run.at| ==> run.at[j] < run.at[k]
    ensures forall i :: 0 <= i < done ==>
              (i in run.at <==> stream[i].status in {"", "OK"} && stream[i].kind in {"ADDED", "MODIFIED", "DELETED"})
  {
    forall k | 0 <= k < |run.at|
      ensures var r, e := stream[run.at[k]], run.events[k];
              e.p == r.p && (r.kind == "ADDED" <==> e.Added?) && (r.kind == "MODIFIED" <==> e.Modified?)
    {
      assert FromEntry(run.mems[k], run.events[k], stream[run.at[k]]);
    }
    forall i | 0 <= i < done
      ensures i in run.at <==> stream[i].status in {"", "OK"} && stream[i].kind in {"ADDED", "MODIFIED", "DELETED"}
    {
      if i in run.at {
        var k :| 0 <= k < |run.at| && run.at[k] == i;
        assert Acted(stream[run.at[k]]);
      }
    }
  }

  lemma SkippedEntry(run: Run, stream: seq<Received>, i: nat)
    requires IsDaemonRun(run, stream, i) && i < |stream| && !Acted(stream[i])
    ensures IsDaemonRun(run, stream, i + 1)
  {}

  /**
   If no draw is 0 modulo 65536, whatever the daemon does with events as the API server sends them is a
   well-formed run: every theorem about such runs holds of it.
   */
  lemma DaemonRunsAreWellFormed(run: Run, stream: seq<Received>, done: nat)
    requires IsDaemonRun(run, stream, done)
    requires forall i, n :: 0 <= i < |stream| && 0 <= n < |stream[i].draws| ==> stream[i].draws[n] % 65536 != 0
    requires forall k :: 0 <= k < |run.events| ==> FromApi(run.mems[k], run.events[k])
    ensures WellFormedRun(run.mems, run.events)
  {
    forall k | 0 <= k < |run.events| ensures WellFormed(run.mems[k], run.events[k]) {
      assert FromEntry(run.mems[k], run.events[k], stream[run.at[k]]) && FromApi(run.mems[k], run.events[k]);
    }
  }

  lemma SameFree(m: Memory, m': Memory, draws: seq<nat>)
    requires m.idToName == m'.idToName
    ensures AllTaken(m, draws) <==> AllTaken(m', draws)
    ensures forall exited, id: Identity :: DrawEnds(m, draws, exited, id) <==> DrawEnds(m', draws, exited, id)
  {
    forall ds: seq<nat> ensures AllTaken(m, ds) <==> AllTaken(m', ds) {}
  }

  class KVMSOperator {
    var policies: seq<Policy>
    var idToName: map<Identity, string>
    var nameToId: map<string, Identity>
    var idToLabel: map<Identity, string>
    var labelToIds: map<string, Header>
    const etcd: EtcdClient

    /** What the windows of `labelToIds` show. */
    ghost var lists: map<string, seq<Identity>>

    /** The backing arrays that `labelToIds` may use. */
    ghost var repr: set<array<Identity>>

    /** No two labels share a backing array. */
    ghost predicate Valid()
      reads this`labelToIds, this`lists, this`repr, repr
    {
      && lists.Keys == labelToIds.Keys
      && (forall l <- labelToIds :: labelToIds[l].buf in repr)
      && (forall l <- labelToIds ::
            labelToIds[l].len <= labelToIds[l].buf.Length && labelToIds[l].buf[..labelToIds[l].len] == lists[l])
      && (forall k <- labelToIds, l <- labelToIds :: k != l ==> labelToIds[k].buf != labelToIds[l].buf)
    }

    ghost function Mem(): Memory
      reads this
    {
      Memory(policies, idToName, nameToId, idToLabel, lists)
    }

    /** The list of a label, empty if it has none. */
    ghost function Ids(lbl: string): seq<Identity>
      reads this`lists
    {
      if lbl in lists then lists[lbl] else []
    }

    constructor (etcd: EtcdClient)
      ensures Valid() && Mem() == EMPTY && this.etcd == etcd
      ensures fresh(repr)
    {
      this.etcd := etcd;
      policies, idToName, nameToId, idToLabel, labelToIds, lists := [], map[], map[], map[], map[], map[];
      repr := {};
    }

    /** The last pair of an iteration in no particular order. */
    method ConvertLabelsToStr(labels: Labels) returns (lbl: string)
      ensures LabelChoice(labels, lbl)
      ensures lbl == "" <==> labels.Pairs() == map[]
    {
      lbl := "";
      var todo := labels.Pairs().Keys;
      while todo != {}
        invariant todo <= labels.Pairs().Keys
        invariant todo != labels.Pairs().Keys ==> LabelChoice(labels, lbl)
        invariant lbl == "" <==> todo == labels.Pairs().Keys
        decreases |todo|
      {
        var k :| k in todo;
        lbl := LabelText(k, labels.Pairs()[k]);
        todo := todo - {k};
      }
      if labels.Pairs().Keys == {} {
        assert labels.Pairs() == map[];
      }
    }

    /** `MapLabelToIdentities[label] = append(MapLabelToIdentities[label], id)` unless it is there. */
    method AddToList(id: Identity, lbl: string) returns (added: bool)
      requires Valid()
      modifies this`repr, this`labelToIds, this`lists, repr
      ensures Valid() && fresh(repr - old(repr))
      ensures added <==> id !in old(Ids(lbl))
      ensures lists == if added then old(lists)[lbl := old(Ids(lbl)) + [id]] else old(lists)
    {
      if lbl in labelToIds {
        var _, found := Find(labelToIds[lbl], id);
        added := !found;
        if added {
          Lengthen(id, lbl);
        }
      } else {
        NewList(id, lbl);
        assert old(Ids(lbl)) + [id] == [id];
        added := true;
      }
    }

    method Lengthen(id: Identity, lbl: string)
      requires Valid() && lbl in labelToIds
      modifies this`repr, this`labelToIds, this`lists, labelToIds[lbl].buf
      ensures Valid() && fresh(repr - old(repr))
      ensures lists == old(lists)[lbl := old(lists)[lbl] + [id]]
    {
      var longer := Append(labelToIds[lbl], id);
      lists := lists[lbl := lists[lbl] + [id]];
      labelToIds := labelToIds[lbl := longer];
      repr := repr + {longer.buf};
    }

    method NewList(id: Identity, lbl: string)
      requires Valid() && lbl !in labelToIds
      modifies this`repr, this`labelToIds, this`lists
      ensures Valid() && fresh(repr - old(repr))
      ensures lists == old(lists)[lbl := [id]]
    {
      var one := new Identity[1](_ => id);
      lists := lists[lbl := [id]];
      labelToIds := labelToIds[lbl := Header(one, 1)];
      repr := repr + {one};
      assert one[..1] == [id];
    }

    /** The loop of `UnMapLabelIdentity`, on the array that the map shares. */
    method RemoveFromList(id: Identity, lbl: string) returns (inRange: bool)
      requires Valid()
      modifies this`lists, repr
      ensures inRange <==> Remove(ListOf(old(Mem()), lbl), id).Finished?
      ensures repr == old(repr) && (inRange ==> Valid())
      ensures inRange ==> lists == if lbl !in labelToIds then old(lists)
                                   else old(lists)[lbl := Remove(ListOf(old(Mem()), lbl), id).buf]
    {
      inRange := true;
      if lbl in labelToIds {
        var h := labelToIds[lbl];
        var window;
        window, inRange := RemoveInPlace(h.buf, h.len, id);
        lists := lists[lbl := h.buf[..h.len]];
      }
    }

    /** Marshals `MapLabelToIdentities[label]` and puts it under the label's key. */
    method PutList(lbl: string)
      requires Valid()
      modifies etcd
      ensures Valid() && Mem() == old(Mem()) && repr == old(repr)
      ensures etcd.db == Put(old(etcd.db), Key(LabelToIdentities, lbl), Marshal(SliceOf(Mem(), lbl)))
      ensures lbl !in labelToIds ==> etcd.db[Key(LabelToIdentities, lbl)].value == "null"
    {
      var slice := Nil;
      if lbl in labelToIds {
        slice := Of(labelToIds[lbl].buf[..labelToIds[lbl].len]);
        assert slice == Of(lists[lbl]);
      }
      etcd.EtcdPut(Key(LabelToIdentities, lbl), Marshal(slice));
    }

    /** `UpdateIdentityLabelsMap`. */
    method UpdateIdentityLabelsMap(id: Identity, lbl: string)
      requires Valid()
      modifies this`repr, this`idToLabel, this`labelToIds, this`lists, etcd, repr
      ensures Valid() && fresh(repr - old(repr))
      ensures Mem() == Relabel(old(Mem()), id, lbl)
      ensures etcd.db == RelabelDb(old(Mem()), old(etcd.db), id, lbl)
    {
      SetLabel(id, lbl);
      EnlistAndPut(id, lbl);
    }

    method EnlistAndPut(id: Identity, lbl: string)
      requires Valid()
      modifies this`repr, this`labelToIds, this`lists, etcd, repr
      ensures Valid() && fresh(repr - old(repr))
      ensures var ids := ListOf(old(Mem()), lbl);
              if id in ids then lists == old(lists) && etcd.db == old(etcd.db)
              else lists == old(lists)[lbl := ids + [id]]
                   && etcd.db == Put(old(etcd.db), Key(LabelToIdentities, lbl), Marshal(Of(ids + [id])))
    {
      assert Ids(lbl) == ListOf(Mem(), lbl);
      var added := AddToList(id, lbl);
      if added {
        PutList(lbl);
      }
    }

    method SetLabel(id: Identity, lbl: string)
      requires Valid()
      modifies this`idToLabel, etcd
      ensures Valid() && Mem() == old(Mem()).(idToLabel := old(idToLabel)[id := lbl])
      ensures etcd.db == Put(old(etcd.db), IdKey(IdentityToLabel, id), lbl)
    {
      idToLabel := idToLabel[id := lbl];
      etcd.EtcdPut(IdKey(IdentityToLabel, id), lbl);
    }

    method DeleteKeys(id: Identity, name: string)
      requires Valid()
      modifies etcd
      ensures Valid() && Mem() == old(Mem()) && etcd.db == ForgetDb(old(etcd.db), id, name)
    {
      etcd.EtcdDelete(IdKey(IdentityToEWName, id));
      etcd.EtcdDelete(Key(EWNameToIdentity, name));
      etcd.EtcdDelete(IdKey(IdentityToLabel, id));
    }

    /** The three maps and their keys. */
    method Forget(id: Identity, name: string)
      requires Valid()
      modifies this`idToName, this`nameToId, this`idToLabel, etcd
      ensures idToName == old(idToName) - {id} && nameToId == old(nameToId) - {name}
      ensures idToLabel == old(idToLabel) - {id}
      ensures etcd.db == ForgetDb(old(etcd.db), id, name)
      ensures Valid() && repr == old(repr)
    {
      idToName := idToName - {id};
      nameToId := nameToId - {name};
      idToLabel := idToLabel - {id};
      DeleteKeys(id, name);
    }

    /** `UnMapLabelIdentity`; after a panic only the store survives. */
    method UnMapLabelIdentity(id: Identity, name: string, lbl: string) returns (panicked: bool)
      requires Valid()
      modifies this`idToName, this`nameToId, this`idToLabel, this`lists, etcd, repr
      ensures repr == old(repr)
      ensures panicked <==> Unmap(old(Mem()), id, name, lbl) == Crash
      ensures panicked ==> etcd.db == ForgetDb(old(etcd.db), id, name)
      ensures !panicked ==> Valid() && Ok(Mem()) == Unmap(old(Mem()), id, name, lbl)
      ensures !panicked ==> etcd.db == UnmapDb(Mem(), old(etcd.db), id, name, lbl)
    {
      Forget(id, name);
      var inRange := RemoveFromList(id, lbl);
      panicked := !inRange;
      if inRange {
        PutList(lbl);
      }
    }

    method PutKeys(id: Identity, name: string)
      requires Valid()
      modifies etcd
      ensures Valid() && Mem() == old(Mem()) && etcd.db == AllocateDb(old(etcd.db), name, id)
    {
      etcd.EtcdPut(IdKey(IdentityToEWName, id), name);
      etcd.EtcdPut(Key(EWNameToIdentity, name), Dec(id));
    }

    /** `GenerateExternalWorkloadIdentity` on the first `|draws|` random numbers. */
    method GenerateExternalWorkloadIdentity(name: string, draws: seq<nat>) returns (exited: bool, id: Identity)
      requires Valid()
      modifies this`idToName, this`nameToId, etcd
      ensures Valid()
      ensures DrawEnds(old(Mem()), draws, exited, id)
      ensures exited ==> exists n :: 0 <= n < |draws| && id == draws[n] % 65536
      ensures exited ==> Mem() == Allocate(old(Mem()), name, id)
      ensures exited ==> etcd.db == AllocateDb(old(etcd.db), name, id)
      ensures !exited ==> Mem() == old(Mem()) && etcd.db == old(etcd.db)
    {
      id := 0;
      for n := 0 to |draws|
        invariant idToName == old(idToName) && nameToId == old(nameToId) && etcd.db == old(etcd.db)
        invariant AllTaken(old(Mem()), draws[..n])
      {
        id := ToUint16(draws[n]);
        if id !in idToName || idToName[id] == "" {
          assert FirstFree(old(Mem()), draws, id);
          idToName := idToName[id := name];
          nameToId := nameToId[name := id];
          PutKeys(id, name);
          return true, id;
        }
      }
      assert draws[..|draws|] == draws;
      exited := false;
    }

    /** The policy joins the list and gets an identity, if one of the draws is free. */
    method Admit(p: Policy, draws: seq<nat>) returns (exited: bool, id: Identity)
      requires Valid()
      modifies this`policies, this`idToName, this`nameToId, etcd
      ensures Valid() && repr == old(repr)
      ensures DrawEnds(old(Mem()), draws, exited, id)
      ensures var m1 := old(Mem()).(policies := old(policies) + [p]);
              if exited then Mem() == Allocate(m1, p.name, id) && etcd.db == AllocateDb(old(etcd.db), p.name, id)
              else Mem() == m1 && etcd.db == old(etcd.db)
    {
      ghost var m0 := Mem();
      policies := policies + [p];
      SameFree(m0, Mem(), draws);
      exited, id := GenerateExternalWorkloadIdentity(p.name, draws);
    }

    /** A policy that is not tracked yet: an identity is drawn for it and labelled. */
    method Enroll(p: Policy, lbl: string, draws: seq<nat>) returns (exited: bool, id: Identity)
      requires Valid() && p !in policies && LabelChoice(p.labels, lbl)
      modifies this, etcd, repr
      ensures Valid() && fresh(repr - old(repr))
      ensures DrawEnds(old(Mem()), draws, exited, id)
      ensures exited ==> Performs(old(Mem()), old(etcd.db), Added(p, lbl, id), Mem(), etcd.db)
      ensures !exited ==> Mem() == old(Mem()).(policies := old(policies) + [p]) && etcd.db == old(etcd.db)
    {
      ghost var m0, db0 := Mem(), etcd.db;
      exited, id := Admit(p, draws);
      ghost var m2, db2 := Mem(), etcd.db;
      if exited {
        UpdateIdentityLabelsMap(id, lbl);
        AddedStep(m0, db0, Added(p, lbl, id), draws, m2, db2, Mem(), etcd.db);
      }
    }

    /** What the ADDED case looks at before it changes anything. */
    method Screen(p: Policy) returns (lbl: string, tracked: bool)
      requires Valid()
      ensures Valid() && Mem() == old(Mem()) && repr == old(repr) && etcd.db == old(etcd.db)
      ensures LabelChoice(p.labels, lbl) && (tracked <==> p in policies)
    {
      lbl := ConvertLabelsToStr(p.labels);
      tracked := ContainsElement(policies, p);
    }

    /** What the MODIFIED case looks for. */
    method Locate(p: Policy) returns (lbl: string, idx: nat)
      requires Valid()
      ensures Valid() && Mem() == old(Mem()) && repr == old(repr) && etcd.db == old(etcd.db)
      ensures LabelChoice(p.labels, lbl) && idx == FirstNamed(policies, p.name)
    {
      lbl := ConvertLabelsToStr(p.labels);
      idx := FindNamed(p.name);
    }

    /** The ADDED case. */
    method OnAdded(p: Policy, draws: seq<nat>) returns (outcome: Handling, ghost e: Event)
      requires Valid()
      modifies this, etcd, repr
      ensures Valid() && fresh(repr - old(repr)) && e.Added? && e.p == p
      ensures AddedEnds(old(Mem()), old(etcd.db), draws, outcome, e, Mem(), etcd.db)
    {
      ghost var m0, db0 := Mem(), etcd.db;
      var lbl, tracked := Screen(p);
      e := Added(p, lbl, 0);
      outcome := Handled;
      if tracked {
        UntouchedStep(m0, db0, e);
      } else {
        var exited, id := Enroll(p, lbl, draws);
        e := Added(p, lbl, id);
        outcome := if exited then Handled else Drawing;
      }
    }

    /** The search loop of the MODIFIED case. */
    method FindNamed(name: string) returns (idx: nat)
      ensures idx == FirstNamed(policies, name)
    {
      idx := 0;
      while idx < |policies| && policies[idx].name != name
        invariant idx <= |policies|
        invariant forall j :: 0 <= j < idx ==> policies[j].name != name
      {
        idx := idx + 1;
      }
    }

    /** The search loop of the DELETED case. */
    method FindPolicy(p: Policy) returns (idx: nat)
      ensures idx == FirstEqual(policies, p)
    {
      idx := 0;
      while idx < |policies| && policies[idx] != p
        invariant idx <= |policies|
        invariant forall j :: 0 <= j < idx ==> policies[j] != p
      {
        idx := idx + 1;
      }
    }

    /** A tracked policy is replaced, and its identity relabelled. */
    method Reenlist(idx: nat, p: Policy, lbl: string)
      requires Valid() && idx < |policies|
      modifies this, etcd, repr
      ensures Valid() && fresh(repr - old(repr))
      ensures var m1 := old(Mem()).(policies := old(policies)[idx := p]);
              && Mem() == Relabel(m1, IdentityOf(old(Mem()), p.name), lbl)
              && etcd.db == RelabelDb(m1, old(etcd.db), IdentityOf(old(Mem()), p.name), lbl)
    {
      policies := policies[idx := p];
      var id := if p.name in nameToId then nameToId[p.name] else 0;
      UpdateIdentityLabelsMap(id, lbl);
    }

    /** The MODIFIED case. */
    method OnModified(p: Policy) returns (ghost e: Event)
      requires Valid()
      modifies this, etcd, repr
      ensures Valid() && fresh(repr - old(repr)) && e.Modified? && e.p == p
      ensures Performs(old(Mem()), old(etcd.db), e, Mem(), etcd.db)
    {
      ghost var m0, db0 := Mem(), etcd.db;
      var lbl, idx := Locate(p);
      e := Modified(p, lbl);
      if idx < |policies| {
        Reenlist(idx, p, lbl);
        ModifiedStep(m0, db0, e, idx, Mem(), etcd.db);
      } else {
        UntouchedStep(m0, db0, e);
      }
    }

    /** The DELETED case. */
    method OnDeleted(p: Policy) returns (outcome: Handling, ghost e: Event)
      requires Valid()
      modifies this, etcd, repr
      ensures repr == old(repr) && outcome != Drawing && e.Deleted? && e.p == p && Enabled(old(Mem()), e)
      ensures outcome == Panicked <==> Apply(old(Mem()), e) == Crash
      ensures outcome == Panicked ==> etcd.db == ForgetDb(old(etcd.db), IdentityOf(old(Mem()), p.name), p.name)
      ensures outcome == Handled ==> Valid() && Performs(old(Mem()), old(etcd.db), e, Mem(), etcd.db)
    {
      ghost var m0, db0 := Mem(), etcd.db;
      var lbl := ConvertLabelsToStr(p.labels);
      e := Deleted(p, lbl);
      var idx := FindPolicy(p);
      outcome := Handled;
      if idx < |policies| {
        policies := policies[..idx] + policies[idx + 1..];
        ghost var m1 := Mem();
        var id := if p.name in nameToId then nameToId[p.name] else 0;
        DeletedUnfoldsMaps(m0, e, idx, m1);
        var panicked := UnMapLabelIdentity(id, p.name, lbl);
        if panicked {
          return Panicked, e;
        }
        DeletedUnfolds(m0, db0, e, idx, m1);
      }
    }

    /** One pass of the watch loop: entries of another type or with a failed status are skipped. */
    method HandleEvent(r: Received) returns (outcome: Handling, ghost e: Event)
      requires Valid()
      modifies this, etcd, repr
      ensures outcome != Panicked ==> Valid()
      ensures fresh(repr - old(repr))
      ensures r.status !in {"", "OK"} || r.kind !in {"ADDED", "MODIFIED", "DELETED"} ==>
                outcome == Handled && Mem() == old(Mem()) && etcd.db == old(etcd.db)
      ensures r.status in {"", "OK"} && r.kind in {"ADDED", "MODIFIED", "DELETED"} ==>
                && e.p == r.p
                && (r.kind == "ADDED" <==> e.Added?) && (r.kind == "MODIFIED" <==> e.Modified?)
                && (outcome == Handled ==> FromEntry(old(Mem()), e, r))
                && (outcome == Handled ==> Performs(old(Mem()), old(etcd.db), e, Mem(), etcd.db))
                && (outcome == Panicked <==> Apply(old(Mem()), e) == Crash)
      ensures outcome == Drawing <==>
              r.status in {"", "OK"} && r.kind == "ADDED" && r.p !in old(policies) && AllTaken(old(Mem()), r.draws)
      ensures outcome == Drawing ==> Mem() == old(Mem()).(policies := old(policies) + [r.p]) && etcd.db == old(etcd.db)
      ensures outcome == Panicked ==> r.kind == "DELETED" && Enabled(old(Mem()), e)
      ensures outcome == Panicked ==> etcd.db == ForgetDb(old(etcd.db), IdentityOf(old(Mem()), r.p.name), r.p.name)
    {
      e := Modified(r.p, "");
      outcome := Handled;
      if r.status != "" && r.status != "OK" {
        return;
      }
      if r.kind == "ADDED" {
        ghost var m := Mem();
        outcome, e := OnAdded(r.p, r.draws);
        if r.p !in m.policies && outcome == Handled { DrawEndsExactlyWhen(m, r.draws, true, e.draw); }
      } else if r.kind == "MODIFIED" {
        e := OnModified(r.p);
      } else if r.kind == "DELETED" {
        outcome, e := OnDeleted(r.p);
      }
    }

    /**
     The watch loop on a finite stream, from the initial state. The daemon performs a run with one event for each
     of the first `done` entries that has a handled type and no failed status, in their order, and no other event.
     It gets to the end of the stream unless it keeps drawing or panics on the entry `done`.
     */
    method Watch(stream: seq<Received>) returns (outcome: Handling, ghost run: Run, ghost done: nat)
      requires Valid() && Mem() == EMPTY && etcd.db == map[]
      modifies this, etcd, repr
      ensures StoreRun(run.mems, run.events, run.dbs) && |run.at| == |run.events| && done <= |stream|
      ensures forall k :: 0 <= k < |run.at| ==>
                run.at[k] < done && FromEntry(run.mems[k], run.events[k], stream[run.at[k]])
      ensures forall k :: 0 <= k < |run.at| ==>
                var r, e := stream[run.at[k]], run.events[k];
                e.p == r.p && (r.kind == "ADDED" <==> e.Added?) && (r.kind == "MODIFIED" <==> e.Modified?)
      ensures forall j, k :: 0 <= j < k < |run.at| ==> run.at[j] < run.at[k]
      ensures forall i :: 0 <= i < done ==>
                (i in run.at <==> stream[i].status in {"", "OK"} && stream[i].kind in {"ADDED", "MODIFIED", "DELETED"})
      ensures outcome == Handled ==> done == |stream| && Valid() && EndsIn(run, Mem(), etcd.db)
      ensures outcome != Handled ==> done < |stream| && StuckAt(run, stream[done], outcome, Mem(), etcd.db)
    {
      outcome, run, done := WatchEntries(stream);
      RunMeaning(run, stream, done);
    }

    /** The loop itself. */
    method WatchEntries(stream: seq<Received>) returns (outcome: Handling, ghost run: Run, ghost done: nat)
      requires Valid() && Mem() == EMPTY && etcd.db == map[]
      modifies this, etcd, repr
      ensures IsDaemonRun(run, stream, done) && (outcome == Handled ==> Valid())
      ensures Halts(run, stream, done, outcome, Mem(), etcd.db)
    {
      var next := 0;
      outcome, run, done := Handled, Run([EMPTY], [], [map[]], []), 0;
      while next < |stream| && outcome == Handled
        invariant done <= next <= |stream| && (outcome == Handled ==> next == done)
        invariant outcome == Handled ==> Valid() && fresh(repr - old(repr))
        invariant IsDaemonRun(run, stream, done)
        invariant Progress(run, stream, done, outcome, Mem(), etcd.db)
        decreases |stream| - next
      {
        outcome, run, done := HandleEntry(stream, next, run);
        next := next + 1;
      }
    }

    /** One entry, and what it adds to the run so far. */
    method HandleEntry(stream: seq<Received>, i: nat, ghost run: Run)
      returns (outcome: Handling, ghost longer: Run, ghost done: nat)
      requires Valid() && i < |stream| && IsDaemonRun(run, stream, i) && EndsIn(run, Mem(), etcd.db)
      modifies this, etcd, repr
      ensures outcome == Handled ==> Valid() && fresh(repr - old(repr)) && done == i + 1
      ensures done <= i + 1 && IsDaemonRun(longer, stream, done)
      ensures Progress(longer, stream, done, outcome, Mem(), etcd.db)
    {
      ghost var m, db, e := Mem(), etcd.db, Modified(stream[i].p, "");
      longer, done := run, i;
      outcome, e := HandleEvent(stream[i]);
      if outcome == Handled {
        longer, done := OneEntry(run, stream, i, m, db, e, Mem(), etcd.db);
      } else {
        StuckEntry(run, stream[i], outcome, m, db, e, Mem(), etcd.db);
      }
    }

    /** `DestroyKVMSOperator` wipes the label namespace and nothing else. */
    method DestroyKVMSOperator()
      modifies etcd
      ensures etcd.db == DeletePrefix(old(etcd.db), Key(LabelToIdentities, ""))
      ensures View(etcd.db, LabelToIdentities) == map[]
      ensures forall ns :: ns != LabelToIdentities ==> View(etcd.db, ns) == View(old(etcd.db), ns)
    {
      etcd.EtcdDelete(Key(LabelToIdentities, ""));
      assert Key(LabelToIdentities, "") == Prefix(LabelToIdentities);
      forall ns | ns != LabelToIdentities ensures View(etcd.db, ns) == View(old(etcd.db), ns) {
        NamespaceIsolation(old(etcd.db), LabelToIdentities, "", "", 0, ns);
      }
    }
  }
}

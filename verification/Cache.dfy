/** The service's copy of etcd's label lists, and how a refresh brings it up to date. */
module Cache {
  import opened Text
  import opened Decimal
  import opened Json
  import opened Etcd
  import opened Keys
  import opened Registry
  import opened Common
  import opened Messages
  import opened FanOut

  function StoredLabels(db: Db): set<string> {
    set k | k in db && Prefix(LabelToIdentities) <= k :: k[|Prefix(LabelToIdentities)|..]
  }

  lemma StoredLabelsAt(db: Db, l: string)
    ensures l in StoredLabels(db) <==> Key(LabelToIdentities, l) in db
  {
    if l in StoredLabels(db) {
      var k :| k in db && Prefix(LabelToIdentities) <= k && l == k[|Prefix(LabelToIdentities)|..];
      assert k == Key(LabelToIdentities, l);
    }
    if Key(LabelToIdentities, l) in db {
      var k := Key(LabelToIdentities, l);
      assert Prefix(LabelToIdentities) <= k && l == k[|Prefix(LabelToIdentities)|..];
    }
  }

  /** The identities stored under a label; none when the value does not decode. */
  function StoredList(db: Db, l: string): seq<Identity> {
    var k := Key(LabelToIdentities, l);
    if k in db && Unmarshal(db[k].value).Decoded? then Unmarshal(db[k].value).slice.Elems() else []
  }

  ghost predicate SlashFree(db: Db) {
    forall l <- StoredLabels(db) :: '/' !in l
  }

  /** Some stored key extends the key of `l`, so a scan for it is not empty. */
  ghost predicate Scannable(db: Db, l: string) {
    exists k <- db :: Key(LabelToIdentities, l) <= k
  }

  /** All values that a scan for `l` returns decode. */
  ghost predicate Readable(db: Db, l: string) {
    forall k <- db :: Key(LabelToIdentities, l) <= k ==> Unmarshal(db[k].value).Decoded?
  }

  /** A scan for `l` finds something, and all of it decodes. */
  ghost predicate Loadable(db: Db, l: string) { Scannable(db, l) && Readable(db, l) }

  /** One of `labels` is cut to `s`. */
  ghost predicate IsCut(labels: set<string>, s: string) {
    exists x <- labels :: LastSegment(x) == s
  }

  /** `ids` is the stored list of one of `labels`, one that is cut to `s`. */
  ghost predicate CutTo(db: Db, labels: set<string>, s: string, ids: seq<Identity>) {
    exists x <- labels :: LastSegment(x) == s && ids == StoredList(db, x)
  }

  ghost predicate EntryOverwritten(cache: Lists, db: Db, labels: set<string>, cache': Lists, s: string) {
    if IsCut(labels, s) then s in cache' && CutTo(db, labels, s, cache'[s])
    else (s in cache' <==> s in cache) && (s in cache ==> cache'[s] == cache[s])
  }

  /**
   The stored lists of `labels` written over the cache, each under its last segment. Where several
   labels share one, any of their lists may stay; no other entry changes.
   */
  ghost predicate Overwritten(cache: Lists, db: Db, labels: set<string>, cache': Lists) {
    forall s :: EntryOverwritten(cache, db, labels, cache', s)
  }

  lemma OverwrittenNone(cache: Lists, db: Db)
    ensures Overwritten(cache, db, {}, cache)
  {}

  lemma CutToMore(db: Db, labels: set<string>, more: set<string>, s: string, ids: seq<Identity>)
    requires labels <= more && CutTo(db, labels, s, ids)
    ensures CutTo(db, more, s, ids)
  {
    var x :| x in labels && LastSegment(x) == s && ids == StoredList(db, x);
    assert x in more;
  }

  lemma IsCutByEither(a: set<string>, b: set<string>, s: string)
    ensures IsCut(a + b, s) <==> IsCut(a, s) || IsCut(b, s)
  {
    if x :| x in a && LastSegment(x) == s { assert x in a + b; }
    if x :| x in b && LastSegment(x) == s { assert x in a + b; }
  }

  lemma EntryOverwrittenTwice(cache: Lists, db: Db, a: set<string>, mid: Lists, b: set<string>, cache': Lists,
                              s: string)
    requires EntryOverwritten(cache, db, a, mid, s) && EntryOverwritten(mid, db, b, cache', s)
    ensures EntryOverwritten(cache, db, a + b, cache', s)
  {
    IsCutByEither(a, b, s);
    if IsCut(b, s) {
      CutToMore(db, b, a + b, s, cache'[s]);
    } else if IsCut(a, s) {
      CutToMore(db, a, a + b, s, cache'[s]);
    }
  }

  lemma OverwrittenTwice(cache: Lists, db: Db, a: set<string>, mid: Lists, b: set<string>, cache': Lists)
    requires Overwritten(cache, db, a, mid) && Overwritten(mid, db, b, cache')
    ensures Overwritten(cache, db, a + b, cache')
  {
    forall s ensures EntryOverwritten(cache, db, a + b, cache', s) {
      EntryOverwrittenTwice(cache, db, a, mid, b, cache', s);
    }
  }

  lemma OverwrittenOne(cache: Lists, db: Db, x: string)
    ensures Overwritten(cache, db, {x}, cache[LastSegment(x) := StoredList(db, x)])
  {
    var cache' := cache[LastSegment(x) := StoredList(db, x)];
    forall s ensures EntryOverwritten(cache, db, {x}, cache', s) {
      assert x in {x};
      assert IsCut({x}, s) <==> s == LastSegment(x);
    }
  }

  lemma OneMoreOverwritten(cache: Lists, db: Db, done: set<string>, now: Lists, x: string)
    requires Overwritten(cache, db, done, now)
    ensures Overwritten(cache, db, done + {x}, now[LastSegment(x) := StoredList(db, x)])
  {
    OverwrittenOne(now, db, x);
    OverwrittenTwice(cache, db, done, now, {x}, now[LastSegment(x) := StoredList(db, x)]);
  }

  /** The cache after a refresh from a store of slash-free labels. */
  function Refreshed(cache: Lists, db: Db): Lists {
    cache + map l | l in StoredLabels(db) :: StoredList(db, l)
  }

  /** Slash-free labels leave no choice. */
  lemma SlashFreeOverwrites(cache: Lists, db: Db, cache': Lists)
    requires SlashFree(db) && Overwritten(cache, db, StoredLabels(db), cache')
    ensures cache' == Refreshed(cache, db)
  {
    forall s
      ensures s in cache' <==> s in Refreshed(cache, db)
      ensures s in cache' ==> cache'[s] == Refreshed(cache, db)[s]
    {
      SlashFreeEntry(cache, db, cache', s);
    }
  }

  /** And this is a possible refresh. */
  lemma RefreshedIsOverwritten(cache: Lists, db: Db)
    requires SlashFree(db)
    ensures Overwritten(cache, db, StoredLabels(db), Refreshed(cache, db))
  {
    var labels := StoredLabels(db);
    forall s ensures EntryOverwritten(cache, db, labels, Refreshed(cache, db), s) {
      if s in labels {
        SplitWithout(s, '/');
        assert IsCut(labels, s);
      } else if IsCut(labels, s) {
        var x :| x in labels && LastSegment(x) == s;
        SplitWithout(x, '/');
      }
    }
  }

  lemma SlashFreeEntry(cache: Lists, db: Db, cache': Lists, s: string)
    requires SlashFree(db) && EntryOverwritten(cache, db, StoredLabels(db), cache', s)
    ensures if s in StoredLabels(db) then s in cache' && cache'[s] == StoredList(db, s)
            else (s in cache' <==> s in cache) && (s in cache ==> cache'[s] == cache[s])
  {
    var labels := StoredLabels(db);
    forall l | l in labels ensures LastSegment(l) == l { SplitWithout(l, '/'); }
    if s in labels {
      assert IsCut(labels, s);
      var x :| x in labels && LastSegment(x) == s && cache'[s] == StoredList(db, x);
    }
  }

  lemma SegmentOfLabelKey(l: string)
    ensures '/' !in l ==> LastSegment(Key(LabelToIdentities, l)) == l
    ensures '/' in l ==> LastSegment(Key(LabelToIdentities, l)) != l
  {
    var p := Prefix(LabelToIdentities);
    var head := p[..|p| - 1];
    assert p == head + "/";
    assert Key(LabelToIdentities, l) == head + "/" + l;
    LastSegmentRoundTrip(head, l);
  }

  /** The stored labels that a scan for `l` returns. */
  function Extending(db: Db, l: string): set<string> {
    set x | x in StoredLabels(db) && l <= x
  }

  predicate Leads(labels: seq<string>, x: string) { exists i :: 0 <= i < |labels| && labels[i] <= x }

  /** The stored labels that scans for all of `labels` return. */
  function Covered(db: Db, labels: seq<string>): set<string> {
    set x | x in StoredLabels(db) && Leads(labels, x)
  }

  lemma CoveredMore(db: Db, labels: seq<string>, n: nat)
    requires n < |labels|
    ensures Covered(db, labels[..n + 1]) == Covered(db, labels[..n]) + Extending(db, labels[n])
  {
    var fewer, more := labels[..n], labels[..n + 1];
    forall x ensures Leads(more, x) <==> Leads(fewer, x) || labels[n] <= x {
      if i :| 0 <= i < |fewer| && fewer[i] <= x { assert more[i] <= x; }
      if i :| 0 <= i < |more| && more[i] <= x { assert i < n ==> fewer[i] <= x; }
      assert more[n] == labels[n];
    }
  }

  lemma OverwrittenMore(cache: Lists, db: Db, labels: seq<string>, n: nat, mid: Lists, cache': Lists)
    requires n < |labels| && Overwritten(cache, db, Covered(db, labels[..n]), mid)
    requires Overwritten(mid, db, Extending(db, labels[n]), cache')
    ensures Overwritten(cache, db, Covered(db, labels[..n + 1]), cache')
  {
    OverwrittenTwice(cache, db, Covered(db, labels[..n]), mid, Extending(db, labels[n]), cache');
    CoveredMore(db, labels, n);
  }

  lemma AllCovered(db: Db, labels: seq<string>)
    requires forall l <- StoredLabels(db) :: l in labels
    ensures Covered(db, labels) == StoredLabels(db)
  {
    forall x | x in StoredLabels(db) ensures Leads(labels, x) {
      var i :| 0 <= i < |labels| && labels[i] == x;
      assert labels[i] <= x;
    }
  }

  lemma ScannedKey(db: Db, l: string, kv: KeyValue) returns (x: string)
    requires kv.key in Scan(db, Key(LabelToIdentities, l)) && kv.value == db[kv.key].value
    ensures kv.key == Key(LabelToIdentities, x) && x in Extending(db, l)
    ensures LastSegment(kv.key) == LastSegment(x)
    ensures Unmarshal(kv.value).Decoded? ==> Unmarshal(kv.value).slice.Elems() == StoredList(db, x)
    ensures Unmarshal(kv.value).Malformed? ==> !Readable(db, l)
  {
    assert Prefix(LabelToIdentities) <= Key(LabelToIdentities, l);
    x := KeyOfNamespace(LabelToIdentities, kv.key);
    KeyPrefix(LabelToIdentities, l, LabelToIdentities, x);
    StoredLabelsAt(db, x);
    SegmentAfterPrefix(x);
  }

  lemma SegmentAfterPrefix(x: string)
    ensures LastSegment(Key(LabelToIdentities, x)) == LastSegment(x)
  {
    var p := Prefix(LabelToIdentities);
    var head := p[..|p| - 1];
    assert p == head + "/" && Key(LabelToIdentities, x) == head + "/" + x;
    LastSegmentAfterSlash(head, x);
  }

  lemma EmptyScan(db: Db, l: string, kvs: seq<KeyValue>)
    requires Enumerates(kvs, Scan(db, Key(LabelToIdentities, l)))
    ensures kvs == [] <==> !Scannable(db, l)
  {
    if k :| k in db && Key(LabelToIdentities, l) <= k {
      assert k in Scan(db, Key(LabelToIdentities, l));
      assert HasKey(kvs, k);
    }
    assert kvs != [] ==> kvs[0].key in Scan(db, Key(LabelToIdentities, l));
  }

  ghost predicate Loaded(kv: KeyValue, done: set<string>) {
    exists x <- done :: kv.key == Key(LabelToIdentities, x)
  }

  /** The first `j` scanned bindings decode and are written into the map: the lists of the labels in `done`. */
  ghost predicate LoadedUpTo(db: Db, l: string, kvs: seq<KeyValue>, j: nat, done: set<string>, cache: Lists, now: Lists)
    requires j <= |kvs|
  {
    && Overwritten(cache, db, done, now)
    && done <= Extending(db, l)
    && (forall i :: 0 <= i < j ==> Loaded(kvs[i], done) && Unmarshal(kvs[i].value).Decoded?)
  }

  /** One scanned binding written into the map. */
  lemma LoadOne(db: Db, l: string, kvs: seq<KeyValue>, j: nat, done: set<string>, cache: Lists, now: Lists)
    returns (x: string)
    requires j < |kvs| && LoadedUpTo(db, l, kvs, j, done, cache, now)
    requires kvs[j].key in Scan(db, Key(LabelToIdentities, l)) && kvs[j].value == db[kvs[j].key].value
    ensures var decoded := Unmarshal(kvs[j].value);
            if decoded.Malformed? then !Readable(db, l)
            else LoadedUpTo(db, l, kvs, j + 1, done + {x}, cache, now[LastSegment(kvs[j].key) := decoded.slice.Elems()])
  {
    x := ScannedKey(db, l, kvs[j]);
    if Unmarshal(kvs[j].value).Decoded? {
      OneMoreOverwritten(cache, db, done, now, x);
      LoadedMore(kvs, j, done, x);
    }
  }

  lemma LoadedMore(kvs: seq<KeyValue>, n: nat, done: set<string>, x: string)
    requires n < |kvs| && (forall i :: 0 <= i < n ==> Loaded(kvs[i], done)) && kvs[n].key == Key(LabelToIdentities, x)
    ensures forall i :: 0 <= i <= n ==> Loaded(kvs[i], done + {x})
  {
    assert x in done + {x};
    forall i | 0 <= i < n ensures Loaded(kvs[i], done + {x}) {
      assert Loaded(kvs[i], done);
      var y :| y in done && kvs[i].key == Key(LabelToIdentities, y);
      assert y in done + {x};
    }
  }

  lemma AllLoaded(db: Db, l: string, kvs: seq<KeyValue>, done: set<string>, cache: Lists, now: Lists)
    requires Enumerates(kvs, Scan(db, Key(LabelToIdentities, l))) && LoadedUpTo(db, l, kvs, |kvs|, done, cache, now)
    ensures Overwritten(cache, db, Extending(db, l), now) && Readable(db, l)
  {
    forall x | x in Extending(db, l) ensures x in done {
      StoredLabelsAt(db, x);
      KeyPrefix(LabelToIdentities, l, LabelToIdentities, x);
      assert HasKey(kvs, Key(LabelToIdentities, x));
      var i :| 0 <= i < |kvs| && kvs[i].key == Key(LabelToIdentities, x);
      assert Loaded(kvs[i], done);
      var y :| y in done && kvs[i].key == Key(LabelToIdentities, y);
      KeyPrefix(LabelToIdentities, x, LabelToIdentities, y);
    }
    assert done == Extending(db, l);
    AllDecoded(db, l, kvs);
  }

  lemma AllDecoded(db: Db, l: string, kvs: seq<KeyValue>)
    requires Enumerates(kvs, Scan(db, Key(LabelToIdentities, l)))
    requires forall i :: 0 <= i < |kvs| ==> Unmarshal(kvs[i].value).Decoded?
    ensures Readable(db, l)
  {
    forall k | k in db && Key(LabelToIdentities, l) <= k ensures Unmarshal(db[k].value).Decoded? {
      assert k in Scan(db, Key(LabelToIdentities, l));
      assert HasKey(kvs, k);
    }
  }

  /** What the first loop takes for the stored labels. */
  function Segments(db: Db): set<string> {
    LastSegments(Scan(db, Key(LabelToIdentities, "")).Keys)
  }

  function LastSegments(keys: set<string>): set<string> {
    set k | k in keys :: LastSegment(k)
  }

  lemma OneSegmentMore(keys: set<string>, key: string)
    ensures LastSegments(keys + {key}) == LastSegments(keys) + {LastSegment(key)}
  {
    assert LastSegment(key) in LastSegments(keys + {key});
  }

  lemma SegmentsAreLabels(db: Db)
    requires SlashFree(db)
    ensures Segments(db) == StoredLabels(db)
  {
    assert Key(LabelToIdentities, "") == Prefix(LabelToIdentities);
    forall s | s in Segments(db) ensures s in StoredLabels(db) {
      var k :| k in Scan(db, Key(LabelToIdentities, "")) && s == LastSegment(k);
      var x := ScannedKey(db, "", KeyValue(k, db[k].value));
      SplitWithout(x, '/');
    }
    forall l | l in StoredLabels(db) ensures l in Segments(db) {
      StoredLabelsAt(db, l);
      SegmentOfLabelKey(l);
      assert Key(LabelToIdentities, l) in Scan(db, Key(LabelToIdentities, ""));
    }
  }

  /** A stored label is found by a scan for itself. */
  lemma StoredIsScannable(db: Db, l: string)
    requires l in StoredLabels(db)
    ensures Scannable(db, l)
  {
    StoredLabelsAt(db, l);
    assert Key(LabelToIdentities, l) <= Key(LabelToIdentities, l);
  }

  datatype RefreshOutcome = Completed | NilCrash | FatalExit

  /** One run of `GetAllEtcdEWLabels`, on values. */
  ghost predicate Refresh(db: Db, outcome: RefreshOutcome, known: seq<string>, cache: Lists, known': seq<string>,
                          cache': Lists) {
    && (outcome == Completed <==> forall l <- known' :: Loadable(db, l))
    && (outcome == NilCrash ==> exists l <- known' :: !Scannable(db, l))
    && (outcome == FatalExit ==> exists l <- known' :: !Readable(db, l))
    && (forall l :: l in known' <==> l in known || l in Segments(db))
    && (outcome == Completed ==> Overwritten(cache, db, Covered(db, known'), cache'))
  }

  lemma KnownSegmentsCover(db: Db, known: seq<string>)
    requires SlashFree(db) && forall l <- Segments(db) :: l in known
    ensures Covered(db, known) == StoredLabels(db)
  {
    SegmentsAreLabels(db);
    AllCovered(db, known);
  }

  /** With slash-free labels a completed refresh gives every stored label etcd's list and changes no other entry. */
  lemma RefreshAgrees(db: Db, known: seq<string>, cache: Lists, known': seq<string>, cache': Lists)
    requires SlashFree(db) && Refresh(db, Completed, known, cache, known', cache')
    ensures cache' == Refreshed(cache, db)
    ensures forall l :: l in known' <==> l in known || l in StoredLabels(db)
  {
    KnownSegmentsCover(db, known');
    SegmentsAreLabels(db);
    SlashFreeOverwrites(cache, db, cache');
  }

  /** A second refresh against the same store ends normally, and changes neither the map nor the set of known labels. */
  lemma RefreshIsIdempotent(db: Db, outcome: RefreshOutcome, known: seq<string>, cache: Lists,
                            known1: seq<string>, cache1: Lists, known2: seq<string>, cache2: Lists)
    requires SlashFree(db) && Refresh(db, Completed, known, cache, known1, cache1)
    requires Refresh(db, outcome, known1, cache1, known2, cache2)
    ensures outcome == Completed && cache2 == cache1
    ensures forall l :: l in known2 <==> l in known1
  {
    RefreshAgrees(db, known, cache, known1, cache1);
    RefreshAgrees(db, known1, cache1, known2, cache2);
  }

  /** Refresh, match and fan out: how one host policy event changes the service, on values. */
  ghost predicate HostUpdate(db: Db, event: HostPolicyEvent, ks: seq<string>, outcome: RefreshOutcome,
                             known: seq<string>, cache: Lists, chan: seq<Message>,
                             known': seq<string>, cache': Lists, chan': seq<Message>) {
    && Orders(ks, event.matchLabels.Keys)
    && Refresh(db, outcome, known, cache, known', cache')
    && chan' == chan + if outcome == Completed then Routed(event, Texts(ks, event.matchLabels), known', cache') else []
  }

  class KVMS {
    const etcd: EtcdClient
    var etcdLabels: seq<string>
    var labelToIds: Lists
    /** Everything this daemon has put on the policy channel. */
    var policyChan: seq<Message>

    constructor (etcd: EtcdClient)
      ensures this.etcd == etcd && etcdLabels == [] && labelToIds == map[] && policyChan == []
    {
      this.etcd := etcd;
      etcdLabels, labelToIds, policyChan := [], map[], [];
    }

    /** The first loop: the last segment of every stored key, in no particular order. */
    method AppendStoredLabels()
      modifies this`etcdLabels
      ensures |etcdLabels| == |old(etcdLabels)| + |Scan(etcd.db, Key(LabelToIdentities, ""))|
      ensures etcdLabels[..|old(etcdLabels)|] == old(etcdLabels)
      ensures forall l :: l in etcdLabels <==> l in old(etcdLabels) || l in Segments(etcd.db)
    {
      var pairs := etcd.EtcdGet(Key(LabelToIdentities, ""));
      var todo := pairs.Keys;
      ghost var added: seq<string> := [];
      while todo != {}
        invariant todo <= pairs.Keys
        invariant |etcdLabels| + |todo| == |old(etcdLabels)| + |pairs|
        invariant etcdLabels == old(etcdLabels) + added
        invariant forall l :: l in added <==> l in LastSegments(pairs.Keys - todo)
        decreases |todo|
      {
        var key :| key in todo;
        OneSegmentMore(pairs.Keys - todo, key);
        assert pairs.Keys - (todo - {key}) == (pairs.Keys - todo) + {key};
        added := added + [LastSegment(key)];
        etcdLabels := etcdLabels + [LastSegment(key)];
        todo := todo - {key};
      }
    }

    /** One round of the second loop: everything a scan for `l` returns goes into the map. */
    method LoadLabel(l: string) returns (outcome: RefreshOutcome)
      modifies this`labelToIds
      ensures outcome == NilCrash <==> !Scannable(etcd.db, l)
      ensures outcome == FatalExit <==> Scannable(etcd.db, l) && !Readable(etcd.db, l)
      ensures outcome == Completed ==> Overwritten(old(labelToIds), etcd.db, Extending(etcd.db, l), labelToIds)
    {
      var kvs := etcd.EtcdGetRaw(Key(LabelToIdentities, l));
      ghost var db := etcd.db;
      EmptyScan(db, l, kvs);
      if |kvs| == 0 {
        return NilCrash;
      }
      ghost var done: set<string> := {};
      OverwrittenNone(labelToIds, db);
      for j := 0 to |kvs|
        invariant LoadedUpTo(db, l, kvs, j, done, old(labelToIds), labelToIds)
      {
        ghost var x := LoadOne(db, l, kvs, j, done, old(labelToIds), labelToIds);
        var decoded := Unmarshal(kvs[j].value);
        if decoded.Malformed? {
          return FatalExit;
        }
        labelToIds := labelToIds[LastSegment(kvs[j].key) := decoded.slice.Elems()];
        done := done + {x};
      }
      AllLoaded(db, l, kvs, done, old(labelToIds), labelToIds);
      outcome := Completed;
    }

    /** The second loop, over every label known by then. */
    method LoadLabels(labels: seq<string>) returns (outcome: RefreshOutcome)
      modifies this`labelToIds
      ensures outcome == Completed <==> forall l <- labels :: Loadable(etcd.db, l)
      ensures outcome == NilCrash ==> exists l <- labels :: !Scannable(etcd.db, l)
      ensures outcome == FatalExit ==> exists l <- labels :: !Readable(etcd.db, l)
      ensures outcome == Completed ==> Overwritten(old(labelToIds), etcd.db, Covered(etcd.db, labels), labelToIds)
    {
      ghost var db := etcd.db;
      OverwrittenNone(labelToIds, db);
      assert Covered(db, labels[..0]) == {};
      for n := 0 to |labels|
        invariant forall i :: 0 <= i < n ==> Loadable(db, labels[i])
        invariant Overwritten(old(labelToIds), db, Covered(db, labels[..n]), labelToIds)
      {
        ghost var before := labelToIds;
        outcome := LoadLabel(labels[n]);
        if outcome != Completed {
          assert labels[n] in labels;
          return;
        }
        OverwrittenMore(old(labelToIds), db, labels, n, before, labelToIds);
      }
      assert labels[..|labels|] == labels;
      outcome := Completed;
    }

    /** `GetAllEtcdEWLabels`. */
    method GetAllEtcdEWLabels() returns (outcome: RefreshOutcome)
      modifies this`etcdLabels, this`labelToIds
      ensures Refresh(etcd.db, outcome, old(etcdLabels), old(labelToIds), etcdLabels, labelToIds)
      ensures |etcdLabels| == |old(etcdLabels)| + |Scan(etcd.db, Key(LabelToIdentities, ""))|
    {
      AppendStoredLabels();
      outcome := LoadLabels(etcdLabels);
    }

    /** The selector's pairs as label texts, in the order the map is iterated. */
    method SelectorLabels(sel: map<string, string>) returns (labels: seq<string>, ghost ks: seq<string>)
      ensures Orders(ks, sel.Keys) && labels == Texts(ks, sel)
    {
      labels, ks := [], [];
      var todo := sel.Keys;
      while todo != {}
        invariant todo <= sel.Keys && Orders(ks, sel.Keys - todo)
        invariant labels == Texts(ks, sel)
        decreases |todo|
      {
        var k :| k in todo;
        labels := labels + [LabelText(k, sel[k])];
        ks := ks + [k];
        todo := todo - {k};
      }
    }

    /** `PassOverToKVMSAgent`. */
    method PassOverToKVMSAgent(event: HostPolicyEvent, identities: seq<Identity>)
      modifies this`policyChan
      ensures policyChan == old(policyChan) + PutAll(event, identities)
    {
      for i := 0 to |identities|
        invariant policyChan == old(policyChan) + PutAll(event, identities)[..i]
      {
        policyChan := policyChan + [Message(event, identities[i], false)];
      }
    }

    /** `UpdateHostSecurityPolicies`: refresh, match, and fan out. */
    method UpdateHostSecurityPolicies(event: HostPolicyEvent) returns (outcome: RefreshOutcome, ghost ks: seq<string>)
      modifies this
      ensures HostUpdate(etcd.db, event, ks, outcome,
                         old(etcdLabels), old(labelToIds), old(policyChan), etcdLabels, labelToIds, policyChan)
    {
      var labels;
      labels, ks := SelectorLabels(event.matchLabels);
      outcome := GetAllEtcdEWLabels();
      if outcome != Completed {
        return;
      }
      var matched := MatchIdentities(labels, etcdLabels);
      if matched {
        SendToLabels(event, labels);
      }
    }

    method SendToLabels(event: HostPolicyEvent, labels: seq<string>)
      modifies this`policyChan
      ensures policyChan == old(policyChan) + SendLists(event, labels, labelToIds)
    {
      for n := 0 to |labels|
        invariant policyChan + SendLists(event, labels[n..], labelToIds) ==
                  old(policyChan) + SendLists(event, labels, labelToIds)
      {
        var identities := if labels[n] in labelToIds then labelToIds[labels[n]] else [];
        if |identities| > 0 {
          PassOverToKVMSAgent(event, identities);
        }
        assert labels[n..][1..] == labels[n + 1..];
      }
    }
  }

  // ---- how a refresh ends ----

  /** Some stored label extends `l`. */
  ghost predicate Extended(db: Db, l: string) { exists x <- StoredLabels(db) :: l <= x }

  lemma ScannableExactlyWhen(db: Db, l: string)
    ensures Scannable(db, l) <==> Extended(db, l)
  {
    if k :| k in db && Key(LabelToIdentities, l) <= k {
      var x := ScannedKey(db, l, KeyValue(k, db[k].value));
    }
    if x :| x in StoredLabels(db) && l <= x {
      StoredLabelsAt(db, x);
      KeyPrefix(LabelToIdentities, l, LabelToIdentities, x);
    }
  }

  /** Every stored list decodes. */
  ghost predicate AllDecode(db: Db) {
    forall l <- StoredLabels(db) :: Key(LabelToIdentities, l) in db ==>
      Unmarshal(db[Key(LabelToIdentities, l)].value).Decoded?
  }

  lemma AllReadable(db: Db, l: string)
    requires AllDecode(db)
    ensures Readable(db, l)
  {
    forall k | k in db && Key(LabelToIdentities, l) <= k ensures Unmarshal(db[k].value).Decoded? {
      var x := ScannedKey(db, l, KeyValue(k, db[k].value));
      StoredLabelsAt(db, x);
    }
  }

  lemma SegmentsExactly(db: Db, s: string)
    ensures s in Segments(db) <==> exists l <- StoredLabels(db) :: LastSegment(l) == s
  {
    assert Key(LabelToIdentities, "") == Prefix(LabelToIdentities);
    if k :| k in Scan(db, Key(LabelToIdentities, "")) && s == LastSegment(k) {
      var x := ScannedKey(db, "", KeyValue(k, db[k].value));
    }
    if l :| l in StoredLabels(db) && LastSegment(l) == s {
      StoredLabelsAt(db, l);
      SegmentAfterPrefix(l);
      assert Key(LabelToIdentities, l) in Scan(db, Key(LabelToIdentities, ""));
    }
  }

  /**
   When the stored lists decode, a refresh completes exactly when every label known before leads a stored one,
   and so does the last segment that each stored label is cut to; otherwise it dereferences nil.
   */
  lemma RefreshEnds(db: Db, outcome: RefreshOutcome, known: seq<string>, cache: Lists, known': seq<string>,
                    cache': Lists)
    requires AllDecode(db) && Refresh(db, outcome, known, cache, known', cache')
    ensures outcome ==
            if (forall l <- known :: Extended(db, l)) && (forall l <- StoredLabels(db) :: Extended(db, LastSegment(l)))
            then Completed else NilCrash
  {
    forall l ensures Readable(db, l) && (Loadable(db, l) <==> Extended(db, l)) {
      AllReadable(db, l);
      ScannableExactlyWhen(db, l);
    }
    if outcome == Completed {
      forall l | l in StoredLabels(db) ensures Extended(db, LastSegment(l)) {
        SegmentsExactly(db, LastSegment(l));
        assert Loadable(db, LastSegment(l));
      }
      forall l | l in known ensures Extended(db, l) {
        assert Loadable(db, l);
      }
    } else {
      var l :| l in known' && !Loadable(db, l);
      SegmentsExactly(db, l);
    }
  }
}

/**
 The policy streams: any number of `SendPolicy` loops that all receive from the one
 unbuffered channel, a single policy producer, and one closer per disconnect.
 */
module Streams {
  import opened Decimal
  import opened Messages

  /** A put, numbered in the order of the puts. */
  datatype Item = Item(pos: nat, msg: Message)

  /** A `SendPolicy` call and what it received. */
  datatype Stream = Stream(identity: Identity, log: seq<Item>, open: bool)

  /** `pending` are the puts whose sender still waits for a receiver. */
  datatype State = State(put: seq<Message>, pending: seq<Item>, streams: seq<Stream>)

  const START := State([], [], [])

  datatype Action = Offer(msg: Message) | Open(identity: Identity) | Receive(stream: nat, slot: nat)

  /**
   All policies come from one goroutine, which offers the next one only after the last
   was received. A receiver may meet any of the waiting senders.
   */
  ghost predicate Enabled(s: State, a: Action) {
    match a
    case Offer(msg) => msg.close || forall p :: 0 <= p < |s.pending| ==> s.pending[p].msg.close
    case Open(_) => true
    case Receive(k, slot) => k < |s.streams| && s.streams[k].open && slot < |s.pending|
  }

  datatype Fate = Sent | Discarded | Closed

  /** What the receive loop does with a message. */
  function FateOf(identity: Identity, msg: Message): (fate: Fate)
    ensures fate == Sent <==> msg.identity == identity && !msg.close
    ensures fate == Discarded <==> msg.identity != identity
    ensures fate == Closed <==> msg.identity == identity && msg.close
  {
    if msg.identity != identity then Discarded else if msg.close then Closed else Sent
  }

  /** One iteration of the loop: an own close event ends the stream. */
  function Consume(st: Stream, item: Item): Stream {
    st.(log := st.log + [item], open := st.open && FateOf(st.identity, item.msg) != Closed)
  }

  function Apply(s: State, a: Action): State
    requires a.Receive? ==> a.stream < |s.streams| && a.slot < |s.pending|
  {
    match a
    case Offer(msg) => s.(put := s.put + [msg], pending := s.pending + [Item(|s.put|, msg)])
    case Open(identity) => s.(streams := s.streams + [Stream(identity, [], true)])
    case Receive(k, slot) =>
      s.(pending := s.pending[..slot] + s.pending[slot + 1..],
         streams := s.streams[k := Consume(s.streams[k], s.pending[slot])])
  }

  /** The received items with the given fate, in order. */
  function With(identity: Identity, log: seq<Item>, fate: Fate): (r: seq<Item>)
    ensures forall a :: 0 <= a < |r| ==> r[a] in log && FateOf(identity, r[a].msg) == fate
  {
    if log == [] then []
    else
      var n := |log| - 1;
      With(identity, log[..n], fate) + if FateOf(identity, log[n].msg) == fate then [log[n]] else []
  }

  // ---- conservation ----

  /** Everything received, over all streams. */
  function Receipts(streams: seq<Stream>): multiset<Item> {
    if streams == [] then multiset{}
    else var n := |streams| - 1; Receipts(streams[..n]) + multiset(streams[n].log)
  }

  /** Everything that met the given fate, over all streams. */
  function Tally(streams: seq<Stream>, fate: Fate): multiset<Item> {
    if streams == [] then multiset{}
    else
      var n := |streams| - 1;
      Tally(streams[..n], fate) + multiset(With(streams[n].identity, streams[n].log, fate))
  }

  /** Every put once. */
  function Puts(put: seq<Message>): multiset<Item> {
    if put == [] then multiset{}
    else var n := |put| - 1; Puts(put[..n]) + multiset{Item(n, put[n])}
  }

  lemma {:induction false} PutsOnce(put: seq<Message>, item: Item)
    ensures Puts(put)[item] == if item.pos < |put| && item.msg == put[item.pos] then 1 else 0
  {
    if put != [] {
      PutsOnce(put[..|put| - 1], item);
    }
  }

  lemma {:induction false} ReceiptsUpdate(streams: seq<Stream>, k: nat, item: Item)
    requires k < |streams|
    ensures Receipts(streams[k := Consume(streams[k], item)]) == Receipts(streams) + multiset{item}
  {
    var n := |streams| - 1;
    var after := streams[k := Consume(streams[k], item)];
    if k == n {
      assert after[..n] == streams[..n];
    } else {
      ReceiptsUpdate(streams[..n], k, item);
      assert after[..n] == streams[..n][k := Consume(streams[k], item)];
    }
  }

  lemma AppendCounts(items: seq<Item>, x: Item, item: Item)
    ensures multiset(items + [x])[item] == multiset(items)[item] + if x == item then 1 else 0
  {}

  lemma {:induction false} WithCounts(identity: Identity, log: seq<Item>, fate: Fate, item: Item)
    ensures multiset(With(identity, log, fate))[item] ==
            if FateOf(identity, item.msg) == fate then multiset(log)[item] else 0
  {
    if log != [] {
      var n := |log| - 1;
      var front := With(identity, log[..n], fate);
      WithCounts(identity, log[..n], fate, item);
      AppendCounts(front, log[n], item);
      AppendCounts(log[..n], log[n], item);
      assert log == log[..n] + [log[n]];
      assert With(identity, log, fate) == if FateOf(identity, log[n].msg) == fate then front + [log[n]] else front;
    }
  }

  lemma FatesPartition(identity: Identity, log: seq<Item>)
    ensures multiset(log) ==
            multiset(With(identity, log, Sent)) + multiset(With(identity, log, Discarded))
            + multiset(With(identity, log, Closed))
  {
    forall item: Item
      ensures multiset(log)[item] ==
              multiset(With(identity, log, Sent))[item] + multiset(With(identity, log, Discarded))[item]
              + multiset(With(identity, log, Closed))[item]
    {
      WithCounts(identity, log, Sent, item);
      WithCounts(identity, log, Discarded, item);
      WithCounts(identity, log, Closed, item);
    }
  }

  lemma {:induction false} ReceiptsPartition(streams: seq<Stream>)
    ensures Receipts(streams) == Tally(streams, Sent) + Tally(streams, Discarded) + Tally(streams, Closed)
  {
    if streams != [] {
      var n := |streams| - 1;
      ReceiptsPartition(streams[..n]);
      FatesPartition(streams[n].identity, streams[n].log);
    }
  }

  ghost predicate Accounted(s: State) {
    Receipts(s.streams) + multiset(s.pending) == Puts(s.put)
  }

  lemma OfferAccounted(s: State, msg: Message)
    requires Accounted(s)
    ensures Accounted(Apply(s, Offer(msg)))
  {
    assert (s.put + [msg])[..|s.put|] == s.put;
  }

  lemma OpenAccounted(s: State, identity: Identity)
    requires Accounted(s)
    ensures Accounted(Apply(s, Open(identity)))
  {
    assert (s.streams + [Stream(identity, [], true)])[..|s.streams|] == s.streams;
  }

  lemma Taken(pending: seq<Item>, slot: nat)
    requires slot < |pending|
    ensures multiset(pending) == multiset(pending[..slot] + pending[slot + 1..]) + multiset{pending[slot]}
  {
    assert pending == pending[..slot] + [pending[slot]] + pending[slot + 1..];
  }

  lemma Moved(received: multiset<Item>, pending: multiset<Item>, rest: multiset<Item>, item: Item)
    requires pending == rest + multiset{item}
    ensures received + multiset{item} + rest == received + pending
  {}

  lemma ReceiveBalances(streams: seq<Stream>, pending: seq<Item>, k: nat, slot: nat)
    requires k < |streams| && slot < |pending|
    ensures Receipts(streams[k := Consume(streams[k], pending[slot])]) +
            multiset(pending[..slot] + pending[slot + 1..]) == Receipts(streams) + multiset(pending)
  {
    ReceiptsUpdate(streams, k, pending[slot]);
    Taken(pending, slot);
    Moved(Receipts(streams), multiset(pending), multiset(pending[..slot] + pending[slot + 1..]), pending[slot]);
  }

  lemma ReceiveAccounted(s: State, k: nat, slot: nat)
    requires Accounted(s) && k < |s.streams| && slot < |s.pending|
    ensures Accounted(Apply(s, Receive(k, slot)))
  {
    var s' := Apply(s, Receive(k, slot));
    assert Receipts(s'.streams) + multiset(s'.pending) == Puts(s'.put) by {
      ReceiveBalances(s.streams, s.pending, k, slot);
    }
  }

  // ---- order and stopping ----

  /** A stream met its policies in the order of the puts. */
  ghost predicate InOrder(log: seq<Item>) {
    forall a, b :: 0 <= a < b < |log| && !log[a].msg.close && !log[b].msg.close ==> log[a].pos < log[b].pos
  }

  /** Every policy received so far was put before `pos`. */
  ghost predicate Before(log: seq<Item>, pos: nat) {
    forall a :: 0 <= a < |log| && !log[a].msg.close ==> log[a].pos < pos
  }

  /** A stream stops at its first own close event. */
  ghost predicate Stopping(st: Stream) {
    && (forall a :: 0 <= a < |st.log| && FateOf(st.identity, st.log[a].msg) == Closed ==> a == |st.log| - 1 && !st.open)
    && (!st.open ==> st.log != [] && FateOf(st.identity, st.log[|st.log| - 1].msg) == Closed)
  }

  /** At most one policy waits, and it is newer than every policy received. */
  ghost predicate NewestWaits(s: State) {
    && (forall p, q :: 0 <= p < q < |s.pending| ==> s.pending[p].msg.close || s.pending[q].msg.close)
    && (forall p, k :: 0 <= p < |s.pending| && 0 <= k < |s.streams| && !s.pending[p].msg.close ==>
          Before(s.streams[k].log, s.pending[p].pos))
  }

  /** The log of one stream is in order, stops at the own close, and holds nothing newer than the puts. */
  ghost predicate Kept(st: Stream, puts: nat) { InOrder(st.log) && Stopping(st) && Before(st.log, puts) }

  ghost predicate Inv(s: State) {
    && Accounted(s) && NewestWaits(s)
    && (forall k :: 0 <= k < |s.streams| ==> Kept(s.streams[k], |s.put|))
  }

  lemma KeptLonger(st: Stream, puts: nat)
    requires Kept(st, puts)
    ensures Kept(st, puts + 1)
  {}

  lemma OfferKeepsNewest(s: State, msg: Message)
    requires NewestWaits(s) && Enabled(s, Offer(msg))
    requires forall k :: 0 <= k < |s.streams| ==> Kept(s.streams[k], |s.put|)
    ensures NewestWaits(Apply(s, Offer(msg)))
  {
    var s' := Apply(s, Offer(msg));
    var n := |s.pending|;
    forall p, q | 0 <= p < q < |s'.pending| ensures s'.pending[p].msg.close || s'.pending[q].msg.close {
      assert s'.pending[p] == s.pending[p];
      assert q < n ==> s'.pending[q] == s.pending[q];
    }
    forall p, k | 0 <= p < |s'.pending| && 0 <= k < |s'.streams| && !s'.pending[p].msg.close
      ensures Before(s'.streams[k].log, s'.pending[p].pos)
    {
      assert Kept(s.streams[k], |s.put|);
      assert p < n ==> s'.pending[p] == s.pending[p];
    }
  }

  lemma OfferKeepsInv(s: State, msg: Message)
    requires Inv(s) && Enabled(s, Offer(msg))
    ensures Inv(Apply(s, Offer(msg)))
  {
    OfferAccounted(s, msg);
    OfferKeepsNewest(s, msg);
    forall k | 0 <= k < |s.streams| ensures Kept(s.streams[k], |s.put| + 1) {
      KeptLonger(s.streams[k], |s.put|);
    }
  }

  lemma FreshKept(identity: Identity, puts: nat)
    ensures Kept(Stream(identity, [], true), puts)
  {}

  lemma OpenKeepsNewest(s: State, identity: Identity)
    requires NewestWaits(s)
    ensures NewestWaits(Apply(s, Open(identity)))
  {
    var s' := Apply(s, Open(identity));
    forall p, k | 0 <= p < |s'.pending| && 0 <= k < |s'.streams| && !s'.pending[p].msg.close
      ensures Before(s'.streams[k].log, s'.pending[p].pos)
    {
      assert k < |s.streams| ==> s'.streams[k] == s.streams[k];
    }
  }

  lemma OpenKeepsKept(streams: seq<Stream>, identity: Identity, puts: nat)
    requires forall k :: 0 <= k < |streams| ==> Kept(streams[k], puts)
    ensures var more := streams + [Stream(identity, [], true)];
            forall k :: 0 <= k < |more| ==> Kept(more[k], puts)
  {
    FreshKept(identity, puts);
  }

  lemma OpenKeepsInv(s: State, identity: Identity)
    requires Inv(s)
    ensures Inv(Apply(s, Open(identity)))
  {
    OpenAccounted(s, identity);
    OpenKeepsNewest(s, identity);
    OpenKeepsKept(s.streams, identity, |s.put|);
  }

  lemma {:induction false} ReceivedWasPut(s: State, slot: nat)
    requires Accounted(s) && slot < |s.pending|
    ensures s.pending[slot].pos < |s.put| && s.put[s.pending[slot].pos] == s.pending[slot].msg
  {
    assert s.pending[slot] in multiset(s.pending);
    PutsOnce(s.put, s.pending[slot]);
  }

  lemma ConsumeKeeps(st: Stream, item: Item, puts: nat)
    requires Kept(st, puts) && st.open && item.pos < puts && (item.msg.close || Before(st.log, item.pos))
    ensures Kept(Consume(st, item), puts)
  {}

  lemma ReceiveKeepsNewest(s: State, k: nat, slot: nat)
    requires NewestWaits(s) && Enabled(s, Receive(k, slot))
    ensures NewestWaits(Apply(s, Receive(k, slot)))
  {
    var s', item := Apply(s, Receive(k, slot)), s.pending[slot];
    forall p | 0 <= p < |s'.pending|
      ensures s'.pending[p] == s.pending[if p < slot then p else p + 1]
      ensures s'.pending[p].msg.close || item.msg.close
    {}
    forall p, j | 0 <= p < |s'.pending| && 0 <= j < |s'.streams| && !s'.pending[p].msg.close
      ensures Before(s'.streams[j].log, s'.pending[p].pos)
    {
      assert Before(s.streams[j].log, s'.pending[p].pos);
    }
  }

  lemma ReceiveKeepsInv(s: State, k: nat, slot: nat)
    requires Inv(s) && Enabled(s, Receive(k, slot))
    ensures Inv(Apply(s, Receive(k, slot)))
  {
    ReceiveAccounted(s, k, slot);
    ReceivedWasPut(s, slot);
    ReceiveKeepsNewest(s, k, slot);
    assert Kept(s.streams[k], |s.put|);
    assert s.pending[slot].msg.close || Before(s.streams[k].log, s.pending[slot].pos);
    ConsumeKeeps(s.streams[k], s.pending[slot], |s.put|);
    var s' := Apply(s, Receive(k, slot));
    forall j | 0 <= j < |s'.streams| ensures Kept(s'.streams[j], |s'.put|) {
      assert j != k ==> s'.streams[j] == s.streams[j] && Kept(s.streams[j], |s.put|);
    }
  }

  lemma StepKeepsInv(s: State, a: Action)
    requires Inv(s) && Enabled(s, a)
    ensures Inv(Apply(s, a))
  {
    match a
    case Offer(msg) => OfferKeepsInv(s, msg);
    case Open(identity) => OpenKeepsInv(s, identity);
    case Receive(k, slot) => ReceiveKeepsInv(s, k, slot);
  }

  // ---- every interleaving ----

  ghost predicate IsRun(states: seq<State>, actions: seq<Action>) {
    && |states| == |actions| + 1
    && states[0] == START
    && forall k :: 0 <= k < |actions| ==>
         Enabled(states[k], actions[k]) && states[k + 1] == Apply(states[k], actions[k])
  }

  lemma {:induction false} InvThroughout(states: seq<State>, actions: seq<Action>, n: nat)
    requires IsRun(states, actions) && n < |states|
    ensures Inv(states[n])
    decreases n
  {
    if n > 0 {
      InvThroughout(states, actions, n - 1);
      assert Enabled(states[n - 1], actions[n - 1]);
      StepKeepsInv(states[n - 1], actions[n - 1]);
    }
  }

  /** Each put is, exactly once, sent, discarded, consumed as a close, or still pending. */
  lemma Conservation(states: seq<State>, actions: seq<Action>, n: nat, item: Item)
    requires IsRun(states, actions) && n < |states|
    ensures var s := states[n];
            Tally(s.streams, Sent)[item] + Tally(s.streams, Discarded)[item] + Tally(s.streams, Closed)[item]
            + multiset(s.pending)[item]
            == if item.pos < |s.put| && item.msg == s.put[item.pos] then 1 else 0
  {
    InvThroughout(states, actions, n);
    ReceiptsPartition(states[n].streams);
    PutsOnce(states[n].put, item);
    var s := states[n];
    assert (Receipts(s.streams) + multiset(s.pending))[item] == Puts(s.put)[item];
  }

  ghost predicate Increasing(items: seq<Item>) {
    forall a, b :: 0 <= a < b < |items| ==> items[a].pos < items[b].pos
  }

  lemma {:induction false} SentInOrder(identity: Identity, log: seq<Item>)
    requires InOrder(log)
    ensures Increasing(With(identity, log, Sent))
  {
    if log != [] {
      var n := |log| - 1;
      var r := With(identity, log[..n], Sent);
      SentInOrder(identity, log[..n]);
      if FateOf(identity, log[n].msg) == Sent {
        forall a | 0 <= a < |r| ensures r[a].pos < log[n].pos {
          var b :| 0 <= b < n && log[..n][b] == r[a];
          assert log[b] == r[a];
        }
      }
    }
  }

  lemma {:induction false} ReceiptsHold(streams: seq<Stream>, k: nat)
    requires k < |streams|
    ensures multiset(streams[k].log) <= Receipts(streams)
  {
    var n := |streams| - 1;
    if k < n {
      ReceiptsHold(streams[..n], k);
    }
  }

  /** What a stream sends are policies put for its own identity, in the order of the puts. */
  lemma StreamSendsInOrder(states: seq<State>, actions: seq<Action>, n: nat, k: nat)
    requires IsRun(states, actions) && n < |states| && k < |states[n].streams|
    ensures var s := states[n];
            var sent := With(s.streams[k].identity, s.streams[k].log, Sent);
            && Increasing(sent)
            && (forall a :: 0 <= a < |sent| ==> sent[a].pos < |s.put| && s.put[sent[a].pos] == sent[a].msg)
            && (forall a :: 0 <= a < |sent| ==> sent[a].msg.identity == s.streams[k].identity && !sent[a].msg.close)
  {
    InvThroughout(states, actions, n);
    var s := states[n];
    var st := s.streams[k];
    assert Kept(st, |s.put|);
    SentInOrder(st.identity, st.log);
    var sent := With(st.identity, st.log, Sent);
    forall a | 0 <= a < |sent| ensures sent[a].pos < |s.put| && s.put[sent[a].pos] == sent[a].msg {
      assert sent[a] in multiset(st.log);
      ReceiptsHold(s.streams, k);
      PutsOnce(s.put, sent[a]);
    }
  }

  /** No put is received by two streams. */
  lemma ReceivedOnce(states: seq<State>, actions: seq<Action>, n: nat, j: nat, k: nat, item: Item)
    requires IsRun(states, actions) && n < |states| && j < k < |states[n].streams|
    ensures !(item in states[n].streams[j].log && item in states[n].streams[k].log)
  {
    var s := states[n];
    InvThroughout(states, actions, n);
    PutsOnce(s.put, item);
    ReceiptsOfTwo(s.streams, j, k);
    assert item in s.streams[j].log ==> multiset(s.streams[j].log)[item] >= 1;
    assert item in s.streams[k].log ==> multiset(s.streams[k].log)[item] >= 1;
  }

  lemma {:induction false} ReceiptsOfTwo(streams: seq<Stream>, j: nat, k: nat)
    requires j < k < |streams|
    ensures multiset(streams[j].log) + multiset(streams[k].log) <= Receipts(streams)
  {
    var n := |streams| - 1;
    var front := streams[..n];
    assert front[j] == streams[j] && (k < n ==> front[k] == streams[k]);
    if k < n {
      ReceiptsOfTwo(front, j, k);
    } else {
      ReceiptsHold(front, j);
    }
  }

  /**
   * A stream is stopped exactly when the last message it received is a close for its own identity; no
   * earlier one is.
   */
  lemma StreamsStopAtClose(states: seq<State>, actions: seq<Action>, n: nat, k: nat)
    requires IsRun(states, actions) && n < |states| && k < |states[n].streams|
    ensures var st := states[n].streams[k];
            && (!st.open <==>
                && st.log != []
                && st.log[|st.log| - 1].msg.identity == st.identity
                && st.log[|st.log| - 1].msg.close)
            && (forall a :: 0 <= a < |st.log| - 1 ==> !(st.log[a].msg.identity == st.identity && st.log[a].msg.close))
  {
    InvThroughout(states, actions, n);
    var st := states[n].streams[k];
    assert Kept(st, |states[n].put|);
    forall a | 0 <= a < |st.log| - 1 ensures !(st.log[a].msg.identity == st.identity && st.log[a].msg.close) {
      assert FateOf(st.identity, st.log[a].msg) != Closed;
    }
    if st.log != [] {
      assert FateOf(st.identity, st.log[|st.log| - 1].msg) == Closed ==> !st.open;
    }
  }

  // ---- one stream ----

  /** With a single stream, every policy put for it is sent or still waits. */
  lemma LoneStreamMissesNothing(states: seq<State>, actions: seq<Action>, n: nat, pos: nat)
    requires IsRun(states, actions) && n < |states| && |states[n].streams| == 1 && pos < |states[n].put|
    requires states[n].put[pos].identity == states[n].streams[0].identity && !states[n].put[pos].close
    ensures var s, item := states[n], Item(pos, states[n].put[pos]);
            item in With(s.streams[0].identity, s.streams[0].log, Sent) || item in s.pending
  {
    var s, item := states[n], Item(pos, states[n].put[pos]);
    var st := s.streams[0];
    Conservation(states, actions, n, item);
    WithCounts(st.identity, st.log, Discarded, item);
    WithCounts(st.identity, st.log, Closed, item);
    assert s.streams[..0] == [];
  }

  // ---- how often a message is where ----

  function Count(items: seq<Item>, msg: Message): nat {
    if items == [] then 0
    else var n := |items| - 1; Count(items[..n], msg) + if items[n].msg == msg then 1 else 0
  }

  /** Over the logs of all streams. */
  function LogCount(streams: seq<Stream>, msg: Message): nat {
    if streams == [] then 0
    else var n := |streams| - 1; LogCount(streams[..n], msg) + Count(streams[n].log, msg)
  }

  lemma CountAppend(items: seq<Item>, item: Item, msg: Message)
    ensures Count(items + [item], msg) == Count(items, msg) + if item.msg == msg then 1 else 0
  {
    assert (items + [item])[..|items|] == items;
  }

  lemma {:induction false} CountConcat(a: seq<Item>, b: seq<Item>, msg: Message)
    ensures Count(a + b, msg) == Count(a, msg) + Count(b, msg)
    decreases |b|
  {
    if b == [] {
      assert a + b == a;
    } else {
      var n := |b| - 1;
      CountConcat(a, b[..n], msg);
      CountAppend(a + b[..n], b[n], msg);
      assert a + b == (a + b[..n]) + [b[n]];
    }
  }

  lemma CountWithout(items: seq<Item>, slot: nat, msg: Message)
    requires slot < |items|
    ensures Count(items, msg) == Count(items[..slot] + items[slot + 1..], msg) + if items[slot].msg == msg then 1 else 0
  {
    var front, back := items[..slot], items[slot + 1..];
    assert items == (front + [items[slot]]) + back;
    CountConcat(front, back, msg);
    CountConcat(front + [items[slot]], back, msg);
    CountAppend(front, items[slot], msg);
  }

  lemma {:induction false} LogCountUpdate(streams: seq<Stream>, k: nat, item: Item, msg: Message)
    requires k < |streams|
    ensures LogCount(streams[k := Consume(streams[k], item)], msg) ==
            LogCount(streams, msg) + if item.msg == msg then 1 else 0
  {
    var n := |streams| - 1;
    var after := streams[k := Consume(streams[k], item)];
    if k == n {
      assert after[..n] == streams[..n];
      CountAppend(streams[n].log, item, msg);
    } else {
      LogCountUpdate(streams[..n], k, item, msg);
      assert after[..n] == streams[..n][k := Consume(streams[k], item)];
    }
  }

  /** Every copy put was received or waits. */
  ghost predicate Balanced(s: State, msg: Message) {
    LogCount(s.streams, msg) + Count(s.pending, msg) == multiset(s.put)[msg]
  }

  lemma StepKeepsBalance(s: State, a: Action, msg: Message)
    requires Balanced(s, msg) && Enabled(s, a)
    ensures Balanced(Apply(s, a), msg)
  {
    match a
    case Offer(m) => CountAppend(s.pending, Item(|s.put|, m), msg);
    case Open(identity) => assert (s.streams + [Stream(identity, [], true)])[..|s.streams|] == s.streams;
    case Receive(k, slot) =>
      LogCountUpdate(s.streams, k, s.pending[slot], msg);
      CountWithout(s.pending, slot, msg);
  }

  lemma {:induction false} BalancedThroughout(states: seq<State>, actions: seq<Action>, n: nat, msg: Message)
    requires IsRun(states, actions) && n < |states|
    ensures Balanced(states[n], msg)
    decreases n
  {
    if n > 0 {
      BalancedThroughout(states, actions, n - 1, msg);
      assert Enabled(states[n - 1], actions[n - 1]);
      StepKeepsBalance(states[n - 1], actions[n - 1], msg);
    }
  }

  lemma {:induction false} SentCount(identity: Identity, log: seq<Item>, msg: Message)
    ensures Count(With(identity, log, Sent), msg) == if FateOf(identity, msg) == Sent then Count(log, msg) else 0
  {
    if log != [] {
      var n := |log| - 1;
      var front := With(identity, log[..n], Sent);
      SentCount(identity, log[..n], msg);
      CountAppend(front, log[n], msg);
      assert With(identity, log, Sent) == if FateOf(identity, log[n].msg) == Sent then front + [log[n]] else front;
    }
  }

  lemma OnlyLog(streams: seq<Stream>, msg: Message)
    requires |streams| == 1
    ensures LogCount(streams, msg) == Count(streams[0].log, msg)
  {
    assert streams[..0] == [];
  }

  /** A lone stream: each of its policies was sent as often as put, except for the copies that still wait. */
  lemma LoneStreamSends(states: seq<State>, actions: seq<Action>, n: nat, msg: Message)
    requires IsRun(states, actions) && n < |states| && |states[n].streams| == 1
    requires msg.identity == states[n].streams[0].identity && !msg.close
    ensures var s := states[n];
            Count(With(s.streams[0].identity, s.streams[0].log, Sent), msg) + Count(s.pending, msg) ==
            multiset(s.put)[msg]
  {
    var s := states[n];
    BalancedThroughout(states, actions, n, msg);
    SentCount(s.streams[0].identity, s.streams[0].log, msg);
    OnlyLog(s.streams, msg);
  }

  /**
   The loop of `SendPolicy` on the events that reach it: it stops at the first close for its own identity, and sends
   the policies for its own identity among the events consumed, each once and in order. `at` says where they stand.
   */
  method SendPolicy(identity: Identity, events: seq<Message>)
    returns (sent: seq<Message>, consumed: nat, stopped: bool, ghost at: seq<nat>)
    ensures consumed <= |events| && (!stopped ==> consumed == |events|)
    ensures stopped <==> exists c :: 0 <= c < |events| && events[c].identity == identity && events[c].close
    ensures stopped ==> consumed > 0 && events[consumed - 1].identity == identity && events[consumed - 1].close
    ensures forall c :: 0 <= c < consumed - 1 ==> !(events[c].identity == identity && events[c].close)
    ensures |sent| == |at|
    ensures forall j :: 0 <= j < |at| ==> at[j] < consumed && sent[j] == events[at[j]]
    ensures forall j, k :: 0 <= j < k < |at| ==> at[j] < at[k]
    ensures forall c :: 0 <= c < consumed ==> (c in at <==> events[c].identity == identity && !events[c].close)
  {
    sent, consumed, at := [], 0, [];
    while consumed < |events|
      invariant consumed <= |events| && |sent| == |at|
      invariant forall c :: 0 <= c < consumed ==> !(events[c].identity == identity && events[c].close)
      invariant forall j :: 0 <= j < |at| ==> at[j] < consumed && sent[j] == events[at[j]]
      invariant forall j, k :: 0 <= j < k < |at| ==> at[j] < at[k]
      invariant forall c :: 0 <= c < consumed ==> (c in at <==> events[c].identity == identity && !events[c].close)
    {
      var event := events[consumed];
      consumed := consumed + 1;
      if event.identity == identity {
        if !event.close {
          sent, at := sent + [event], at + [consumed - 1];
        } else {
          return sent, consumed, true, at;
        }
      }
    }
    stopped := false;
  }
}

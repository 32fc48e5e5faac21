/** From the policy event to the agent: what is due, what is put on the channel, and what a stream sends. */
module Delivery {
  import opened Decimal
  import opened Messages
  import opened FanOut
  import opened Routing
  import Streams

  // ---- the channel over a run ----

  /** What one move owes. */
  ghost function DueAt(states: seq<System>, moves: seq<Move>, j: nat, msg: Message): nat
    requires j < |moves| < |states|
  {
    match moves[j]
    case Host(event, ks, _) =>
      if Orders(ks, event.matchLabels.Keys) then Due(states, moves, j, event, Texts(ks, event.matchLabels), msg) else 0
    case Shared(_) => 0
  }

  /** All copies of a message that the policy events so far owe. */
  ghost function TotalDue(states: seq<System>, moves: seq<Move>, n: nat, msg: Message): nat
    requires n <= |moves| < |states|
  {
    if n == 0 then 0 else TotalDue(states, moves, n - 1, msg) + DueAt(states, moves, n - 1, msg)
  }

  lemma SentIsAppended(s: System, move: Move, s': System, msg: Message)
    requires Moves(s, move, s')
    ensures move.Shared? ==> s'.chan == s.chan
    ensures multiset(s'.chan)[msg] == multiset(s.chan)[msg] + Sent(s, s', msg)
  {
    assert s.chan <= s'.chan;
    SplitCount(s'.chan, s.chan, msg);
  }

  lemma HostOwes(states: seq<System>, moves: seq<Move>, j: nat, msg: Message)
    requires IsSystemRun(states, moves) && j < |moves| && moves[j].Host? && msg.identity != 0
    ensures Sent(states[j], states[j + 1], msg) == DueAt(states, moves, j, msg)
  {
    assert MoveAt(states, moves, j);
    EndToEndRouting(states, moves, j, msg);
  }

  lemma ChannelStep(states: seq<System>, moves: seq<Move>, j: nat, msg: Message)
    requires IsSystemRun(states, moves) && j < |moves| && msg.identity != 0
    ensures multiset(states[j + 1].chan)[msg] == multiset(states[j].chan)[msg] + DueAt(states, moves, j, msg)
  {
    assert MoveAt(states, moves, j);
    SentIsAppended(states[j], moves[j], states[j + 1], msg);
    if moves[j].Host? {
      HostOwes(states, moves, j, msg);
    }
  }

  /** The channel is given exactly what is due. */
  lemma {:induction false} ChannelHoldsDue(states: seq<System>, moves: seq<Move>, n: nat, msg: Message)
    requires IsSystemRun(states, moves) && n < |states| && msg.identity != 0
    ensures multiset(states[n].chan)[msg] == TotalDue(states, moves, n, msg)
    decreases n
  {
    if n > 0 {
      ChannelHoldsDue(states, moves, n - 1, msg);
      ChannelStep(states, moves, n - 1, msg);
    }
  }

  // ---- the streams on that channel ----

  /** The policies among the puts, without the close events of the disconnects. */
  function Policies(put: seq<Message>): seq<Message> {
    if put == [] then []
    else var n := |put| - 1; Policies(put[..n]) + if put[n].close then [] else [put[n]]
  }

  lemma {:induction false} PoliciesCount(put: seq<Message>, msg: Message)
    requires !msg.close
    ensures multiset(Policies(put))[msg] == multiset(put)[msg]
  {
    if put != [] {
      var n := |put| - 1;
      PoliciesCount(put[..n], msg);
      assert put == put[..n] + [put[n]];
    }
  }

  lemma PoliciesAppend(put: seq<Message>, msg: Message)
    ensures Policies(put + [msg]) == Policies(put) + if msg.close then [] else [msg]
  {
    assert (put + [msg])[..|put|] == put;
  }

  /** The puts that are no close events, in their order. */
  lemma {:induction false} PoliciesExactly(a: seq<Message>, b: seq<Message>)
    ensures Policies(a + b) == Policies(a) + Policies(b)
    decreases |b|
  {
    if b == [] {
      assert a + b == a;
    } else {
      var front, msg := b[..|b| - 1], b[|b| - 1];
      PoliciesExactly(a, front);
      PoliciesAppend(a + front, msg);
      PoliciesAppend(front, msg);
      assert b == front + [msg] && a + b == (a + front) + [msg];
    }
  }

  lemma SplitCount(chan: seq<Message>, done: seq<Message>, msg: Message)
    requires done <= chan
    ensures multiset(chan)[msg] == multiset(done)[msg] + multiset(chan[|done|..])[msg]
  {
    assert chan == done + chan[|done|..];
  }

  /**
   The service works through its channel in order and a lone stream serves identity `i`: each copy of a
   policy due to `i` has been sent, waits for the stream, or is still to be put. Nothing is lost or doubled.
   */
  lemma LoneStreamDelivers(states: seq<System>, moves: seq<Move>, n: nat,
                           ss: seq<Streams.State>, actions: seq<Streams.Action>, k: nat,
                           event: HostPolicyEvent, i: Identity)
    requires IsSystemRun(states, moves) && n < |states| && i != 0
    requires Streams.IsRun(ss, actions) && k < |ss| && Policies(ss[k].put) <= states[n].chan
    requires |ss[k].streams| == 1 && ss[k].streams[0].identity == i
    ensures var msg, s := Message(event, i, false), ss[k];
            Streams.Count(Streams.With(i, s.streams[0].log, Streams.Sent), msg)
            + Streams.Count(s.pending, msg)
            + multiset(states[n].chan[|Policies(s.put)|..])[msg]
            == TotalDue(states, moves, n, msg)
  {
    var msg := Message(event, i, false);
    Streams.LoneStreamSends(ss, actions, k, msg);
    PoliciesCount(ss[k].put, msg);
    SplitCount(states[n].chan, Policies(ss[k].put), msg);
    ChannelHoldsDue(states, moves, n, msg);
  }
}

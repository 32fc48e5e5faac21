/** Which messages a host policy event puts on the channel, and in what numbers. */
module FanOut {
  import opened Decimal
  import opened Registry
  import opened Messages

  type Lists = map<string, seq<Identity>>

  /** `GetIdentityFromLabelPool`. */
  function ListIn(cache: Lists, l: string): seq<Identity> { if l in cache then cache[l] else [] }

  /** `PassOverToKVMSAgent`: one message per identity, in order. */
  function PutAll(event: HostPolicyEvent, ids: seq<Identity>): (msgs: seq<Message>)
    ensures |msgs| == |ids|
    ensures forall i :: 0 <= i < |ids| ==> msgs[i] == Message(event, ids[i], false)
  {
    seq(|ids|, i requires 0 <= i < |ids| => Message(event, ids[i], false))
  }

  /** The list of every label, one label after the other. */
  function SendLists(event: HostPolicyEvent, labels: seq<string>, cache: Lists): seq<Message> {
    if labels == [] then []
    else PutAll(event, ListIn(cache, labels[0])) + SendLists(event, labels[1..], cache)
  }

  predicate Matches(labels: seq<string>, known: seq<string>) {
    labels != [] && forall l <- labels :: l in known
  }

  /** What `UpdateHostSecurityPolicies` puts on the channel after the refresh. */
  function Routed(event: HostPolicyEvent, labels: seq<string>, known: seq<string>, cache: Lists): seq<Message> {
    if Matches(labels, known) then SendLists(event, labels, cache) else []
  }

  /** How often an identity occurs in the lists of `labels` together. */
  function Total(labels: seq<string>, cache: Lists, id: Identity): nat {
    if labels == [] then 0
    else multiset(ListIn(cache, labels[0]))[id] + Total(labels[1..], cache, id)
  }

  lemma {:induction false} PutAllCounts(event: HostPolicyEvent, ids: seq<Identity>, msg: Message)
    ensures multiset(PutAll(event, ids))[msg] ==
            if msg == Message(event, msg.identity, false) then multiset(ids)[msg.identity] else 0
  {
    if ids == [] {
      assert PutAll(event, ids) == [];
    } else {
      var n := |ids| - 1;
      PutAllCounts(event, ids[..n], msg);
      assert ids == ids[..n] + [ids[n]];
      assert PutAll(event, ids) == PutAll(event, ids[..n]) + [Message(event, ids[n], false)];
    }
  }

  /** Exactly: each identity gets the event as often as the selected lists hold it, and nothing else is put. */
  lemma {:induction false} SendListsCounts(event: HostPolicyEvent, labels: seq<string>, cache: Lists, msg: Message)
    ensures multiset(SendLists(event, labels, cache))[msg] ==
            if msg == Message(event, msg.identity, false) then Total(labels, cache, msg.identity) else 0
  {
    if labels != [] {
      PutAllCounts(event, ListIn(cache, labels[0]), msg);
      SendListsCounts(event, labels[1..], cache, msg);
    }
  }

  lemma {:induction false} TotalConcat(a: seq<string>, b: seq<string>, cache: Lists, id: Identity)
    ensures Total(a + b, cache, id) == Total(a, cache, id) + Total(b, cache, id)
  {
    if a == [] {
      assert a + b == b;
    } else {
      TotalConcat(a[1..], b, cache, id);
      assert (a + b)[1..] == a[1..] + b;
    }
  }

  lemma WithoutOne(s: seq<string>, i: nat)
    requires i < |s|
    ensures multiset(s) == multiset(s[..i] + s[i + 1..]) + multiset{s[i]}
    ensures multiset(s[..i] + s[i + 1..]) == multiset(s) - multiset{s[i]}
  {
    assert s == s[..i] + [s[i]] + s[i + 1..];
  }

  lemma TotalWithout(b: seq<string>, k: nat, cache: Lists, id: Identity)
    requires k < |b|
    ensures Total(b, cache, id) == multiset(ListIn(cache, b[k]))[id] + Total(b[..k] + b[k + 1..], cache, id)
  {
    TotalConcat(b[..k], b[k + 1..], cache, id);
    TotalConcat(b[..k], b[k..], cache, id);
    assert b[..k] + b[k..] == b && b[k..][1..] == b[k + 1..];
  }

  /** Taking the head of `a` out of both lists keeps them permutations of each other. */
  lemma SharedHead(a: seq<string>, b: seq<string>) returns (k: nat)
    requires a != [] && multiset(a) == multiset(b)
    ensures k < |b| && b[k] == a[0]
    ensures multiset(a[..0] + a[1..]) == multiset(b[..k] + b[k + 1..])
  {
    assert a[0] in multiset(b);
    k :| 0 <= k < |b| && b[k] == a[0];
    WithoutOne(a, 0);
    WithoutOne(b, k);
  }

  lemma {:induction false} TotalOrder(a: seq<string>, b: seq<string>, cache: Lists, id: Identity)
    requires multiset(a) == multiset(b)
    ensures Total(a, cache, id) == Total(b, cache, id)
  {
    if a == [] {
      assert |b| == |multiset(b)| == 0;
    } else {
      var k := SharedHead(a, b);
      TotalOrder(a[..0] + a[1..], b[..k] + b[k + 1..], cache, id);
      TotalWithout(a, 0, cache, id);
      TotalWithout(b, k, cache, id);
    }
  }

  // ---- the selector map, iterated in some order ----

  ghost predicate Orders(ks: seq<string>, keys: set<string>) {
    && (forall i :: 0 <= i < |ks| ==> ks[i] in keys)
    && (forall k <- keys :: k in ks)
    && (forall i, j :: 0 <= i < j < |ks| ==> ks[i] != ks[j])
  }

  function Texts(ks: seq<string>, sel: map<string, string>): (r: seq<string>)
    requires forall i :: 0 <= i < |ks| ==> ks[i] in sel
    ensures |r| == |ks| && forall i :: 0 <= i < |ks| ==> r[i] == LabelText(ks[i], sel[ks[i]])
  {
    seq(|ks|, i requires 0 <= i < |ks| => LabelText(ks[i], sel[ks[i]]))
  }

  lemma {:induction false} TextsOrder(ks: seq<string>, ks': seq<string>, sel: map<string, string>, keys: set<string>)
    requires keys <= sel.Keys && Orders(ks, keys) && Orders(ks', keys)
    ensures multiset(Texts(ks, sel)) == multiset(Texts(ks', sel))
  {
    if ks == [] {
      assert keys == {};
    } else {
      assert ks[0] in ks';
      var i :| 0 <= i < |ks'| && ks'[i] == ks[0];
      var rest, rest' := ks[..0] + ks[1..], ks'[..i] + ks'[i + 1..];
      OrdersWithout(ks, 0, keys);
      OrdersWithout(ks', i, keys);
      TextsOrder(rest, rest', sel, keys - {ks[0]});
      TextsWithout(ks, 0, sel, rest);
      TextsWithout(ks', i, sel, rest');
    }
  }

  lemma TextsWithout(ks: seq<string>, i: nat, sel: map<string, string>, rest: seq<string>)
    requires i < |ks| && (forall j :: 0 <= j < |ks| ==> ks[j] in sel) && rest == ks[..i] + ks[i + 1..]
    ensures multiset(Texts(ks, sel)) == multiset(Texts(rest, sel)) + multiset{LabelText(ks[i], sel[ks[i]])}
  {
    var t := Texts(ks, sel);
    WithoutOne(t, i);
    assert Texts(rest, sel) == t[..i] + t[i + 1..];
  }

  lemma OrdersWithout(ks: seq<string>, i: nat, keys: set<string>)
    requires Orders(ks, keys) && i < |ks|
    ensures Orders(ks[..i] + ks[i + 1..], keys - {ks[i]})
  {
    var rest := ks[..i] + ks[i + 1..];
    forall k | k in keys - {ks[i]} ensures k in rest {
      var j :| 0 <= j < |ks| && ks[j] == k;
      assert rest[if j < i then j else j - 1] == k;
    }
  }

  lemma MatchesOrder(a: seq<string>, b: seq<string>, known: seq<string>)
    requires multiset(a) == multiset(b) && Matches(a, known)
    ensures Matches(b, known)
  {
    assert a[0] in multiset(b);
    forall l | l in b ensures l in known {
      assert l in multiset(a);
    }
  }

  lemma SendListsOrder(event: HostPolicyEvent, a: seq<string>, b: seq<string>, cache: Lists)
    requires multiset(a) == multiset(b)
    ensures multiset(SendLists(event, a, cache)) == multiset(SendLists(event, b, cache))
  {
    forall msg: Message
      ensures multiset(SendLists(event, a, cache))[msg] == multiset(SendLists(event, b, cache))[msg]
    {
      SendListsCounts(event, a, cache, msg);
      SendListsCounts(event, b, cache, msg);
      TotalOrder(a, b, cache, msg.identity);
    }
  }

  /** The messages do not depend on the order in which the selector map is iterated. */
  lemma FanOutOrderIndependent(event: HostPolicyEvent, sel: map<string, string>, ks: seq<string>, ks': seq<string>,
                               known: seq<string>, cache: Lists)
    requires Orders(ks, sel.Keys) && Orders(ks', sel.Keys)
    ensures multiset(Routed(event, Texts(ks, sel), known, cache)) ==
            multiset(Routed(event, Texts(ks', sel), known, cache))
  {
    var a, b := Texts(ks, sel), Texts(ks', sel);
    TextsOrder(ks, ks', sel, sel.Keys);
    if Matches(a, known) { MatchesOrder(a, b, known); }
    if Matches(b, known) { MatchesOrder(b, a, known); }
    SendListsOrder(event, a, b, cache);
  }
}

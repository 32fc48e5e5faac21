/**
 The swap-remove loop that the operator and the server both run.

 The loop ranges over the whole slice while it shrinks a second window on the same
 backing array. The operator stores the whole slice back, the server the window.
 */
module SwapRemove {
  import opened Decimal

  /** The backing array and the length of the window, or an index out of range. */
  datatype Removal = Finished(buf: seq<Identity>, window: nat) | OutOfRange

  /** The loop from `index` on. */
  function Loop(buf: seq<Identity>, window: nat, index: nat, id: Identity): (r: Removal)
    requires window <= |buf|
    ensures r.Finished? ==> |r.buf| == |buf| && r.window <= window
    decreases |buf| - index
  {
    if index >= |buf| then Finished(buf, window)
    else if buf[index] != id then Loop(buf, window, index + 1, id)
    else if index >= window then OutOfRange
    else Loop(buf[index := buf[window - 1]][window - 1 := 0], window - 1, index + 1, id)
  }

  function Remove(ids: seq<Identity>, id: Identity): Removal {
    Loop(ids, |ids|, 0, id)
  }

  ghost predicate AtMostOnce(ids: seq<Identity>, id: Identity) {
    forall i, j :: 0 <= i < j < |ids| ==> !(ids[i] == id && ids[j] == id)
  }

  /** Moving the last element into slot `k` and clearing the last slot. */
  function Displaced(ids: seq<Identity>, k: nat): seq<Identity>
    requires k < |ids|
  {
    ids[k := ids[|ids| - 1]][|ids| - 1 := 0]
  }

  // ---- no panic ----

  lemma {:induction false} LoopInBounds(buf: seq<Identity>, window: nat, index: nat, id: Identity)
    requires id != 0 && window <= |buf|
    requires forall i :: window <= i < |buf| ==> buf[i] == 0
    ensures var r := Loop(buf, window, index, id);
            r.Finished? && |r.buf| == |buf| && r.window <= window
            && (forall i :: r.window <= i < |buf| ==> r.buf[i] == 0)
            && (forall i :: 0 <= i < r.window ==> r.buf[i] in buf)
            && (forall x <- r.buf :: x in buf || x == 0)
    decreases |buf| - index
  {
    if index < |buf| {
      if buf[index] != id {
        LoopInBounds(buf, window, index + 1, id);
      } else {
        var next := buf[index := buf[window - 1]][window - 1 := 0];
        LoopInBounds(next, window - 1, index + 1, id);
        forall x | x in next ensures x in buf || x == 0 {}
        var r := Loop(next, window - 1, index + 1, id);
        forall i | 0 <= i < r.window ensures r.buf[i] in buf {
          KeptFromWindow(next, window - 1, index + 1, id, i);
          var p :| 0 <= p < window - 1 && next[p] == r.buf[i];
          assert next[p] == (if p == index then buf[window - 1] else buf[p]);
        }
      }
    }
  }

  /** What the window holds at the end came from inside the window. */
  lemma {:induction false} KeptFromWindow(buf: seq<Identity>, window: nat, index: nat, id: Identity, i: nat)
    requires id != 0 && window <= |buf|
    requires Loop(buf, window, index, id).Finished?
    requires i < Loop(buf, window, index, id).window
    ensures var r := Loop(buf, window, index, id);
            r.window <= window && |r.buf| == |buf| && exists p :: 0 <= p < window && buf[p] == r.buf[i]
    decreases |buf| - index
  {
    if index < |buf| {
      if buf[index] != id {
        KeptFromWindow(buf, window, index + 1, id, i);
      } else {
        var next := buf[index := buf[window - 1]][window - 1 := 0];
        KeptFromWindow(next, window - 1, index + 1, id, i);
        var p :| 0 <= p < window - 1 && next[p] == Loop(buf, window, index, id).buf[i];
        var q := if p == index then window - 1 else p;
        assert buf[q] == next[p];
      }
    } else {
      assert buf[i] == Loop(buf, window, index, id).buf[i];
    }
  }

  /** A nonzero identity never drives the loop out of range, however often it occurs. */
  lemma NonzeroStaysInBounds(ids: seq<Identity>, id: Identity)
    requires id != 0
    ensures var r := Remove(ids, id);
            r.Finished? && |r.buf| == |ids| && r.window <= |ids|
            && (forall i :: r.window <= i < |ids| ==> r.buf[i] == 0)
            && (forall i :: 0 <= i < r.window ==> r.buf[i] in ids)
            && (forall x <- r.buf :: x in ids || x == 0)
  {
    LoopInBounds(ids, |ids|, 0, id);
  }

  lemma {:induction false} ZeroAtTheEndCrashes(buf: seq<Identity>, window: nat, index: nat)
    requires window < |buf| && index < |buf| && buf[|buf| - 1] == 0
    ensures Loop(buf, window, index, 0) == OutOfRange
    decreases |buf| - index
  {
    if buf[index] != 0 {
      ZeroAtTheEndCrashes(buf, window, index + 1);
    } else if index < window {
      ZeroAtTheEndCrashes(buf[index := buf[window - 1]][window - 1 := 0], window - 1, index + 1);
    }
  }

  lemma {:induction false} LoopOnZero(ids: seq<Identity>, index: nat)
    requires index <= |ids| && forall i :: 0 <= i < index && i < |ids| - 1 ==> ids[i] != 0
    ensures Loop(ids, |ids|, index, 0) == OutOfRange <==> exists i :: 0 <= i < |ids| - 1 && ids[i] == 0
    decreases |ids| - index
  {
    if index < |ids| {
      if ids[index] != 0 {
        LoopOnZero(ids, index + 1);
      } else if index < |ids| - 1 {
        ZeroAtTheEndCrashes(Displaced(ids, index), |ids| - 1, index + 1);
      }
    }
  }

  /** Removing identity 0 crashes exactly when it occurs before the last position. */
  lemma ZeroCrashesExactlyWhen(ids: seq<Identity>)
    ensures Remove(ids, 0) == OutOfRange <==> exists i :: 0 <= i < |ids| - 1 && ids[i] == 0
  {
    LoopOnZero(ids, 0);
  }

  lemma {:induction false} ZeroLoop(ids: seq<Identity>, index: nat)
    requires index <= |ids| && forall i :: 0 <= i < |ids| - 1 ==> ids[i] != 0
    ensures Loop(ids, |ids|, index, 0) ==
            Finished(ids, if index < |ids| && ids[|ids| - 1] == 0 then |ids| - 1 else |ids|)
    decreases |ids| - index
  {
    if index < |ids| - 1 {
      ZeroLoop(ids, index + 1);
    } else if index == |ids| - 1 && ids[index] == 0 {
      assert Displaced(ids, index) == ids;
    }
  }

  /** Removing identity 0 crashes or leaves the stored slice as it was. */
  lemma ZeroChangesNothing(ids: seq<Identity>)
    ensures Remove(ids, 0).Finished? ==> Remove(ids, 0).buf == ids
  {
    ZeroCrashesExactlyWhen(ids);
    if Remove(ids, 0).Finished? {
      ZeroLoop(ids, 0);
    }
  }

  // ---- what is removed ----

  lemma {:induction false} LoopWithout(buf: seq<Identity>, window: nat, index: nat, id: Identity)
    requires window <= |buf| && forall i :: index <= i < |buf| ==> buf[i] != id
    ensures Loop(buf, window, index, id) == Finished(buf, window)
    decreases |buf| - index
  {
    if index < |buf| {
      LoopWithout(buf, window, index + 1, id);
    }
  }

  lemma {:induction false} LoopUpTo(ids: seq<Identity>, index: nat, k: nat, id: Identity)
    requires index <= k < |ids| && ids[k] == id
    requires forall i :: index <= i < k ==> ids[i] != id
    ensures Loop(ids, |ids|, index, id) == Loop(Displaced(ids, k), |ids| - 1, k + 1, id)
    decreases k - index
  {
    if index < k {
      LoopUpTo(ids, index + 1, k, id);
    }
  }

  /** The exact result: nothing changes, or the last element fills the hole. */
  lemma RemoveExact(ids: seq<Identity>, id: Identity)
    requires id != 0 && AtMostOnce(ids, id)
    ensures id !in ids ==> Remove(ids, id) == Finished(ids, |ids|)
    ensures forall k :: 0 <= k < |ids| && ids[k] == id ==> Remove(ids, id) == Finished(Displaced(ids, k), |ids| - 1)
  {
    if id !in ids {
      LoopWithout(ids, |ids|, 0, id);
    }
    forall k | 0 <= k < |ids| && ids[k] == id
      ensures Remove(ids, id) == Finished(Displaced(ids, k), |ids| - 1)
    {
      LoopUpTo(ids, 0, k, id);
      LoopWithout(Displaced(ids, k), |ids| - 1, k + 1, id);
    }
  }

  lemma LastCounts(ids: seq<Identity>)
    requires ids != []
    ensures multiset(ids) == multiset(ids[..|ids| - 1]) + multiset{ids[|ids| - 1]}
  {
    assert ids == ids[..|ids| - 1] + [ids[|ids| - 1]];
  }

  lemma ReplacedCounts(front: seq<Identity>, k: nat, x: Identity)
    requires k < |front|
    ensures multiset(front[k := x]) == multiset(front) - multiset{front[k]} + multiset{x}
  {}

  lemma DisplacedFront(ids: seq<Identity>, k: nat)
    requires k < |ids|
    ensures var n := |ids| - 1;
            Displaced(ids, k)[..n] == if k < n then ids[..n][k := ids[n]] else ids[..n]
  {}

  lemma TradeCounts(m: multiset<Identity>, x: Identity, y: Identity)
    ensures x in m ==> m - multiset{x} + multiset{y} == m + multiset{y} - multiset{x}
    ensures m + multiset{y} - multiset{y} == m
  {}

  lemma DisplacedFrontCounts(ids: seq<Identity>, k: nat)
    requires k < |ids|
    ensures multiset(Displaced(ids, k)[..|ids| - 1]) == multiset(ids) - multiset{ids[k]}
  {
    var n := |ids| - 1;
    var front := ids[..n];
    LastCounts(ids);
    DisplacedFront(ids, k);
    if k < n {
      ReplacedCounts(front, k, ids[n]);
      assert front[k] in multiset(front);
    }
    TradeCounts(multiset(front), ids[k], ids[n]);
  }

  lemma DisplacedCounts(ids: seq<Identity>, k: nat)
    requires k < |ids|
    ensures multiset(Displaced(ids, k)) == multiset(ids) - multiset{ids[k]} + multiset{0}
    ensures multiset(Displaced(ids, k)[..|ids| - 1]) == multiset(ids) - multiset{ids[k]}
  {
    LastCounts(Displaced(ids, k));
    DisplacedFrontCounts(ids, k);
  }

  /** As multisets: the server's window loses the identity, the operator's slice trades it for a 0. */
  lemma RemoveCounts(ids: seq<Identity>, id: Identity)
    requires id != 0 && AtMostOnce(ids, id)
    ensures var r := Remove(ids, id);
            r.Finished? && r.window <= |r.buf| == |ids|
            && multiset(r.buf[..r.window]) == multiset(ids) - multiset{id}
            && multiset(r.buf) == (if id in ids then multiset(ids) - multiset{id} + multiset{0} else multiset(ids))
  {
    RemoveExact(ids, id);
    if id in ids {
      var k :| 0 <= k < |ids| && ids[k] == id;
      DisplacedCounts(ids, k);
    } else {
      assert ids[..|ids|] == ids;
    }
  }

  /** Which nonzero identities are left, and that none is duplicated. */
  lemma RemoveMembers(ids: seq<Identity>, id: Identity)
    requires id != 0 && AtMostOnce(ids, id)
    ensures Remove(ids, id).Finished?
    ensures forall x: Identity :: x != 0 ==> (x in Remove(ids, id).buf <==> x in ids && x != id)
    ensures forall x: Identity :: x != 0 && AtMostOnce(ids, x) ==> AtMostOnce(Remove(ids, id).buf, x)
  {
    RemoveExact(ids, id);
    if id in ids {
      var n := |ids| - 1;
      var k :| 0 <= k < |ids| && ids[k] == id;
      var d := Displaced(ids, k);
      forall x: Identity | x != 0 ensures x in d <==> x in ids && x != id {
        if x in d {
          var i :| 0 <= i < |d| && d[i] == x;
          assert x == ids[if i == k then n else i];
        }
        if j :| 0 <= j < |ids| && ids[j] == x && x != id {
          assert d[if j == n then k else j] == x;
        }
      }
      forall x: Identity | x != 0 && AtMostOnce(ids, x) ensures AtMostOnce(d, x) {
        forall i, j | 0 <= i < j < |d| ensures !(d[i] == x && d[j] == x) {
          var a, b := if i == k then n else i, if j == k then n else j;
          assert (d[i] == x ==> ids[a] == x) && (d[j] == x ==> ids[b] == x);
          assert !(ids[a] == x && ids[b] == x) || j == n;
        }
      }
    }
  }

  lemma {:induction false} CountOnce(ids: seq<Identity>, id: Identity)
    requires AtMostOnce(ids, id)
    ensures multiset(ids)[id] == if id in ids then 1 else 0
  {
    if ids != [] {
      var n := |ids| - 1;
      CountOnce(ids[..n], id);
      assert ids == ids[..n] + [ids[n]];
    }
  }

  /** No identity but 0 stands twice in the list. */
  ghost predicate NoRepeats(ids: seq<Identity>) {
    forall x: Identity :: x != 0 ==> AtMostOnce(ids, x)
  }

  /** Removing any identity keeps a list free of repetitions, in the slice and in the window. */
  lemma RemoveKeepsNoRepeats(ids: seq<Identity>, id: Identity)
    requires NoRepeats(ids) && Remove(ids, id).Finished?
    ensures NoRepeats(Remove(ids, id).buf)
    ensures NoRepeats(Remove(ids, id).buf[..Remove(ids, id).window])
  {
    if id == 0 {
      ZeroChangesNothing(ids);
    } else {
      assert AtMostOnce(ids, id);
      RemoveMembers(ids, id);
    }
    var buf := Remove(ids, id).buf;
    forall x: Identity | x != 0 ensures AtMostOnce(buf, x) {
      assert AtMostOnce(ids, x);
    }
    forall x: Identity | x != 0 ensures AtMostOnce(buf[..Remove(ids, id).window], x) {
      assert AtMostOnce(buf, x);
    }
  }

  // ---- identities held more than once ----

  /** How often `id` occurs in `ids[lo..hi]`. */
  function Count(ids: seq<Identity>, lo: nat, hi: nat, id: Identity): nat
    requires hi <= |ids|
    decreases hi - lo
  {
    if lo >= hi then 0 else (if ids[lo] == id then 1 else 0) + Count(ids, lo + 1, hi, id)
  }

  lemma {:induction false} CountSame(a: seq<Identity>, b: seq<Identity>, lo: nat, hi: nat, id: Identity)
    requires hi <= |a| == |b| && forall i :: lo <= i < hi ==> a[i] == b[i]
    ensures Count(a, lo, hi, id) == Count(b, lo, hi, id)
    decreases hi - lo
  {
    if lo < hi {
      CountSame(a, b, lo + 1, hi, id);
    }
  }

  /** The occurrence at `p` is filled from a slot further up that holds the identity again. */
  ghost predicate Refilled(buf: seq<Identity>, window: nat, index: nat, id: Identity, p: nat)
    requires index <= p < window <= |buf|
  {
    buf[p] == id && p < window - 1 - Count(buf, index, p, id) && buf[window - 1 - Count(buf, index, p, id)] == id
  }

  ghost predicate SomeRefilled(buf: seq<Identity>, window: nat, index: nat, id: Identity)
    requires window <= |buf|
  {
    exists p :: index <= p < window && Refilled(buf, window, index, id, p)
  }

  lemma RefilledOnSkip(buf: seq<Identity>, window: nat, index: nat, id: Identity)
    requires window <= |buf| && (index < window ==> buf[index] != id)
    ensures SomeRefilled(buf, window, index, id) <==> SomeRefilled(buf, window, index + 1, id)
  {
    var from := index + 1;
    if p :| index <= p < window && Refilled(buf, window, index, id, p) {
      assert Refilled(buf, window, from, id, p);
    }
    if p :| from <= p < window && Refilled(buf, window, from, id, p) {
      assert Refilled(buf, window, index, id, p);
    }
  }

  lemma RefilledOnSwap(buf: seq<Identity>, window: nat, index: nat, id: Identity, next: seq<Identity>)
    requires index < window <= |buf| && buf[index] == id != 0
    requires next == buf[index := buf[window - 1]][window - 1 := 0]
    ensures SomeRefilled(buf, window, index, id) <==> next[index] == id || SomeRefilled(next, window - 1, index + 1, id)
  {
    forall p | index < p < window - 1
      ensures Refilled(buf, window, index, id, p) <==> Refilled(next, window - 1, index + 1, id, p)
    {
      CountSame(buf, next, index + 1, p, id);
    }
    assert next[index] == id <==> Refilled(buf, window, index, id, index);
    var from, to := index + 1, window - 1;
    if p :| from <= p < to && Refilled(next, to, from, id, p) {
      assert Refilled(buf, window, index, id, p);
    }
    if p :| index <= p < window && Refilled(buf, window, index, id, p) && next[index] != id {
      assert Refilled(next, window - 1, index + 1, id, p);
    }
  }

  lemma {:induction false} LoopLeaves(buf: seq<Identity>, window: nat, index: nat, id: Identity)
    requires id != 0 && window <= |buf| && index <= |buf|
    requires forall i :: window <= i < |buf| ==> buf[i] == 0
    ensures Loop(buf, window, index, id).Finished?
    ensures id in Loop(buf, window, index, id).buf <==> id in buf[..index] || SomeRefilled(buf, window, index, id)
    decreases |buf| - index
  {
    if index == |buf| {
      assert buf[..index] == buf;
    } else if buf[index] != id {
      LoopLeaves(buf, window, index + 1, id);
      RefilledOnSkip(buf, window, index, id);
      assert buf[..index + 1] == buf[..index] + [buf[index]];
    } else {
      var next := buf[index := buf[window - 1]][window - 1 := 0];
      LoopLeaves(next, window - 1, index + 1, id);
      RefilledOnSwap(buf, window, index, id, next);
      assert next[..index + 1] == buf[..index] + [next[index]];
    }
  }

  /**
   When a nonzero identity outlives its own removal. Each of its occurrences in turn is filled from
   the end: the one with `k` others before it from slot `|ids| - 1 - k`. It survives exactly when
   one of these slots lies further up and holds the identity too.
   */
  lemma SurvivesExactlyWhen(ids: seq<Identity>, id: Identity)
    requires id != 0
    ensures Remove(ids, id).Finished?
    ensures id in Remove(ids, id).buf <==> exists p :: 0 <= p < |ids| && Refilled(ids, |ids|, 0, id, p)
  {
    LoopLeaves(ids, |ids|, 0, id);
  }

  /** One of two survives in `[5, 5]`, none in `[5, 5, 7]`: so at-most-once is needed for exact removal. */
  lemma DuplicatesMayGoEitherWay()
    ensures Remove([5, 5], 5) == Finished([5, 0], 1)
    ensures Remove([5, 5, 7], 5) == Finished([7, 0, 0], 1)
  {
    LoopUpTo([5, 5], 0, 0, 5);
    assert Displaced([5, 5], 0) == [5, 0];
    LoopWithout([5, 0], 1, 1, 5);
    LoopUpTo([5, 5, 7], 0, 0, 5);
    assert Displaced([5, 5, 7], 0) == [7, 5, 0];
    LoopWithout([7, 0, 0], 1, 2, 5);
    assert [7 as Identity, 5, 0][1 := 5][1 := 0] == [7, 0, 0];
  }

  // ---- the loop on the backing array ----

  /** The source's loop, in place on the first `len` elements of the array. */
  method RemoveInPlace(a: array<Identity>, len: nat, id: Identity) returns (window: nat, inRange: bool)
    requires len <= a.Length
    modifies a
    ensures inRange <==> Remove(old(a[..len]), id).Finished?
    ensures inRange ==> window <= len && Finished(a[..len], window) == Remove(old(a[..len]), id)
    ensures a[len..] == old(a[len..])
  {
    window := len;
    inRange := true;
    for index := 0 to len
      invariant window <= len
      invariant a[len..] == old(a[len..])
      invariant Loop(a[..len], window, index, id) == Remove(old(a[..len]), id)
    {
      if a[index] == id {
        if index >= window {
          return window, false;
        }
        ghost var before := a[..len];
        a[index] := a[window - 1];
        a[window - 1] := 0;
        assert a[..len] == before[index := before[window - 1]][window - 1 := 0];
        window := window - 1;
      }
    }
  }
}

/** When the draw-until-free loop of the allocator can exit. */
module Allocator {
  import opened Decimal
  import opened Registry

  /** There are `n` identities below `n`. */
  lemma {:induction false} IdentitiesBelow(n: nat) returns (all: set<Identity>)
    requires n <= 65536
    ensures |all| == n
    ensures forall i: Identity :: i in all <==> i < n
  {
    if n == 0 {
      all := {};
    } else {
      all := IdentitiesBelow(n - 1);
      all := all + {n - 1};
    }
  }

  lemma SubsetSize(a: set<Identity>, b: set<Identity>)
    requires a <= b
    ensures |a| <= |b|
  {
    assert |b - a| == |b| - |a|;
  }

  ghost predicate NonEmptyNames(m: Memory) { forall i <- m.idToName :: m.idToName[i] != "" }

  /** Some draw exits exactly when fewer than 65536 identities are mapped. */
  lemma ExitingDrawExistsExactlyWhen(m: Memory)
    requires NonEmptyNames(m)
    ensures (exists id: Identity :: Free(m, id)) <==> |m.idToName| < 65536
  {
    var used := m.idToName.Keys;
    var all := IdentitiesBelow(65536);
    if id: Identity :| Free(m, id) {
      SubsetSize(used, all - {id});
    } else {
      forall i: Identity ensures i in used { assert !Free(m, i); }
      SubsetSize(all, used);
    }
  }

  ghost predicate Drawn(draws: seq<nat>, id: Identity) {
    exists n :: 0 <= n < |draws| && draws[n] % 65536 == id
  }

  /** Draws that cover all 65536 residues make the loop exit whenever it can. */
  lemma CoveringDrawsExit(m: Memory, draws: seq<nat>)
    requires NonEmptyNames(m) && |m.idToName| < 65536
    requires forall id: Identity :: Drawn(draws, id)
    ensures exists n :: 0 <= n < |draws| && draws[n] % 65536 !in m.idToName
  {
    ExitingDrawExistsExactlyWhen(m);
    var id: Identity :| Free(m, id);
    assert Drawn(draws, id);
    var n :| 0 <= n < |draws| && draws[n] % 65536 == id;
    assert draws[n] % 65536 !in m.idToName;
  }
}

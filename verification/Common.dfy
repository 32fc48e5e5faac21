/** The list helpers of the common package. */
module Common {

  method ContainsElement<T(==)>(slice: seq<T>, element: T) returns (found: bool)
    ensures found <==> element in slice
  {
    for i := 0 to |slice|
      invariant element !in slice[..i]
    {
      if slice[i] == element {
        return true;
      }
    }
    return false;
  }

  /** A non-empty list contained in the other one matches. */
  method MatchIdentities(identities: seq<string>, superIdentities: seq<string>) returns (matched: bool)
    ensures matched <==> identities != [] && forall x <- identities :: x in superIdentities
  {
    matched := true;
    if |identities| == 0 {
      return false;
    }
    for i := 0 to |identities|
      invariant matched
      invariant forall x <- identities[..i] :: x in superIdentities
    {
      var found := ContainsElement(superIdentities, identities[i]);
      if !found {
        matched := false;
        break;
      }
    }
  }
}

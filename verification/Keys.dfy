/** The five etcd namespaces and the keys built in them. */
module Keys {
  import opened Text
  import opened Decimal
  import opened Etcd

  datatype Namespace = IdentityToEWName | EWNameToIdentity | LabelToIdentities | IdentityToPodIp | IdentityToLabel

  function Prefix(ns: Namespace): string {
    match ns
    case IdentityToEWName => "/kvm-opr-map-identity-to-ewname/"
    case EWNameToIdentity => "/kvm-opr-map-ewname-to-identity/"
    case LabelToIdentities => "/kvm-opr-label-to-identities-map/"
    case IdentityToPodIp => "/kvm-svc-identity-podip-maps/"
    case IdentityToLabel => "/kvm-opr-identity-to-label-maps/"
  }

  function Key(ns: Namespace, suffix: string): string { Prefix(ns) + suffix }

  function IdKey(ns: Namespace, i: Identity): string { Key(ns, Dec(i)) }

  lemma NoPrefixOfAnother(a: Namespace, b: Namespace)
    ensures Prefix(a) <= Prefix(b) <==> a == b
  {
    if a != b {
      var s, t := Prefix(a), Prefix(b);
      assert a == IdentityToPodIp || b == IdentityToPodIp ==> s[5] != t[5];
      assert a != IdentityToPodIp && b != IdentityToPodIp ==> s[9..14] != t[9..14] || s[14] != t[14];
    }
  }

  /** A key extends another only inside one namespace, by extending its suffix. */
  lemma KeyPrefix(a: Namespace, x: string, b: Namespace, y: string)
    ensures Key(a, x) <= Key(b, y) <==> a == b && x <= y
    ensures Key(a, x) == Key(b, y) <==> a == b && x == y
  {
    KeyOrder(a, x, b, y);
    KeyOrder(b, y, a, x);
  }

  lemma KeyOrder(a: Namespace, x: string, b: Namespace, y: string)
    ensures Key(a, x) <= Key(b, y) <==> a == b && x <= y
  {
    if Key(a, x) <= Key(b, y) {
      assert Prefix(a) <= Key(a, x) && Prefix(b) <= Key(b, y);
      PrefixesCompare(Prefix(a), Prefix(b), Key(b, y));
      NoPrefixOfAnother(a, b);
      NoPrefixOfAnother(b, a);
    }
    PrefixCancel(Prefix(a), x, y);
  }

  lemma IdKeyPrefix(a: Namespace, i: Identity, b: Namespace, j: Identity)
    ensures IdKey(a, i) <= IdKey(b, j) <==> a == b && Dec(i) <= Dec(j)
    ensures IdKey(a, i) == IdKey(b, j) <==> a == b && i == j
  {
    KeyPrefix(a, Dec(i), b, Dec(j));
    DecInjective(i, j);
  }

  /** The part of the store that one namespace holds. */
  function View(db: Db, ns: Namespace): (view: Db)
    ensures forall k :: k in view <==> k in db && Prefix(ns) <= k
    ensures forall k <- view :: view[k] == db[k]
  {
    map k | k in db && Prefix(ns) <= k :: db[k]
  }

  /** Every key of a namespace is its prefix and a suffix. */
  lemma KeyOfNamespace(ns: Namespace, k: string) returns (suffix: string)
    requires Prefix(ns) <= k
    ensures k == Key(ns, suffix)
  {
    suffix := k[|Prefix(ns)|..];
  }

  /** No key of namespace `b` extends, or is, a key of namespace `a`. */
  lemma ForeignKey(a: Namespace, suffix: string, b: Namespace, k: string)
    requires a != b && Prefix(b) <= k
    ensures !(Key(a, suffix) <= k)
  {
    var rest := KeyOfNamespace(b, k);
    KeyPrefix(a, suffix, b, rest);
  }

  lemma ForeignPut(db: Db, k: string, entry: Entry, b: Namespace)
    requires !(Prefix(b) <= k)
    ensures View(db[k := entry], b) == View(db, b)
  {}

  lemma ForeignDelete(db: Db, a: Namespace, suffix: string, b: Namespace)
    requires a != b
    ensures View(DeletePrefix(db, Key(a, suffix)), b) == View(db, b)
    ensures forall k <- Scan(db, Key(a, suffix)) :: k !in View(db, b)
  {
    var p := Key(a, suffix);
    forall k | k in View(db, b) ensures k in db && !(p <= k) {
      ForeignKey(a, suffix, b, k);
    }
  }

  /** Whatever the suffix, an operation in one namespace leaves the others alone. */
  lemma NamespaceIsolation(db: Db, a: Namespace, suffix: string, value: string, client: nat, b: Namespace)
    requires a != b
    ensures View(Put(db, Key(a, suffix), value), b) == View(db, b)
    ensures View(PutWithTTL(db, Key(a, suffix), value, client), b) == View(db, b)
    ensures View(DeletePrefix(db, Key(a, suffix)), b) == View(db, b)
    ensures forall k <- Scan(db, Key(a, suffix)) :: k !in View(db, b)
  {
    assert Key(b, "") == Prefix(b);
    KeyPrefix(b, "", a, suffix);
    ForeignPut(db, Key(a, suffix), Entry(value, NoLease), b);
    ForeignPut(db, Key(a, suffix), Entry(value, Leased(client)), b);
    ForeignDelete(db, a, suffix, b);
  }

  /** Deleting identity `i`'s key removes the identities of the blocks it leads, and nothing else. */
  lemma IdentityDeleteReach(db: Db, ns: Namespace, i: Identity, j: Identity)
    requires i > 0
    ensures IdKey(ns, j) in DeletePrefix(db, IdKey(ns, i)) <==>
              IdKey(ns, j) in db && !exists k :: InBlock(i, k, j)
    ensures var db' := DeletePrefix(db, IdKey(ns, i));
            forall k <- db :: !(IdKey(ns, i) <= k) ==> k in db' && db'[k] == db[k]
  {
    IdKeyPrefix(ns, i, ns, j);
    PrefixReach(i, j);
  }

  lemma DeletingOneDeletesTwelve(db: Db, ns: Namespace)
    ensures IdKey(ns, 12) !in DeletePrefix(db, IdKey(ns, 1))
  {
    assert InBlock(1, 1, 12) by { assert Pow10(1) == 10; }
    IdentityDeleteReach(db, ns, 1, 12);
  }
}

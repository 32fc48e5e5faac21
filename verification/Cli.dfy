/** The command line's lookup of a workload by name. */
module Cli {
  import opened Decimal
  import opened Etcd
  import opened Keys
  import opened Registry
  import opened StoreMirror

  /** `Found` stands for the installation script made for the name and its identity. */
  datatype Response = Found(name: string, identity: string) | NotPresent

  /** A prefix scan, indexed by the exact key. */
  function HandleCliRequest(db: Db, name: string): Response {
    var pairs := Scan(db, Key(EWNameToIdentity, name));
    var key := Key(EWNameToIdentity, name);
    var value := if key in pairs then pairs[key] else "";
    if |value| == 0 then NotPresent else Found(name, value)
  }

  /** However many other names extend the requested one, the answer is the exact key's value, if it has one. */
  lemma CliReadsOneKey(db: Db, name: string)
    ensures var key := Key(EWNameToIdentity, name);
            HandleCliRequest(db, name) ==
            if key in db && db[key].value != "" then Found(name, db[key].value) else NotPresent
  {
    assert Key(EWNameToIdentity, name) <= Key(EWNameToIdentity, name);
  }

  /** When the name namespace equals its map, exactly the live workloads are found, with their identities. */
  lemma CliFindsLiveWorkloads(m: Memory, db: Db, name: string)
    requires Mirrors(m, db, EWNameToIdentity)
    ensures HandleCliRequest(db, name) == if name in m.nameToId then Found(name, Dec(m.nameToId[name])) else NotPresent
  {
    CliReadsOneKey(db, name);
    assert MirrorsAt(m, db, EWNameToIdentity, name);
  }
}

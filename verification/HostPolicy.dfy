/** The host policy validators and the status that `Reconcile` sets. */
module HostPolicy {
  datatype Source = Source(path: string, dir: string, recursive: bool)

  datatype PathRule = PathRule(path: string, ownerOnly: bool, fromSource: seq<Source>)

  /** A directory or pattern rule; only `ownerOnly` is validated. */
  datatype Rule = Rule(target: string, ownerOnly: bool)

  datatype PathRules = PathRules(paths: seq<PathRule>, directories: seq<Rule>, patterns: seq<Rule>)

  /** A network protocol or a capability. */
  datatype SourceRule = SourceRule(target: string, fromSource: seq<Source>)

  datatype Spec = Spec(
    action: string,
    process: PathRules,
    file: PathRules,
    protocols: seq<SourceRule>,
    capabilities: seq<SourceRule>)

  datatype PolicyError = NoError | OwnerOnlyNeedsAllow | RecursiveOnPath

  // ---- what makes a policy valid ----

  predicate NoOwnerOnly(rules: PathRules) {
    && (forall r <- rules.paths :: !r.ownerOnly)
    && (forall r <- rules.directories :: !r.ownerOnly)
    && (forall r <- rules.patterns :: !r.ownerOnly)
  }

  predicate NoSourcePath(sources: seq<Source>) { forall s <- sources :: s.path == "" }

  predicate NoRecursivePath(sources: seq<Source>) { forall s <- sources :: s.path == "" || !s.recursive }

  predicate Acceptable(p: Spec) {
    && (p.action == "Allow" || (NoOwnerOnly(p.process) && NoOwnerOnly(p.file)))
    && (forall r <- p.process.paths :: NoSourcePath(r.fromSource))
    && (forall r <- p.file.paths :: NoRecursivePath(r.fromSource))
    && (forall r <- p.protocols :: NoSourcePath(r.fromSource))
    && (forall r <- p.capabilities :: NoSourcePath(r.fromSource))
  }

  // ---- the validators ----

  method ValidateOwnerOnly(action: string, rules: seq<Rule>) returns (err: PolicyError)
    ensures err == NoError || err == OwnerOnlyNeedsAllow
    ensures err == NoError <==> action == "Allow" || forall r <- rules :: !r.ownerOnly
  {
    for i := 0 to |rules|
      invariant action == "Allow" || forall r <- rules[..i] :: !r.ownerOnly
    {
      if action != "Allow" {
        if rules[i].ownerOnly {
          return OwnerOnlyNeedsAllow;
        }
      }
    }
    return NoError;
  }

  /** `anyPath` is the condition of the process, network and capability validators, which ignores `recursive`. */
  method ValidateSources(sources: seq<Source>, anyPath: bool) returns (err: PolicyError)
    ensures err == NoError || err == RecursiveOnPath
    ensures err == NoError <==> if anyPath then NoSourcePath(sources) else NoRecursivePath(sources)
  {
    for i := 0 to |sources|
      invariant if anyPath then NoSourcePath(sources[..i]) else NoRecursivePath(sources[..i])
    {
      if sources[i].path != "" {
        if sources[i].recursive || anyPath {
          return RecursiveOnPath;
        }
      }
    }
    assert sources[..|sources|] == sources;
    return NoError;
  }

  method ValidatePaths(action: string, paths: seq<PathRule>, anyPath: bool) returns (err: PolicyError)
    ensures err == NoError <==>
            && (action == "Allow" || forall r <- paths :: !r.ownerOnly)
            && forall r <- paths :: if anyPath then NoSourcePath(r.fromSource) else NoRecursivePath(r.fromSource)
  {
    for i := 0 to |paths|
      invariant action == "Allow" || forall r <- paths[..i] :: !r.ownerOnly
      invariant forall r <- paths[..i] :: if anyPath then NoSourcePath(r.fromSource) else NoRecursivePath(r.fromSource)
    {
      if action != "Allow" {
        if paths[i].ownerOnly {
          return OwnerOnlyNeedsAllow;
        }
      }
      err := ValidateSources(paths[i].fromSource, anyPath);
      if err != NoError {
        return;
      }
    }
    return NoError;
  }

  /** `validateProcessSchema` (`anyPath`) and `validateFileSchema`. */
  method ValidatePathRules(action: string, rules: PathRules, anyPath: bool) returns (err: PolicyError)
    ensures err == NoError <==>
            && (action == "Allow" || NoOwnerOnly(rules))
            && forall r <- rules.paths :: if anyPath then NoSourcePath(r.fromSource) else NoRecursivePath(r.fromSource)
  {
    err := ValidatePaths(action, rules.paths, anyPath);
    if err != NoError {
      return;
    }
    err := ValidateOwnerOnly(action, rules.directories);
    if err != NoError {
      return;
    }
    err := ValidateOwnerOnly(action, rules.patterns);
  }

  /** `validateNetworkSchema` and `validateCapabilitiesSchema`. */
  method ValidateSourceRules(rules: seq<SourceRule>) returns (err: PolicyError)
    ensures err == NoError <==> forall r <- rules :: NoSourcePath(r.fromSource)
  {
    for i := 0 to |rules|
      invariant forall r <- rules[..i] :: NoSourcePath(r.fromSource)
    {
      err := ValidateSources(rules[i].fromSource, true);
      if err != NoError {
        return;
      }
    }
    return NoError;
  }

  datatype Fetched = NotFound | FetchFailed | Policy(spec: Spec)

  datatype PolicyStatus = Untouched | Ok | NotOk

  /** `Reconcile`, with status updates that succeed: the status is OK exactly for an acceptable policy. */
  method Reconcile(fetched: Fetched) returns (status: PolicyStatus, failed: bool)
    ensures failed <==> fetched.FetchFailed?
    ensures status == Untouched <==> !fetched.Policy?
    ensures fetched.Policy? ==> (status == Ok <==> Acceptable(fetched.spec))
    ensures fetched.Policy? ==>
              var p := fetched.spec;
              (status == Ok <==>
               && (p.action == "Allow" ||
                   forall rules <- {p.process, p.file} ::
                     && (forall r <- rules.paths :: !r.ownerOnly)
                     && (forall r <- rules.directories :: !r.ownerOnly)
                     && (forall r <- rules.patterns :: !r.ownerOnly))
               && (forall r <- p.process.paths, s <- r.fromSource :: s.path == "")
               && (forall r <- p.file.paths, s <- r.fromSource :: s.path == "" || !s.recursive)
               && (forall r <- p.protocols, s <- r.fromSource :: s.path == "")
               && (forall r <- p.capabilities, s <- r.fromSource :: s.path == ""))
  {
    if !fetched.Policy? {
      return Untouched, fetched.FetchFailed?;
    }
    var p := fetched.spec;
    failed, status := false, NotOk;
    var err := ValidatePathRules(p.action, p.process, true);
    if err != NoError { return; }
    err := ValidatePathRules(p.action, p.file, false);
    if err != NoError { return; }
    err := ValidateSourceRules(p.protocols);
    if err != NoError { return; }
    err := ValidateSourceRules(p.capabilities);
    if err != NoError { return; }
    status := Ok;
  }

  // ---- deleting entries ----

  /** Every source of `a` is one of `b`. */
  ghost predicate FewerSources(a: seq<Source>, b: seq<Source>) { forall s <- a :: s in b }

  ghost predicate FewerPaths(a: seq<PathRule>, b: seq<PathRule>) {
    forall r <- a :: exists q <- b :: r.ownerOnly == q.ownerOnly && FewerSources(r.fromSource, q.fromSource)
  }

  ghost predicate FewerSourceRules(a: seq<SourceRule>, b: seq<SourceRule>) {
    forall r <- a :: exists q <- b :: FewerSources(r.fromSource, q.fromSource)
  }

  ghost predicate FewerRules(a: PathRules, b: PathRules) {
    && FewerPaths(a.paths, b.paths)
    && (forall r <- a.directories :: r in b.directories)
    && (forall r <- a.patterns :: r in b.patterns)
  }

  /** An acceptable policy stays acceptable when entries, or sources of entries, are deleted. */
  lemma DeletingEntriesKeepsAcceptable(p: Spec, q: Spec)
    requires Acceptable(q) && p.action == q.action
    requires FewerRules(p.process, q.process) && FewerRules(p.file, q.file)
    requires FewerSourceRules(p.protocols, q.protocols) && FewerSourceRules(p.capabilities, q.capabilities)
    ensures Acceptable(p)
  {
    PathsKeep(p.process.paths, q.process.paths);
    PathsKeep(p.file.paths, q.file.paths);
    SourceRulesKeep(p.protocols, q.protocols);
    SourceRulesKeep(p.capabilities, q.capabilities);
  }

  lemma PathsKeep(a: seq<PathRule>, b: seq<PathRule>)
    requires FewerPaths(a, b)
    ensures (forall r <- b :: !r.ownerOnly) ==> forall r <- a :: !r.ownerOnly
    ensures (forall r <- b :: NoSourcePath(r.fromSource)) ==> forall r <- a :: NoSourcePath(r.fromSource)
    ensures (forall r <- b :: NoRecursivePath(r.fromSource)) ==> forall r <- a :: NoRecursivePath(r.fromSource)
  {
    forall r | r in a
      ensures (forall q <- b :: !q.ownerOnly) ==> !r.ownerOnly
      ensures (forall q <- b :: NoSourcePath(q.fromSource)) ==> NoSourcePath(r.fromSource)
      ensures (forall q <- b :: NoRecursivePath(q.fromSource)) ==> NoRecursivePath(r.fromSource)
    {
      var q :| q in b && r.ownerOnly == q.ownerOnly && FewerSources(r.fromSource, q.fromSource);
    }
  }

  lemma SourceRulesKeep(a: seq<SourceRule>, b: seq<SourceRule>)
    requires FewerSourceRules(a, b)
    ensures (forall r <- b :: NoSourcePath(r.fromSource)) ==> forall r <- a :: NoSourcePath(r.fromSource)
  {
    forall r | r in a ensures (forall q <- b :: NoSourcePath(q.fromSource)) ==> NoSourcePath(r.fromSource) {
      var q :| q in b && FewerSources(r.fromSource, q.fromSource);
    }
  }
}

/**
 The scan pipeline: checks run in order, the first Unsafe verdict ends the scan,
 and otherwise the first Review verdict counts.  What remote services and
 Starlark policies say is an oracle.
 */
module Scanner {
  import opened Results
  import opened Verdicts

  datatype CheckConfig =
    | RemoteHttp(url: string, failClosed: bool)
    | Starlark(path: string, failClosed: bool, maxCallstack: nat)

  /** What a remote service replies, if it does, and what a policy evaluates to. */
  datatype World = World(
    remote: string -> Option<RemoteReply>,
    starlark: (string, nat) -> Result<ScanVerdict, string>)

  datatype RemoteReply = RemoteReply(verdict: string, reason: Option<string>)

  const DEFAULT_CHECK: CheckConfig := Starlark("builtin:calciforge/default-scanner.star", true, 64)

  /** Without checks the built-in policy runs, and fails closed. */
  function ConfiguredChecks(checks: seq<CheckConfig>): seq<CheckConfig> {
    if checks == [] then [DEFAULT_CHECK] else checks
  }

  /** Anything but "clean" and "review" is Unsafe. */
  function RemoteVerdict(reply: RemoteReply): ScanVerdict {
    if reply.verdict == "clean" then Clean
    else if reply.verdict == "review" then Review(if reply.reason.Some? then reply.reason.value else "remote review")
    else Unsafe(if reply.reason.Some? then reply.reason.value else "remote unsafe")
  }

  /** The check gives no verdict of its own. */
  predicate Fails(w: World, c: CheckConfig) {
    match c
    case RemoteHttp(url, _) => w.remote(url).None?
    case Starlark(path, _, maxCallstack) => w.starlark(path, maxCallstack).Failure?
  }

  /** What a check contributes: a failure counts as Unsafe if the check fails closed, and as nothing otherwise. */
  function Contribution(w: World, c: CheckConfig): Option<ScanVerdict> {
    match c
    case RemoteHttp(url, failClosed) =>
      (match w.remote(url)
       case Some(reply) => Some(RemoteVerdict(reply))
       case None => if failClosed then Some(Unsafe("remote security check unavailable")) else None)
    case Starlark(path, failClosed, maxCallstack) =>
      (match w.starlark(path, maxCallstack)
       case Success(verdict) => Some(verdict)
       case Failure(err) => if failClosed then Some(Unsafe("starlark security check failed: " + err)) else None)
  }

  function Severity(v: ScanVerdict): nat {
    match v
    case Clean => 0
    case Review(_) => 1
    case Unsafe(_) => 2
  }

  function Weight(w: World, c: CheckConfig): (weight: nat)
    ensures weight <= 2
    ensures Fails(w, c) ==> weight == if c.failClosed then 2 else 0
  {
    var v := Contribution(w, c);
    if v.Some? then Severity(v.value) else 0
  }

  /** The greatest weight among the checks. */
  function Greatest(w: World, checks: seq<CheckConfig>): nat {
    if checks == [] then 0
    else
      var rest := Greatest(w, checks[..|checks| - 1]);
      if Weight(w, checks[|checks| - 1]) > rest then Weight(w, checks[|checks| - 1]) else rest
  }

  /** `v` is the verdict of the first check of greatest weight, or Clean if all weights are zero. */
  ghost predicate FirstOfGreatest(w: World, checks: seq<CheckConfig>, v: ScanVerdict) {
    if Greatest(w, checks) == 0 then v == Clean
    else exists i :: 0 <= i < |checks| && FirstAt(w, checks, v, i)
  }

  ghost predicate FirstAt(w: World, checks: seq<CheckConfig>, v: ScanVerdict, i: nat)
    requires i < |checks|
  {
    && Weight(w, checks[i]) == Greatest(w, checks) && Contribution(w, checks[i]) == Some(v)
    && forall j :: 0 <= j < i ==> Weight(w, checks[j]) < Greatest(w, checks)
  }

  /** `v` is the verdict of a scan with this configuration. */
  ghost predicate Verdict(w: World, checks: seq<CheckConfig>, v: ScanVerdict) {
    FirstOfGreatest(w, ConfiguredChecks(checks), v)
  }

  lemma {:induction false} GreatestIs(w: World, checks: seq<CheckConfig>)
    ensures forall i :: 0 <= i < |checks| ==> Weight(w, checks[i]) <= Greatest(w, checks)
    ensures Greatest(w, checks) > 0 ==> exists i :: 0 <= i < |checks| && Weight(w, checks[i]) == Greatest(w, checks)
  {
    hide Weight;
    if checks != [] {
      var front := checks[..|checks| - 1];
      GreatestIs(w, front);
      if Greatest(w, front) == Greatest(w, checks) > 0 {
        var i :| 0 <= i < |front| && Weight(w, front[i]) == Greatest(w, front);
        assert Weight(w, checks[i]) == Greatest(w, checks);
      }
    }
  }

  lemma GreatestFound(w: World, checks: seq<CheckConfig>, k: nat)
    requires k < |checks|
    requires forall i :: 0 <= i < |checks| ==> Weight(w, checks[i]) <= Weight(w, checks[k])
    ensures Greatest(w, checks) == Weight(w, checks[k])
  {
    hide Weight;
    GreatestIs(w, checks);
  }

  /** Runs the configured checks in order; stops at the first Unsafe verdict. */
  method Scan(w: World, config: seq<CheckConfig>) returns (v: ScanVerdict)
    ensures Verdict(w, config, v)
  {
    hide Contribution;
    var checks := ConfiguredChecks(config);
    var review: Option<ScanVerdict> := None;
    ghost var at: nat := 0;
    for i := 0 to |checks|
      invariant forall j :: 0 <= j < i ==> Weight(w, checks[j]) < 2
      invariant review.None? ==> forall j :: 0 <= j < i ==> Weight(w, checks[j]) == 0
      invariant review.Some? ==> at < i && Contribution(w, checks[at]) == review && Weight(w, checks[at]) == 1
      invariant review.Some? ==> forall j :: 0 <= j < at ==> Weight(w, checks[j]) == 0
    {
      var next := Contribution(w, checks[i]);
      if next.Some? {
        match next.value
        case Clean =>
        case Review(_) =>
          if review.None? {
            review := next;
            at := i;
          }
        case Unsafe(_) =>
          GreatestFound(w, checks, i);
          assert FirstAt(w, checks, next.value, i);
          return next.value;
      }
    }
    GreatestIs(w, checks);
    if review.Some? {
      GreatestFound(w, checks, at);
      assert FirstAt(w, checks, review.value, at);
      return review.value;
    }
    return Clean;
  }

  /** The verdict is determined, and is as severe as the most severe contribution. */
  lemma VerdictIsDetermined(w: World, checks: seq<CheckConfig>, v: ScanVerdict, v': ScanVerdict)
    requires Verdict(w, checks, v) && Verdict(w, checks, v')
    ensures v == v' && Severity(v) == Greatest(w, ConfiguredChecks(checks))
  {
    hide Contribution;
    var all := ConfiguredChecks(checks);
    if Greatest(w, all) > 0 {
      var i :| 0 <= i < |all| && FirstAt(w, all, v, i);
      var i' :| 0 <= i' < |all| && FirstAt(w, all, v', i');
      assert i == i';
    }
  }

  /** What a single remote check decides, by its reply. */
  lemma RemoteCheckDecides(w: World, url: string, failClosed: bool, v: ScanVerdict)
    requires Verdict(w, [RemoteHttp(url, failClosed)], v)
    ensures match w.remote(url)
            case None => v == if failClosed then Unsafe("remote security check unavailable") else Clean
            case Some(reply) =>
              && (v == Clean <==> reply.verdict == "clean")
              && (v.Review? <==> reply.verdict == "review")
              && (v.Unsafe? <==> reply.verdict != "clean" && reply.verdict != "review")
              && (v.Review? ==> v.reason == if reply.reason.Some? then reply.reason.value else "remote review")
              && (v.Unsafe? ==> v.reason == if reply.reason.Some? then reply.reason.value else "remote unsafe")
  {
    OneCheckDecides(w, RemoteHttp(url, failClosed), v);
  }

  /** What a single policy decides: its own verdict, if it gives one. */
  lemma PolicyDecides(w: World, path: string, failClosed: bool, maxCallstack: nat, v: ScanVerdict)
    requires Verdict(w, [Starlark(path, failClosed, maxCallstack)], v)
    ensures match w.starlark(path, maxCallstack)
            case Success(verdict) => v == verdict
            case Failure(err) => if failClosed then v == Unsafe("starlark security check failed: " + err) else v == Clean
  {
    OneCheckDecides(w, Starlark(path, failClosed, maxCallstack), v);
  }

  lemma OneCheckDecides(w: World, c: CheckConfig, v: ScanVerdict)
    requires Verdict(w, [c], v)
    ensures v == if Contribution(w, c).Some? then Contribution(w, c).value else Clean
  {
    hide Contribution;
    GreatestFound(w, [c], 0);
    if Greatest(w, [c]) > 0 {
      var i :| 0 <= i < |[c]| && FirstAt(w, [c], v, i);
      assert [c][i] == c;
    } else {
      assert Weight(w, c) == 0;
    }
  }

  /** Every configuration has a verdict. */
  lemma VerdictExists(w: World, checks: seq<CheckConfig>)
    ensures exists v :: Verdict(w, checks, v)
  {
    hide Contribution;
    var all := ConfiguredChecks(checks);
    if Greatest(w, all) == 0 {
      assert Verdict(w, checks, Clean);
    } else {
      GreatestIs(w, all);
      var i :| 0 <= i < |all| && Weight(w, all[i]) == Greatest(w, all);
      var first := FirstWith(w, all, i);
      var v := Contribution(w, all[first]).value;
      assert FirstAt(w, all, v, first);
      assert Verdict(w, checks, v);
    }
  }

  lemma {:induction false} FirstWith(w: World, checks: seq<CheckConfig>, i: nat) returns (first: nat)
    requires i < |checks| && Weight(w, checks[i]) == Greatest(w, checks)
    ensures first <= i && Weight(w, checks[first]) == Greatest(w, checks)
    ensures forall j :: 0 <= j < first ==> Weight(w, checks[j]) < Greatest(w, checks)
  {
    hide Weight, Greatest;
    GreatestIs(w, checks);
    if j :| 0 <= j < i && Weight(w, checks[j]) == Greatest(w, checks) {
      first := FirstWith(w, checks, j);
    } else {
      first := i;
    }
  }

  lemma SubsetGreatest(w: World, less: seq<CheckConfig>, more: seq<CheckConfig>)
    requires multiset(less) <= multiset(more)
    ensures Greatest(w, less) <= Greatest(w, more)
  {
    hide Weight;
    GreatestIs(w, less);
    GreatestIs(w, more);
    if Greatest(w, less) > 0 {
      var i :| 0 <= i < |less| && Weight(w, less[i]) == Greatest(w, less);
      assert less[i] in multiset(less);
      assert less[i] in multiset(more);
      var j :| 0 <= j < |more| && more[j] == less[i];
    }
  }

  // ----- changing the configuration -----

  /** Whatever the checks find, this change of the configuration never makes the verdict milder. */
  ghost predicate NeverMilder(checks: seq<CheckConfig>, checks': seq<CheckConfig>) {
    forall w: World, v: ScanVerdict, v': ScanVerdict ::
      Verdict(w, checks, v) && Verdict(w, checks', v') ==> Severity(v) <= Severity(v')
  }

  lemma GreaterIsNotMilder(checks: seq<CheckConfig>, checks': seq<CheckConfig>)
    requires forall w: World :: Greatest(w, ConfiguredChecks(checks)) <= Greatest(w, ConfiguredChecks(checks'))
    ensures NeverMilder(checks, checks')
  {
    hide Verdict, Greatest, ConfiguredChecks;
    forall w: World, v: ScanVerdict, v': ScanVerdict | Verdict(w, checks, v) && Verdict(w, checks', v')
      ensures Severity(v) <= Severity(v')
    {
      VerdictIsDetermined(w, checks, v, v);
      VerdictIsDetermined(w, checks', v', v');
    }
  }

  /** Reordering the checks may change the reason, never the severity. */
  lemma OrderKeepsSeverity(checks: seq<CheckConfig>, checks': seq<CheckConfig>)
    requires multiset(checks) == multiset(checks')
    ensures NeverMilder(checks, checks') && NeverMilder(checks', checks)
  {
    hide NeverMilder, Greatest;
    assert |multiset(checks)| == |checks| && |multiset(checks')| == |checks'|;
    forall w: World
      ensures Greatest(w, ConfiguredChecks(checks)) == Greatest(w, ConfiguredChecks(checks'))
    {
      SubsetGreatest(w, ConfiguredChecks(checks), ConfiguredChecks(checks'));
      SubsetGreatest(w, ConfiguredChecks(checks'), ConfiguredChecks(checks));
    }
    GreaterIsNotMilder(checks, checks');
    GreaterIsNotMilder(checks', checks);
  }

  /** A world in which only the built-in policy fails, and all else is clean. */
  const DEFAULT_FAILS: World :=
    World(url => Some(RemoteReply("clean", None)),
          (path, maxCallstack) =>
            if path == DEFAULT_CHECK.path && maxCallstack == DEFAULT_CHECK.maxCallstack then Failure("") else Success(Clean))

  lemma {:induction false} AllElseClean(checks: seq<CheckConfig>)
    requires DEFAULT_CHECK !in checks
    ensures Greatest(DEFAULT_FAILS, checks) == 0
  {
    if checks != [] {
      var front, c := checks[..|checks| - 1], checks[|checks| - 1];
      AllElseClean(front);
      assert c in checks;
      assert Weight(DEFAULT_FAILS, c) == 0;
    }
  }

  /**
   Adding checks, wherever, never makes the verdict milder - unless they are the
   first ones configured and the built-in policy they replace is not among them.
   */
  lemma MoreChecksNotMilder(checks: seq<CheckConfig>, more: seq<CheckConfig>)
    requires multiset(checks) <= multiset(more)
    ensures NeverMilder(checks, more) <==> checks != [] || more == [] || DEFAULT_CHECK in more
  {
    hide NeverMilder, Greatest;
    if checks != [] || more == [] || DEFAULT_CHECK in more {
      assert checks != [] ==> checks[0] in multiset(checks);
      forall w: World
        ensures Greatest(w, ConfiguredChecks(checks)) <= Greatest(w, ConfiguredChecks(more))
      {
        SubsetGreatest(w, ConfiguredChecks(checks), ConfiguredChecks(more));
      }
      GreaterIsNotMilder(checks, more);
    } else {
      FirstCheckCanBeMilder(more);
    }
  }

  /** In the excluded case the scan turns from Unsafe to Clean where the built-in policy fails and the new checks are clean. */
  lemma FirstCheckCanBeMilder(more: seq<CheckConfig>)
    requires more != [] && DEFAULT_CHECK !in more
    ensures !NeverMilder([], more)
    ensures Verdict(DEFAULT_FAILS, [], Unsafe("starlark security check failed: ")) && Verdict(DEFAULT_FAILS, more, Clean)
  {
    AllElseClean(more);
    var unsafe := Unsafe("starlark security check failed: ");
    assert unsafe.reason + "" == unsafe.reason;
    assert Contribution(DEFAULT_FAILS, DEFAULT_CHECK) == Some(unsafe);
    GreatestFound(DEFAULT_FAILS, [DEFAULT_CHECK], 0);
    assert FirstAt(DEFAULT_FAILS, ConfiguredChecks([]), unsafe, 0);
    assert Verdict(DEFAULT_FAILS, [], unsafe);
    assert Verdict(DEFAULT_FAILS, more, Clean);
  }

  /** Switching a check to fail closed never makes the verdict milder, and then its failure makes it Unsafe. */
  lemma FailClosedNotMilder(checks: seq<CheckConfig>, k: nat)
    requires k < |checks|
    ensures var closed := checks[k := checks[k].(failClosed := true)];
            && NeverMilder(checks, closed)
            && forall w: World, v :: Fails(w, checks[k]) && Verdict(w, closed, v) ==> v.Unsafe?
  {
    hide NeverMilder;
    var closed := checks[k := checks[k].(failClosed := true)];
    forall w: World
      ensures Greatest(w, ConfiguredChecks(checks)) <= Greatest(w, ConfiguredChecks(closed))
    {
      ClosedIsGreater(w, checks, k);
    }
    GreaterIsNotMilder(checks, closed);
    forall w: World, v | Fails(w, checks[k]) && Verdict(w, closed, v)
      ensures v.Unsafe?
    {
      ClosedIsGreater(w, checks, k);
      VerdictIsDetermined(w, closed, v, v);
    }
  }

  lemma ClosedIsGreater(w: World, checks: seq<CheckConfig>, k: nat)
    requires k < |checks|
    ensures var closed := checks[k := checks[k].(failClosed := true)];
            && Greatest(w, checks) <= Greatest(w, closed)
            && (Fails(w, checks[k]) ==> Greatest(w, closed) >= 2)
  {
    hide Greatest;
    var closed := checks[k := checks[k].(failClosed := true)];
    GreatestIs(w, checks);
    GreatestIs(w, closed);
    assert forall i :: 0 <= i < |checks| ==> Weight(w, checks[i]) <= Weight(w, closed[i]);
    if Greatest(w, checks) > 0 {
      var i :| 0 <= i < |checks| && Weight(w, checks[i]) == Greatest(w, checks);
      assert Weight(w, checks[i]) <= Weight(w, closed[i]);
    }
    assert Weight(w, closed[k]) <= Greatest(w, closed);
  }

  // ----- the bounded cache of compiled patterns -----

  const MAX_ENTRIES: nat := 256

  /** Compiled patterns, and errors, by pattern text; full once it holds 256 of them. */
  class RegexCache<R> {
    const compile: string -> Result<R, string>
    const isMatch: (R, string) -> bool
    var entries: map<string, Result<R, string>>

    ghost predicate Valid()
      reads this
    {
      |entries| <= MAX_ENTRIES && forall p :: p in entries ==> entries[p] == compile(p)
    }

    constructor (compile: string -> Result<R, string>, isMatch: (R, string) -> bool)
      ensures Valid() && entries == map[]
      ensures this.compile == compile && this.isMatch == isMatch
    {
      this.compile, this.isMatch, this.entries := compile, isMatch, map[];
    }

    /** The first critical section: what is cached for the pattern. */
    method Find(pattern: string) returns (cached: Option<Result<R, string>>)
      requires Valid()
      ensures cached == if pattern in entries then Some(entries[pattern]) else None
      ensures cached.Some? ==> cached.value == compile(pattern)
    {
      cached := if pattern in entries then Some(entries[pattern]) else None;
    }

    /** The second one: an entry made meanwhile is used; otherwise one is added while there is room. */
    method Remember(pattern: string, compiled: Result<R, string>) returns (cached: Result<R, string>)
      requires Valid() && compiled == compile(pattern)
      modifies this
      ensures Valid()
      ensures cached == compiled
      ensures entries == if pattern in old(entries) || |old(entries)| == MAX_ENTRIES then old(entries)
                         else old(entries)[pattern := compiled]
    {
      if pattern in entries {
        return entries[pattern];
      }
      if |entries| < MAX_ENTRIES {
        entries := entries[pattern := compiled];
      }
      return compiled;
    }

    /**
     Matching with the cache is matching without it.  Neither critical section
     relies on more than `Valid`, which every call keeps, so what other calls do
     between the two does not matter.
     */
    method Match(pattern: string, content: string) returns (r: Result<bool, string>)
      requires Valid()
      modifies this
      ensures Valid()
      ensures r == match compile(pattern)
                   case Success(regex) => Success(isMatch(regex, content))
                   case Failure(e) => Failure("invalid regex '" + pattern + "': " + e)
      ensures entries == if pattern in old(entries) || |old(entries)| == MAX_ENTRIES then old(entries)
                         else old(entries)[pattern := compile(pattern)]
    {
      var found := Find(pattern);
      var cached;
      if found.Some? {
        cached := found.value;
      } else {
        cached := Remember(pattern, compile(pattern));
      }
      match cached
      case Success(regex) => return Success(isMatch(regex, content));
      case Failure(e) => return Failure("invalid regex '" + pattern + "': " + e);
    }
  }
}

/**
 One fetch through the adversary detector, run without interruption.

 The web server, the scanner and the clocks are parameters of a call: what the
 server answers, what the scanner would say about it, and the instants at which
 the limiter, the lookup and the final store are reached.
 */
module Detector {
  import opened Results
  import opened Verdicts
  import opened DigestStore
  import RL = RateLimiter

  datatype Config = Config(
    hash: string -> string,
    overrideOnReview: bool,
    ttlSecs: u64,
    skipProtected: string -> bool)
  {
    /** A TTL of zero means that entries never expire. */
    function MaxAge(): Option<u64> {
      if ttlSecs == 0 then None else Some(ttlSecs)
    }
  }

  datatype FetchResult =
    | Ok(content: string, digest: string)
    | Blocked(reason: string, digest: string, url: string)
    | Review(content: string, reason: string, digest: string)

  function RateLimited(url: string): FetchResult {
    FetchResult.Blocked("Rate limit exceeded.", "", url)
  }

  function FetchFailed(url: string): FetchResult {
    FetchResult.Blocked("HTTP fetch failed", "", url)
  }

  function Annotated(reason: string, content: string): string {
    "[\U{26A0} ADVERSARY REVIEW: " + reason + "]\n" + content
  }

  /** How a verdict on `content` is shown to the caller. */
  function ResultFromVerdict(config: Config, verdict: ScanVerdict, content: string, url: string, approved: bool): FetchResult {
    var digest := config.hash(content);
    if approved then FetchResult.Ok(content, digest)
    else match verdict
      case Clean => FetchResult.Ok(content, digest)
      case Review(reason) =>
        if config.overrideOnReview then FetchResult.Ok(content, digest)
        else FetchResult.Review(Annotated(reason, content), reason, digest)
      case Unsafe(reason) => FetchResult.Blocked(reason, digest, url)
  }

  /** The stored entry answers for `content`: same digest, not too old. */
  predicate Hit(config: Config, entries: Entries, url: string, content: string, now: int) {
    var found := Lookup(entries, url, config.MaxAge(), now);
    found.Some? && found.value.sha256 == config.hash(content)
  }

  function CachedResult(config: Config, entries: Entries, url: string, content: string): FetchResult
    requires url in entries
  {
    ResultFromVerdict(config, entries[url].verdict, content, url, entries[url].overrideApproved)
  }

  function FreshEntry(config: Config, content: string, verdict: ScanVerdict, now: int): ContentDigest {
    ContentDigest(config.hash(content), verdict, now, false)
  }

  /** Everything one fetch meets outside the detector. */
  datatype Visit = Visit(
    url: string,
    admitted: bool,
    arrival: Option<string>,
    verdict: ScanVerdict,
    lookupAt: int,
    storeAt: int)

  /** The fetch gets content and does not skip the scan. */
  predicate Reaches(config: Config, v: Visit) {
    v.admitted && v.arrival.Some? && !config.skipProtected(v.url)
  }

  function FetchResultOf(config: Config, entries: Entries, v: Visit): FetchResult {
    if !v.admitted then RateLimited(v.url)
    else if v.arrival.None? then FetchFailed(v.url)
    else if config.skipProtected(v.url) then FetchResult.Ok(v.arrival.value, config.hash(v.arrival.value))
    else if Hit(config, entries, v.url, v.arrival.value, v.lookupAt) then
      CachedResult(config, entries, v.url, v.arrival.value)
    else ResultFromVerdict(config, v.verdict, v.arrival.value, v.url, false)
  }

  function EntriesAfter(config: Config, entries: Entries, v: Visit): Entries {
    if Reaches(config, v) && !Hit(config, entries, v.url, v.arrival.value, v.lookupAt) then
      entries[v.url := FreshEntry(config, v.arrival.value, v.verdict, v.storeAt)]
    else entries
  }

  // ----- what a caller sees -----

  predicate EndsWith(s: string, end: string) {
    |end| <= |s| && s[|s| - |end|..] == end
  }

  ghost predicate Contains(s: string, part: string) {
    exists i :: 0 <= i <= |s| - |part| && PartAt(s, part, i)
  }

  predicate PartAt(s: string, part: string, i: nat) {
    i + |part| <= |s| && s[i..i + |part|] == part
  }

  /**
   This result shows the content for this verdict: passed on as it is, passed on
   behind a warning that gives the reason, or withheld for that reason.
   */
  ghost predicate Shows(config: Config, r: FetchResult, content: string, url: string, verdict: ScanVerdict, approved: bool) {
    var digest := config.hash(content);
    if approved || verdict.Clean? || (verdict.Review? && config.overrideOnReview) then
      r == FetchResult.Ok(content, digest)
    else if verdict.Review? then
      && r.Review? && r.reason == verdict.reason && r.digest == digest
      && EndsWith(r.content, content) && Contains(r.content[..|r.content| - |content|], verdict.reason)
    else
      r == FetchResult.Blocked(verdict.reason, digest, url)
  }

  lemma ResultShows(config: Config, verdict: ScanVerdict, content: string, url: string, approved: bool)
    ensures Shows(config, ResultFromVerdict(config, verdict, content, url, approved), content, url, verdict, approved)
  {
    if !approved && verdict.Review? && !config.overrideOnReview {
      WarningShows(verdict.reason, content);
    }
  }

  lemma WarningShows(reason: string, content: string)
    ensures var s := Annotated(reason, content);
            EndsWith(s, content) && Contains(s[..|s| - |content|], reason)
  {
    var start := "[\U{26A0} ADVERSARY REVIEW: ";
    var warning := start + reason + "]\n";
    assert Annotated(reason, content) == warning + content;
    assert (warning + content)[..|warning|] == warning;
    assert PartAt(warning, reason, |start|);
  }

  /** An entry stored at `timestamp` may be used at `now`; a TTL of zero never expires, a huge one always. */
  predicate InTime(ttlSecs: u64, timestamp: int, now: int) {
    || ttlSecs == 0
    || (ttlSecs < I64_SIZE && now - timestamp < (ttlSecs + 1) * SECOND)
    || (ttlSecs >= I64_SIZE && timestamp - now >= (2 * I64_SIZE - ttlSecs) * SECOND)
  }

  lemma UsableIsInTime(config: Config, timestamp: int, now: int)
    ensures Usable(config.MaxAge(), timestamp, now) <==> InTime(config.ttlSecs, timestamp, now)
  {
    UsableBounds(config.MaxAge(), timestamp, now);
    if config.ttlSecs >= I64_SIZE {
      HugeTtlBounds(config.ttlSecs, timestamp, now);
    }
  }

  predicate IsStored(config: Config, entries: Entries, url: string, content: string, now: int) {
    url in entries && entries[url].sha256 == config.hash(content) && InTime(config.ttlSecs, entries[url].timestamp, now)
  }

  /** What one fetch answers and leaves in the store, case by case. */
  ghost predicate Answers(config: Config, entries: Entries, v: Visit, r: FetchResult, after: Entries) {
    if !v.admitted then
      after == entries && r.Blocked? && "Rate limit exceeded." <= r.reason && r.digest == "" && r.url == v.url
    else if v.arrival.None? then
      after == entries && r.Blocked? && "HTTP fetch failed" <= r.reason && r.digest == "" && r.url == v.url
    else
      var content := v.arrival.value;
      var digest := config.hash(content);
      if config.skipProtected(v.url) then
        after == entries && r == FetchResult.Ok(content, digest)
      else if IsStored(config, entries, v.url, content, v.lookupAt) then
        after == entries && Shows(config, r, content, v.url, entries[v.url].verdict, entries[v.url].overrideApproved)
      else
        && after == entries[v.url := ContentDigest(digest, v.verdict, v.storeAt, false)]
        && Shows(config, r, content, v.url, v.verdict, false)
  }

  lemma FetchAnswers(config: Config, entries: Entries, v: Visit)
    ensures Answers(config, entries, v, FetchResultOf(config, entries, v), EntriesAfter(config, entries, v))
  {
    hide Shows, ResultFromVerdict, Usable, InTime;
    if Reaches(config, v) {
      var content := v.arrival.value;
      if v.url in entries {
        UsableIsInTime(config, entries[v.url].timestamp, v.lookupAt);
        ResultShows(config, entries[v.url].verdict, content, v.url, entries[v.url].overrideApproved);
      }
      ResultShows(config, v.verdict, content, v.url, false);
    }
  }

  class AdversaryDetector {
    const config: Config
    const limiter: RL.RateLimiter
    const store: DigestStore

    constructor (config: Config, limiter: RL.RateLimiter, store: DigestStore)
      ensures this.config == config && this.limiter == limiter && this.store == store
    {
      this.config := config;
      this.limiter := limiter;
      this.store := store;
    }

    /** Fetches `url`, whose host is `host` (empty when it has none); the host is checked first. */
    method Fetch(url: string, host: string, instant: nat, arrival: Option<string>, verdict: ScanVerdict,
                 lookupAt: int, storeAt: int)
      returns (r: FetchResult, ghost admitted: bool, ghost removed: set<string>)
      modifies limiter, store
      ensures host == "" ==> admitted && limiter.buckets == old(limiter.buckets)
      ensures host != "" ==>
                && RL.EvictionOf(old(limiter.buckets), removed)
                && admitted == RL.Granted(limiter.config, old(limiter.buckets), host, instant, removed)
                && limiter.buckets == RL.AfterCheck(limiter.config, old(limiter.buckets), host, instant, removed)
      ensures var v := Visit(url, admitted, arrival, verdict, lookupAt, storeAt);
              && r == FetchResultOf(config, old(store.entries), v)
              && store.entries == EntriesAfter(config, old(store.entries), v)
              && Answers(config, old(store.entries), v, r, store.entries)
    {
      hide Answers;
      forall v {
        FetchAnswers(config, store.entries, v);
      }
      admitted := true;
      removed := {};
      if host != "" {
        var ok;
        ok, removed := limiter.Check(host, instant);
        admitted := ok;
        if !ok {
          return RateLimited(url), admitted, removed;
        }
      }

      if config.skipProtected(url) {
        r := if arrival.None? then FetchFailed(url) else FetchResult.Ok(arrival.value, config.hash(arrival.value));
        return;
      }

      if arrival.None? {
        return FetchFailed(url), admitted, removed;
      }
      var content := arrival.value;
      var digest := config.hash(content);

      var entry := store.Get(url, config.MaxAge(), lookupAt);
      if entry.Some? && entry.value.sha256 == digest {
        r := ResultFromVerdict(config, entry.value.verdict, content, url, entry.value.overrideApproved);
        return;
      }

      store.Set(url, ContentDigest(digest, verdict, storeAt, false));
      r := ResultFromVerdict(config, verdict, content, url, false);
    }

    method MarkOverride(url: string, digest: string)
      modifies store
      ensures store.entries == Approve(old(store.entries), url, digest)
    {
      store.MarkOverride(url, digest);
    }
  }

  // ----- fetches and approvals one after another -----

  datatype Call = Fetched(visit: Visit) | Approved(url: string, digest: string)

  function EntriesAt(config: Config, start: Entries, calls: seq<Call>, n: nat): Entries
    requires n <= |calls|
  {
    if n == 0 then start
    else
      var before := EntriesAt(config, start, calls, n - 1);
      match calls[n - 1]
      case Fetched(v) => EntriesAfter(config, before, v)
      case Approved(url, digest) => Approve(before, url, digest)
  }

  /** Call `i` fetches `url` and gets as far as the digest lookup. */
  predicate LooksUp(config: Config, calls: seq<Call>, i: nat, url: string)
    requires i < |calls|
  {
    calls[i].Fetched? && calls[i].visit.url == url && Reaches(config, calls[i].visit)
  }

  /** Fetch `i` finds the content that `entry` describes, and finds it in time. */
  predicate SameInTime(config: Config, calls: seq<Call>, i: nat, entry: ContentDigest)
    requires i < |calls| && calls[i].Fetched? && calls[i].visit.arrival.Some?
  {
    var v := calls[i].visit;
    config.hash(v.arrival.value) == entry.sha256 && Usable(config.MaxAge(), entry.timestamp, v.lookupAt)
  }

  /**
   While every fetch of an approved URL finds the same content in time, nothing
   changes its entry - not even its timestamp - and each of these fetches
   passes the content through.
   */
  lemma {:induction false} OverrideLasts(config: Config, start: Entries, calls: seq<Call>, url: string, n: nat)
    requires n <= |calls| && url in start && start[url].overrideApproved
    requires forall i :: 0 <= i < n && LooksUp(config, calls, i, url) ==> SameInTime(config, calls, i, start[url])
    ensures url in EntriesAt(config, start, calls, n) && EntriesAt(config, start, calls, n)[url] == start[url]
    ensures n < |calls| && LooksUp(config, calls, n, url) && SameInTime(config, calls, n, start[url]) ==>
              var content := calls[n].visit.arrival.value;
              FetchResultOf(config, EntriesAt(config, start, calls, n), calls[n].visit)
              == FetchResult.Ok(content, start[url].sha256)
  {
    if n > 0 {
      OverrideLasts(config, start, calls, url, n - 1);
      assert LooksUp(config, calls, n - 1, url) ==> SameInTime(config, calls, n - 1, start[url]);
    }
  }

  /**
   The first fetch that finds other content, or the same content too late,
   drops the approval: it is answered by its own verdict, and the URL stays
   unapproved until someone approves the digest then stored.
   */
  lemma {:induction false} OverrideDropped(config: Config, start: Entries, calls: seq<Call>, url: string, i: nat, n: nat)
    requires i < n <= |calls| && LooksUp(config, calls, i, url)
    requires url in EntriesAt(config, start, calls, i)
    requires !SameInTime(config, calls, i, EntriesAt(config, start, calls, i)[url])
    requires forall j :: i < j < n && calls[j].Approved? && calls[j].url == url ==>
               url in EntriesAt(config, start, calls, j) && calls[j].digest != EntriesAt(config, start, calls, j)[url].sha256
    ensures var v := calls[i].visit;
            FetchResultOf(config, EntriesAt(config, start, calls, i), v)
            == ResultFromVerdict(config, v.verdict, v.arrival.value, url, false)
    ensures url in EntriesAt(config, start, calls, n) && !EntriesAt(config, start, calls, n)[url].overrideApproved
  {
    if n > i + 1 {
      OverrideDropped(config, start, calls, url, i, n - 1);
    }
  }
}

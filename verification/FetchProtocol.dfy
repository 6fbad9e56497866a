/**
 Concurrent fetches and approvals.

 Each fetch runs through atomic steps: the rate check, the arrival of content,
 the lookup under the store lock, the scan outside it, the store under it.  A
 run is any list of actions; an action that is not possible has no effect.  A
 log records cache misses, scans, stores, approvals and returned results, and the
 theorems justify every returned result from the log before it.
 */
module FetchProtocol {
  import opened Results
  import opened Verdicts
  import opened DigestStore
  import opened Detector

  datatype Phase =
    | Admitted
    | Arrived(content: string)
    | Missed(content: string)
    | Scanned(content: string, verdict: ScanVerdict)
    | Done

  datatype Fetch = Fetch(url: string, phase: Phase)

  datatype How = ByRateLimit | ByFailure | BySkipList | ByCache(at: int) | ByScan

  datatype Event =
    | CacheMiss(id: nat, url: string, content: string, at: int)
    | ScanDone(id: nat, url: string, content: string, verdict: ScanVerdict)
    | Stored(id: nat, url: string, digest: string, verdict: ScanVerdict, at: int)
    | Approval(url: string, digest: string)
    | Returned(id: nat, url: string, content: string, result: FetchResult, how: How)

  datatype State = State(entries: Entries, fetches: map<nat, Fetch>, log: seq<Event>)

  datatype Action =
    | Begin(id: nat, url: string, allowed: bool)
    | Fail(id: nat)
    | Arrive(id: nat, content: string)
    | LookUp(id: nat, now: int)
    | Scan(id: nat, verdict: ScanVerdict)
    | Persist(id: nat, now: int)
    | MarkOverride(url: string, digest: string)

  const INITIAL := State(map[], map[], [])

  function Finish(s: State, id: nat, url: string, content: string, result: FetchResult, how: How): State {
    s.(fetches := s.fetches[id := Fetch(url, Done)], log := s.log + [Returned(id, url, content, result, how)])
  }

  function Advance(s: State, id: nat, url: string, phase: Phase): State {
    s.(fetches := s.fetches[id := Fetch(url, phase)])
  }

  function Next(config: Config, s: State, a: Action): State {
    match a
    case Begin(id, url, allowed) =>
      if id in s.fetches then s
      else if allowed then Advance(s, id, url, Admitted)
      else Finish(s, id, url, "", RateLimited(url), ByRateLimit)
    case Fail(id) =>
      if id !in s.fetches || !s.fetches[id].phase.Admitted? then s
      else Finish(s, id, s.fetches[id].url, "", FetchFailed(s.fetches[id].url), ByFailure)
    case Arrive(id, content) =>
      if id !in s.fetches || !s.fetches[id].phase.Admitted? then s
      else
        var url := s.fetches[id].url;
        if config.skipProtected(url) then
          Finish(s, id, url, content, FetchResult.Ok(content, config.hash(content)), BySkipList)
        else Advance(s, id, url, Arrived(content))
    case LookUp(id, now) =>
      if id !in s.fetches || !s.fetches[id].phase.Arrived? then s
      else
        var url, content := s.fetches[id].url, s.fetches[id].phase.content;
        if Hit(config, s.entries, url, content, now) then
          Finish(s, id, url, content, CachedResult(config, s.entries, url, content), ByCache(now))
        else
          var s' := Advance(s, id, url, Missed(content));
          s'.(log := s.log + [CacheMiss(id, url, content, now)])
    case Scan(id, verdict) =>
      if id !in s.fetches || !s.fetches[id].phase.Missed? then s
      else
        var url, content := s.fetches[id].url, s.fetches[id].phase.content;
        var s' := Advance(s, id, url, Scanned(content, verdict));
        s'.(log := s.log + [ScanDone(id, url, content, verdict)])
    case Persist(id, now) =>
      if id !in s.fetches || !s.fetches[id].phase.Scanned? then s
      else
        var url, content, verdict := s.fetches[id].url, s.fetches[id].phase.content, s.fetches[id].phase.verdict;
        var entry := FreshEntry(config, content, verdict, now);
        var s' := State(s.entries[url := entry], s.fetches, s.log + [Stored(id, url, entry.sha256, verdict, now)]);
        Finish(s', id, url, content, ResultFromVerdict(config, verdict, content, url, false), ByScan)
    case MarkOverride(url, digest) =>
      State(Approve(s.entries, url, digest), s.fetches, s.log + [Approval(url, digest)])
  }

  function After(config: Config, actions: seq<Action>, n: nat): State
    requires n <= |actions|
  {
    if n == 0 then INITIAL else Next(config, After(config, actions, n - 1), actions[n - 1])
  }

  // ----- what the log says -----

  predicate StoredAt(log: seq<Event>, url: string, i: int) {
    0 <= i < |log| && log[i].Stored? && log[i].url == url
  }

  /** Store `i` is the latest store for its URL. */
  ghost predicate LastStored(log: seq<Event>, url: string, i: int) {
    StoredAt(log, url, i) && forall j :: i < j < |log| ==> !StoredAt(log, url, j)
  }

  ghost predicate ApprovedSince(log: seq<Event>, url: string, digest: string, i: nat) {
    exists j :: i <= j < |log| && log[j] == Approval(url, digest)
  }

  /** Some scan of content with this digest, served from this URL, gave this verdict. */
  ghost predicate ScannedAs(config: Config, log: seq<Event>, url: string, digest: string, verdict: ScanVerdict) {
    exists j :: 0 <= j < |log| && IsScan(config, log[j], url, digest, verdict)
  }

  predicate IsScan(config: Config, e: Event, url: string, digest: string, verdict: ScanVerdict) {
    e.ScanDone? && e.url == url && config.hash(e.content) == digest && e.verdict == verdict
  }

  /** The entry that the store made at `i` has become by the end of the log. */
  ghost function EntryFrom(log: seq<Event>, i: nat): ContentDigest
    requires i < |log| && log[i].Stored?
  {
    ContentDigest(log[i].digest, log[i].verdict, log[i].at, ApprovedSince(log, log[i].url, log[i].digest, i))
  }

  /** The store holds exactly the latest stores of the log, approved exactly as the log says. */
  ghost predicate StoreMatches(entries: Entries, log: seq<Event>) {
    && (forall url, i :: LastStored(log, url, i) ==> url in entries && entries[url] == EntryFrom(log, i))
    && (forall url :: url in entries ==> exists i :: LastStored(log, url, i))
  }

  /** At cache miss `e` the latest store for the URL, if any, was of another digest or too old. */
  ghost predicate Genuine(config: Config, before: seq<Event>, e: Event)
    requires e.CacheMiss?
  {
    forall i :: LastStored(before, e.url, i) ==>
      before[i].digest != config.hash(e.content) || !Usable(config.MaxAge(), before[i].at, e.at)
  }

  predicate IsMiss(e: Event, id: nat, url: string, content: string) {
    e.CacheMiss? && e.id == id && e.url == url && e.content == content
  }

  /** This fetch missed the cache, for good reason. */
  ghost predicate MissedCache(config: Config, log: seq<Event>, id: nat, url: string, content: string) {
    exists m :: 0 <= m < |log| && IsMiss(log[m], id, url, content) && Genuine(config, log[..m], log[m])
  }

  /** And was then scanned. */
  ghost predicate MissedAndScanned(config: Config, log: seq<Event>, id: nat, url: string, content: string, verdict: ScanVerdict) {
    exists j :: 0 <= j < |log| && log[j] == ScanDone(id, url, content, verdict) && MissedCache(config, log[..j], id, url, content)
  }

  /** Returned result `e` is accounted for by what was logged before it. */
  ghost predicate Justified(config: Config, before: seq<Event>, e: Event)
    requires e.Returned?
  {
    var digest := config.hash(e.content);
    match e.how
    case ByRateLimit => e.result == RateLimited(e.url)
    case ByFailure => e.result == FetchFailed(e.url)
    case BySkipList => config.skipProtected(e.url) && e.result == FetchResult.Ok(e.content, digest)
    case ByCache(now) =>
      exists i ::
        && LastStored(before, e.url, i)
        && before[i].digest == digest
        && Usable(config.MaxAge(), before[i].at, now)
        && ScannedAs(config, before[..i], e.url, digest, before[i].verdict)
        && e.result == ResultFromVerdict(config, before[i].verdict, e.content, e.url,
                                         ApprovedSince(before, e.url, digest, i))
    case ByScan =>
      exists verdict ::
        && MissedAndScanned(config, before, e.id, e.url, e.content, verdict)
        && e.result == ResultFromVerdict(config, verdict, e.content, e.url, false)
  }

  ghost predicate AllJustified(config: Config, log: seq<Event>) {
    forall k :: 0 <= k < |log| && log[k].Returned? ==> Justified(config, log[..k], log[k])
  }

  /** Each store was preceded by a scan of the same URL and digest with the stored verdict. */
  ghost predicate StoresScanned(config: Config, log: seq<Event>) {
    forall i :: 0 <= i < |log| && log[i].Stored? ==>
      ScannedAs(config, log[..i], log[i].url, log[i].digest, log[i].verdict)
  }

  /** A fetch that is past its lookup missed the cache; one that is about to store was scanned since. */
  ghost predicate Tracked(config: Config, log: seq<Event>, id: nat, f: Fetch) {
    match f.phase
    case Missed(content) => MissedCache(config, log, id, f.url, content)
    case Scanned(content, verdict) => MissedAndScanned(config, log, id, f.url, content, verdict)
    case _ => true
  }

  ghost predicate AllTracked(config: Config, log: seq<Event>, fetches: map<nat, Fetch>) {
    forall id :: id in fetches ==> Tracked(config, log, id, fetches[id])
  }

  ghost predicate Invariant(config: Config, s: State) {
    && StoreMatches(s.entries, s.log)
    && StoresScanned(config, s.log)
    && AllTracked(config, s.log, s.fetches)
    && AllJustified(config, s.log)
  }

  // ----- one more event -----

  lemma StoreIgnores(entries: Entries, log: seq<Event>, e: Event)
    requires StoreMatches(entries, log) && !e.Stored? && !e.Approval?
    ensures StoreMatches(entries, log + [e])
  {
    var log' := log + [e];
    forall url, i | LastStored(log', url, i)
      ensures LastStored(log, url, i) && EntryFrom(log', i) == EntryFrom(log, i)
    {
      assert StoredAt(log, url, i);
      assert forall j :: StoredAt(log, url, j) ==> StoredAt(log', url, j);
      SinceIgnores(log, e, url, log[i].digest, i);
    }
    forall url | url in entries
      ensures exists i :: LastStored(log', url, i)
    {
      var i :| LastStored(log, url, i);
      LastStoredIgnores(log, e, url, i);
    }
  }

  lemma SinceIgnores(log: seq<Event>, e: Event, url: string, digest: string, i: nat)
    requires i < |log| && e != Approval(url, digest)
    ensures ApprovedSince(log + [e], url, digest, i) == ApprovedSince(log, url, digest, i)
  {
    var log' := log + [e];
    if ApprovedSince(log, url, digest, i) {
      var j :| i <= j < |log| && log[j] == Approval(url, digest);
      assert log'[j] == Approval(url, digest);
    }
  }

  lemma LastStoredIgnores(log: seq<Event>, e: Event, url: string, i: nat)
    requires LastStored(log, url, i) && !(e.Stored? && e.url == url)
    ensures LastStored(log + [e], url, i)
  {
    var log' := log + [e];
    assert StoredAt(log', url, i);
    assert forall j :: StoredAt(log', url, j) ==> StoredAt(log, url, j);
  }

  lemma StoreRecorded(entries: Entries, log: seq<Event>, e: Event)
    requires StoreMatches(entries, log) && e.Stored?
    ensures StoreMatches(entries[e.url := ContentDigest(e.digest, e.verdict, e.at, false)], log + [e])
  {
    var log' := log + [e];
    var entries' := entries[e.url := ContentDigest(e.digest, e.verdict, e.at, false)];
    assert StoredAt(log', e.url, |log|);
    assert LastStored(log', e.url, |log|);
    forall url, i | LastStored(log', url, i)
      ensures url in entries' && entries'[url] == EntryFrom(log', i)
    {
      if url != e.url {
        assert StoredAt(log, url, i);
        assert forall j :: StoredAt(log, url, j) ==> StoredAt(log', url, j);
        assert LastStored(log, url, i);
        SinceIgnores(log, e, url, log[i].digest, i);
      }
    }
    forall url | url in entries'
      ensures exists i :: LastStored(log', url, i)
    {
      if url != e.url {
        var i :| LastStored(log, url, i);
        LastStoredIgnores(log, e, url, i);
      }
    }
  }

  lemma ApprovalRecorded(entries: Entries, log: seq<Event>, e: Event)
    requires StoreMatches(entries, log) && e.Approval?
    ensures StoreMatches(Approve(entries, e.url, e.digest), log + [e])
  {
    var log' := log + [e];
    var entries' := Approve(entries, e.url, e.digest);
    forall url, i | LastStored(log', url, i)
      ensures url in entries' && entries'[url] == EntryFrom(log', i)
    {
      assert StoredAt(log, url, i);
      assert forall j :: StoredAt(log, url, j) ==> StoredAt(log', url, j);
      assert LastStored(log, url, i);
      if url == e.url && log[i].digest == e.digest {
        assert log'[|log|] == Approval(url, e.digest);
      } else {
        SinceIgnores(log, e, url, log[i].digest, i);
      }
    }
    forall url | url in entries'
      ensures exists i :: LastStored(log', url, i)
    {
      var i :| LastStored(log, url, i);
      LastStoredIgnores(log, e, url, i);
    }
  }

  /** A new event keeps what is known about earlier ones. */
  lemma LogGrows(config: Config, log: seq<Event>, e: Event)
    requires AllJustified(config, log) && StoresScanned(config, log)
    requires e.Returned? ==> Justified(config, log, e)
    requires e.Stored? ==> ScannedAs(config, log, e.url, e.digest, e.verdict)
    ensures AllJustified(config, log + [e]) && StoresScanned(config, log + [e])
  {
    var log' := log + [e];
    assert log'[..|log|] == log;
    assert forall k :: 0 <= k < |log| ==> log'[k] == log[k] && log'[..k] == log[..k];
  }

  lemma TrackedStays(config: Config, log: seq<Event>, log': seq<Event>, id: nat, f: Fetch)
    requires Tracked(config, log, id, f) && log <= log'
    ensures Tracked(config, log', id, f)
  {
    hide Genuine;
    match f.phase
    case Missed(content) =>
      var m :| 0 <= m < |log| && IsMiss(log[m], id, f.url, content) && Genuine(config, log[..m], log[m]);
      assert log'[m] == log[m] && log'[..m] == log[..m];
    case Scanned(content, verdict) =>
      var j :| 0 <= j < |log| && log[j] == ScanDone(id, f.url, content, verdict)
        && MissedCache(config, log[..j], id, f.url, content);
      assert log'[j] == log[j] && log'[..j] == log[..j];
    case _ =>
  }

  /** The log grows, one fetch may move on, and the others stay as they are. */
  lemma AllStayTracked(config: Config, log: seq<Event>, log': seq<Event>, fetches: map<nat, Fetch>, id: nat, f: Fetch)
    requires AllTracked(config, log, fetches) && log <= log'
    requires Tracked(config, log', id, f)
    ensures AllTracked(config, log', fetches)
    ensures AllTracked(config, log', fetches[id := f])
  {
    hide Tracked;
    forall x | x in fetches
      ensures Tracked(config, log', x, fetches[x])
    {
      TrackedStays(config, log, log', x, fetches[x]);
    }
  }

  lemma FinishKeeps(config: Config, s: State, id: nat, url: string, content: string, result: FetchResult, how: How)
    requires Invariant(config, s)
    requires Justified(config, s.log, Returned(id, url, content, result, how))
    ensures Invariant(config, Finish(s, id, url, content, result, how))
  {
    hide Justified, LastStored, StoresScanned, AllJustified, StoreMatches, AllTracked;
    var e := Returned(id, url, content, result, how);
    StoreIgnores(s.entries, s.log, e);
    LogGrows(config, s.log, e);
    AllStayTracked(config, s.log, s.log + [e], s.fetches, id, Fetch(url, Done));
  }

  lemma AdvanceKeeps(config: Config, s: State, id: nat, url: string, phase: Phase)
    requires Invariant(config, s) && !phase.Missed? && !phase.Scanned?
    ensures Invariant(config, Advance(s, id, url, phase))
  {
    hide AllTracked;
    AllStayTracked(config, s.log, s.log, s.fetches, id, Fetch(url, phase));
  }

  /** One fetch moves on with an event that is neither a store, an approval nor a result. */
  lemma LoggedAdvanceKeeps(config: Config, s: State, id: nat, url: string, phase: Phase, e: Event)
    requires Invariant(config, s) && !e.Stored? && !e.Approval? && !e.Returned?
    requires Tracked(config, s.log + [e], id, Fetch(url, phase))
    ensures Invariant(config, Advance(s, id, url, phase).(log := s.log + [e]))
  {
    hide LastStored, StoresScanned, AllJustified, StoreMatches, AllTracked, Tracked;
    StoreIgnores(s.entries, s.log, e);
    LogGrows(config, s.log, e);
    AllStayTracked(config, s.log, s.log + [e], s.fetches, id, Fetch(url, phase));
  }

  /** What the store does not answer is a genuine miss. */
  lemma MissIsGenuine(config: Config, s: State, id: nat, url: string, content: string, now: int)
    requires StoreMatches(s.entries, s.log) && !Hit(config, s.entries, url, content, now)
    ensures MissedCache(config, s.log + [CacheMiss(id, url, content, now)], id, url, content)
  {
    var e := CacheMiss(id, url, content, now);
    var log' := s.log + [e];
    assert log'[..|s.log|] == s.log && log'[|s.log|] == e;
    assert Genuine(config, s.log, e);
  }

  lemma HitIsJustified(config: Config, s: State, id: nat, url: string, content: string, now: int)
    requires StoreMatches(s.entries, s.log) && StoresScanned(config, s.log) && Hit(config, s.entries, url, content, now)
    ensures Justified(config, s.log, Returned(id, url, content, CachedResult(config, s.entries, url, content), ByCache(now)))
  {
    var i :| LastStored(s.log, url, i);
    assert s.entries[url] == EntryFrom(s.log, i);
  }

  lemma LookUpKeeps(config: Config, s: State, id: nat, now: int)
    requires Invariant(config, s)
    ensures Invariant(config, Next(config, s, LookUp(id, now)))
  {
    hide Justified, StoreMatches, StoresScanned, AllJustified, AllTracked, MissedCache;
    if id in s.fetches && s.fetches[id].phase.Arrived? {
      var url, content := s.fetches[id].url, s.fetches[id].phase.content;
      if Hit(config, s.entries, url, content, now) {
        HitIsJustified(config, s, id, url, content, now);
        FinishKeeps(config, s, id, url, content, CachedResult(config, s.entries, url, content), ByCache(now));
      } else {
        var e := CacheMiss(id, url, content, now);
        MissIsGenuine(config, s, id, url, content, now);
        LoggedAdvanceKeeps(config, s, id, url, Missed(content), e);
      }
    }
  }

  lemma ScanKeeps(config: Config, s: State, id: nat, verdict: ScanVerdict)
    requires Invariant(config, s)
    ensures Invariant(config, Next(config, s, Scan(id, verdict)))
  {
    hide StoreMatches, StoresScanned, AllJustified, MissedCache;
    if id in s.fetches && s.fetches[id].phase.Missed? {
      var url, content := s.fetches[id].url, s.fetches[id].phase.content;
      var e := ScanDone(id, url, content, verdict);
      var log' := s.log + [e];
      assert Tracked(config, s.log, id, s.fetches[id]);
      assert log'[|s.log|] == e && log'[..|s.log|] == s.log;
      LoggedAdvanceKeeps(config, s, id, url, Scanned(content, verdict), e);
    }
  }

  /** A scan that the log holds is one of the URL and digest. */
  lemma TrackedIsScanned(config: Config, log: seq<Event>, id: nat, url: string, content: string, verdict: ScanVerdict)
    requires MissedAndScanned(config, log, id, url, content, verdict)
    ensures ScannedAs(config, log, url, config.hash(content), verdict)
  {
    var j :| 0 <= j < |log| && log[j] == ScanDone(id, url, content, verdict);
    assert IsScan(config, log[j], url, config.hash(content), verdict);
  }

  lemma PersistKeeps(config: Config, s: State, id: nat, now: int)
    requires Invariant(config, s)
    ensures Invariant(config, Next(config, s, Persist(id, now)))
  {
    hide StoreMatches, StoresScanned, AllJustified, MissedAndScanned, ScannedAs;
    if id in s.fetches && s.fetches[id].phase.Scanned? {
      var f := s.fetches[id];
      var url, content, verdict := f.url, f.phase.content, f.phase.verdict;
      var e := Stored(id, url, config.hash(content), verdict, now);
      assert Tracked(config, s.log, id, f);
      TrackedIsScanned(config, s.log, id, url, content, verdict);
      StoreRecorded(s.entries, s.log, e);
      LogGrows(config, s.log, e);
      var s' := State(s.entries[url := FreshEntry(config, content, verdict, now)], s.fetches, s.log + [e]);
      AllStayTracked(config, s.log, s'.log, s.fetches, id, Fetch(url, Done));
      FinishKeeps(config, s', id, url, content, ResultFromVerdict(config, verdict, content, url, false), ByScan);
    }
  }

  lemma StepKeeps(config: Config, s: State, a: Action)
    requires Invariant(config, s)
    ensures Invariant(config, Next(config, s, a))
  {
    match a
    case Begin(id, url, allowed) =>
      if id !in s.fetches {
        if allowed {
          AdvanceKeeps(config, s, id, url, Admitted);
        } else {
          FinishKeeps(config, s, id, url, "", RateLimited(url), ByRateLimit);
        }
      }
    case Fail(id) =>
      if id in s.fetches && s.fetches[id].phase.Admitted? {
        FinishKeeps(config, s, id, s.fetches[id].url, "", FetchFailed(s.fetches[id].url), ByFailure);
      }
    case Arrive(id, content) =>
      if id in s.fetches && s.fetches[id].phase.Admitted? {
        var url := s.fetches[id].url;
        if config.skipProtected(url) {
          FinishKeeps(config, s, id, url, content, FetchResult.Ok(content, config.hash(content)), BySkipList);
        } else {
          AdvanceKeeps(config, s, id, url, Arrived(content));
        }
      }
    case LookUp(id, now) => LookUpKeeps(config, s, id, now);
    case Scan(id, verdict) => ScanKeeps(config, s, id, verdict);
    case Persist(id, now) => PersistKeeps(config, s, id, now);
    case MarkOverride(url, digest) =>
      var e := Approval(url, digest);
      ApprovalRecorded(s.entries, s.log, e);
      LogGrows(config, s.log, e);
      AllStayTracked(config, s.log, s.log + [e], s.fetches, 0, Fetch(url, Done));
  }

  lemma {:induction false} InvariantHolds(config: Config, actions: seq<Action>, n: nat)
    requires n <= |actions|
    ensures Invariant(config, After(config, actions, n))
  {
    if n > 0 {
      InvariantHolds(config, actions, n - 1);
      StepKeeps(config, After(config, actions, n - 1), actions[n - 1]);
    }
  }

  // ----- the theorems -----

  /**
   In every interleaving, every returned result is justified, and the store is
   exactly what the log's stores and approvals make it.
   */
  lemma EveryResultJustified(config: Config, actions: seq<Action>, n: nat, k: nat)
    requires n <= |actions| && k < |After(config, actions, n).log| && After(config, actions, n).log[k].Returned?
    ensures var s := After(config, actions, n);
            StoreMatches(s.entries, s.log) && Justified(config, s.log[..k], s.log[k])
  {
    InvariantHolds(config, actions, n);
  }

  predicate Passes(config: Config, v: ScanVerdict) {
    v.Clean? || (v.Review? && config.overrideOnReview)
  }

  /** A result passes exactly with this verdict or an approval, and shows the content accordingly. */
  ghost predicate Reflects(config: Config, e: Event, v: ScanVerdict, approved: bool)
    requires e.Returned?
  {
    && (e.result.Ok? <==> Passes(config, v) || approved)
    && Shows(config, e.result, e.content, e.url, v, approved)
  }

  /**
   A cached result reflects the latest store for its URL, which is of its digest
   and was scanned, and the approvals since that store.
   */
  ghost predicate ReflectsLastStore(config: Config, before: seq<Event>, e: Event)
    requires e.Returned?
  {
    var digest := config.hash(e.content);
    && (exists i :: LastStored(before, e.url, i))
    && forall i :: LastStored(before, e.url, i) ==>
         && before[i].digest == digest
         && ScannedAs(config, before[..i], e.url, digest, before[i].verdict)
         && Reflects(config, e, before[i].verdict, ApprovedSince(before, e.url, digest, i))
  }

  predicate IsScanOf(e: Event, id: nat) {
    e.ScanDone? && e.id == id
  }

  /** Any other result reflects the one scan that its own fetch made; approvals do not count. */
  ghost predicate ReflectsOwnScan(config: Config, before: seq<Event>, e: Event)
    requires e.Returned?
  {
    && (exists j :: 0 <= j < |before| && IsScanOf(before[j], e.id))
    && forall j :: 0 <= j < |before| && IsScanOf(before[j], e.id) ==>
         before[j].url == e.url && before[j].content == e.content && Reflects(config, e, before[j].verdict, false)
  }

  lemma ResultReflects(config: Config, e: Event, v: ScanVerdict, approved: bool)
    requires e.Returned? && e.result == ResultFromVerdict(config, v, e.content, e.url, approved)
    ensures Reflects(config, e, v, approved)
  {
    hide Shows;
    ResultShows(config, v, e.content, e.url, approved);
  }

  lemma CachedIsAccountable(config: Config, before: seq<Event>, e: Event)
    requires e.Returned? && e.how.ByCache? && Justified(config, before, e)
    ensures ReflectsLastStore(config, before, e)
  {
    hide ScannedAs, Usable, ApprovedSince, Reflects, ResultFromVerdict;
    var digest := config.hash(e.content);
    var i :| && LastStored(before, e.url, i)
      && before[i].digest == digest
      && ScannedAs(config, before[..i], e.url, digest, before[i].verdict)
      && e.result == ResultFromVerdict(config, before[i].verdict, e.content, e.url, ApprovedSince(before, e.url, digest, i));
    forall k | LastStored(before, e.url, k)
      ensures k == i
    {
      assert StoredAt(before, e.url, k) && StoredAt(before, e.url, i);
    }
    ResultReflects(config, e, before[i].verdict, ApprovedSince(before, e.url, digest, i));
  }

  /** The fetch has been scanned, if it ever will be. */
  predicate PastScan(s: State, id: nat) {
    id in s.fetches && (s.fetches[id].phase.Scanned? || s.fetches[id].phase.Done?)
  }

  /** A fetch is scanned at most once. */
  ghost predicate ScansOnce(s: State) {
    && OneScanEach(s.log)
    && forall i :: 0 <= i < |s.log| && s.log[i].ScanDone? ==> PastScan(s, s.log[i].id)
  }

  ghost predicate OneScanEach(log: seq<Event>) {
    forall i, j :: 0 <= i < j < |log| && log[i].ScanDone? && log[j].ScanDone? ==> log[i].id != log[j].id
  }

  /** Events that are no scans, and fetches that only move on, keep this. */
  lemma NoScanKeepsOnce(s: State, s': State, more: seq<Event>)
    requires ScansOnce(s) && s'.log == s.log + more && forall i :: 0 <= i < |more| ==> !more[i].ScanDone?
    requires forall id :: PastScan(s, id) ==> PastScan(s', id)
    ensures ScansOnce(s')
  {
    assert forall i :: 0 <= i < |s'.log| && s'.log[i].ScanDone? ==> i < |s.log| && s'.log[i] == s.log[i];
  }

  lemma StepScansOnce(config: Config, s: State, a: Action)
    requires ScansOnce(s)
    ensures ScansOnce(Next(config, s, a))
  {
    hide Hit, ResultFromVerdict, CachedResult, FreshEntry, Approve, RateLimited, FetchFailed, ScansOnce;
    var s' := Next(config, s, a);
    if a.Scan? && a.id in s.fetches && s.fetches[a.id].phase.Missed? {
      ScanIsFirst(config, s, a.id, a.verdict);
    } else {
      assert s.log <= s'.log;
      var more := s'.log[|s.log|..];
      assert s'.log == s.log + more;
      assert |more| <= 2;
      NoScanKeepsOnce(s, s', more);
    }
  }

  lemma ScanIsFirst(config: Config, s: State, id: nat, verdict: ScanVerdict)
    requires ScansOnce(s) && id in s.fetches && s.fetches[id].phase.Missed?
    ensures ScansOnce(Next(config, s, Scan(id, verdict)))
  {
    var s' := Next(config, s, Scan(id, verdict));
    assert forall i :: 0 <= i < |s.log| ==> s'.log[i] == s.log[i];
    forall i | 0 <= i < |s'.log| && s'.log[i].ScanDone?
      ensures PastScan(s', s'.log[i].id)
    {
      assert i < |s.log| ==> PastScan(s, s.log[i].id);
    }
    forall i | 0 <= i < |s.log| && s.log[i].ScanDone?
      ensures s.log[i].id != id
    {
      assert PastScan(s, s.log[i].id);
    }
  }

  lemma {:induction false} EachScansOnce(config: Config, actions: seq<Action>, n: nat)
    requires n <= |actions|
    ensures ScansOnce(After(config, actions, n))
  {
    hide Next;
    if n > 0 {
      EachScansOnce(config, actions, n - 1);
      StepScansOnce(config, After(config, actions, n - 1), actions[n - 1]);
    }
  }

  lemma RescannedIsAccountable(config: Config, before: seq<Event>, e: Event)
    requires e.Returned? && e.how.ByScan? && Justified(config, before, e)
    requires OneScanEach(before)
    ensures ReflectsOwnScan(config, before, e)
  {
    hide Reflects, ResultFromVerdict, MissedCache;
    var v :| && MissedAndScanned(config, before, e.id, e.url, e.content, v)
      && e.result == ResultFromVerdict(config, v, e.content, e.url, false);
    var j :| 0 <= j < |before| && before[j] == ScanDone(e.id, e.url, e.content, v);
    assert IsScanOf(before[j], e.id);
    ResultReflects(config, e, v, false);
  }

  /**
   Whatever is Unsafe comes back Ok only by override: a cached result passes
   exactly if the verdict last stored for the URL passes or exactly that URL and
   digest were approved since that store; a scanned result passes exactly if its
   own scan does.
   */
  lemma UnsafePassesOnlyByOverride(config: Config, actions: seq<Action>, n: nat, k: nat)
    requires n <= |actions| && k < |After(config, actions, n).log|
    requires After(config, actions, n).log[k].Returned?
    ensures var log := After(config, actions, n).log;
            && (log[k].how.ByCache? ==> ReflectsLastStore(config, log[..k], log[k]))
            && (log[k].how.ByScan? ==> ReflectsOwnScan(config, log[..k], log[k]))
  {
    hide Justified;
    EveryResultJustified(config, actions, n, k);
    EachScansOnce(config, actions, n);
    var log := After(config, actions, n).log;
    if log[k].how.ByCache? {
      CachedIsAccountable(config, log[..k], log[k]);
    } else if log[k].how.ByScan? {
      RescannedIsAccountable(config, log[..k], log[k]);
    }
  }

  /** Every result is whole: what passes is the fetched content with its digest; what never got content says so. */
  lemma ResultsAreWhole(config: Config, actions: seq<Action>, n: nat, k: nat)
    requires n <= |actions| && k < |After(config, actions, n).log|
    requires After(config, actions, n).log[k].Returned?
    ensures var e := After(config, actions, n).log[k];
            && (e.result.Ok? ==> e.result == FetchResult.Ok(e.content, config.hash(e.content)))
            && (e.how.BySkipList? ==> config.skipProtected(e.url) && e.result.Ok?)
            && (e.how.ByRateLimit? || e.how.ByFailure? ==> e.result.Blocked? && e.result.digest == "" && e.result.url == e.url)
            && (e.how.ByRateLimit? ==> "Rate limit exceeded." <= e.result.reason)
            && (e.how.ByFailure? ==> "HTTP fetch failed" <= e.result.reason)
  {
    EveryResultJustified(config, actions, n, k);
  }

  ghost predicate Arrival(actions: seq<Action>, n: nat, id: nat, content: string)
    requires n <= |actions|
  {
    exists m :: 0 <= m < n && actions[m] == Arrive(id, content)
  }

  /** What a fetch in this phase works on. */
  ghost predicate WorksOnArrival(actions: seq<Action>, n: nat, id: nat, f: Fetch)
    requires n <= |actions|
  {
    match f.phase
    case Arrived(content) => Arrival(actions, n, id, content)
    case Missed(content) => Arrival(actions, n, id, content)
    case Scanned(content, _) => Arrival(actions, n, id, content)
    case _ => true
  }

  /** And what a result with content is about. */
  ghost predicate AboutArrival(actions: seq<Action>, n: nat, e: Event)
    requires n <= |actions|
  {
    e.Returned? && !e.how.ByRateLimit? && !e.how.ByFailure? ==> Arrival(actions, n, e.id, e.content)
  }

  lemma ArrivalStays(actions: seq<Action>, n: nat, id: nat, content: string)
    requires n < |actions| && Arrival(actions, n, id, content)
    ensures Arrival(actions, n + 1, id, content)
  {
  }

  /** Fetches work on, and results are about, the content that arrived for them. */
  ghost predicate Traced(actions: seq<Action>, n: nat, s: State)
    requires n <= |actions|
  {
    && (forall id :: id in s.fetches ==> WorksOnArrival(actions, n, id, s.fetches[id]))
    && forall k :: 0 <= k < |s.log| ==> AboutArrival(actions, n, s.log[k])
  }

  lemma TracedStays(actions: seq<Action>, n: nat, s: State)
    requires n < |actions| && Traced(actions, n, s)
    ensures Traced(actions, n + 1, s)
  {
    hide Arrival;
    forall id, content | Arrival(actions, n, id, content)
      ensures Arrival(actions, n + 1, id, content)
    {
      ArrivalStays(actions, n, id, content);
    }
    forall id | id in s.fetches
      ensures WorksOnArrival(actions, n + 1, id, s.fetches[id])
    {
      assert WorksOnArrival(actions, n, id, s.fetches[id]);
    }
    forall k | 0 <= k < |s.log|
      ensures AboutArrival(actions, n + 1, s.log[k])
    {
      assert AboutArrival(actions, n, s.log[k]);
    }
  }

  lemma ArrivedNow(actions: seq<Action>, n: nat)
    requires n < |actions|
    ensures actions[n].Arrive? ==> Arrival(actions, n + 1, actions[n].id, actions[n].content)
  {
  }

  lemma StepTraced(config: Config, actions: seq<Action>, n: nat, s: State)
    requires n < |actions| && Traced(actions, n, s)
    ensures Traced(actions, n + 1, Next(config, s, actions[n]))
  {
    hide Hit, ResultFromVerdict, CachedResult, RateLimited, FetchFailed, FreshEntry, Approve, Arrival;
    TracedStays(actions, n, s);
    ArrivedNow(actions, n);
    var s' := Next(config, s, actions[n]);
    forall id | id in s'.fetches
      ensures WorksOnArrival(actions, n + 1, id, s'.fetches[id])
    {
      assert id in s.fetches ==> WorksOnArrival(actions, n + 1, id, s.fetches[id]);
    }
    forall k | 0 <= k < |s'.log|
      ensures AboutArrival(actions, n + 1, s'.log[k])
    {
      assert k < |s.log| ==> AboutArrival(actions, n + 1, s.log[k]);
    }
  }

  lemma {:induction false} ContentArrived(config: Config, actions: seq<Action>, n: nat)
    requires n <= |actions|
    ensures Traced(actions, n, After(config, actions, n))
  {
    hide Next;
    if n > 0 {
      ContentArrived(config, actions, n - 1);
      StepTraced(config, actions, n - 1, After(config, actions, n - 1));
    }
  }

  /** Cached results are served only from a store within the TTL: hits never renew it. */
  lemma CacheWithinTtl(config: Config, actions: seq<Action>, n: nat, k: nat)
    requires n <= |actions| && k < |After(config, actions, n).log|
    requires After(config, actions, n).log[k].Returned? && After(config, actions, n).log[k].how.ByCache?
    requires 0 < config.ttlSecs < I64_SIZE
    ensures var log, e := After(config, actions, n).log[..k], After(config, actions, n).log[k];
            exists i :: LastStored(log, e.url, i) && log[i].digest == config.hash(e.content)
                        && e.how.at - log[i].at < (config.ttlSecs + 1) * SECOND
  {
    EveryResultJustified(config, actions, n, k);
    var log, e := After(config, actions, n).log[..k], After(config, actions, n).log[k];
    var i :| LastStored(log, e.url, i) && log[i].digest == config.hash(e.content)
      && Usable(config.MaxAge(), log[i].at, e.how.at);
    UsableBounds(config.MaxAge(), log[i].at, e.how.at);
  }

  /** The steps of one fetch that nothing interrupts. */
  function Steps(id: nat, v: Visit): (steps: seq<Action>)
    ensures |steps| == 5
  {
    [Begin(id, v.url, v.admitted),
     if v.arrival.Some? then Arrive(id, v.arrival.value) else Fail(id),
     LookUp(id, v.lookupAt), Scan(id, v.verdict), Persist(id, v.storeAt)]
  }

  function Perform(config: Config, s: State, actions: seq<Action>): State {
    if actions == [] then s else Next(config, Perform(config, s, actions[..|actions| - 1]), actions[|actions| - 1])
  }

  /** The fetch returned this result last. */
  predicate HasReturned(s: State, id: nat, url: string, result: FetchResult) {
    && id in s.fetches && s.fetches[id] == Fetch(url, Done)
    && |s.log| > 0 && s.log[|s.log| - 1].Returned? && s.log[|s.log| - 1].result == result
  }

  predicate Reached(s: State, entries: Entries, id: nat, f: Fetch) {
    s.entries == entries && id in s.fetches && s.fetches[id] == f
  }

  /** Once it has returned, a fetch makes no step. */
  lemma DoneStays(config: Config, s: State, id: nat, v: Visit, i: nat)
    requires id in s.fetches && s.fetches[id].phase.Done? && 1 <= i < 5
    ensures Next(config, s, Steps(id, v)[i]) == s
  {
  }

  lemma AfterArrival(config: Config, s: State, id: nat, v: Visit)
    requires id !in s.fetches
    ensures var s' := Next(config, Next(config, s, Steps(id, v)[0]), Steps(id, v)[1]);
            if Reaches(config, v) then Reached(s', s.entries, id, Fetch(v.url, Arrived(v.arrival.value)))
            else s'.entries == s.entries && HasReturned(s', id, v.url, FetchResultOf(config, s.entries, v))
  {
    hide Hit, RateLimited, FetchFailed, ResultFromVerdict;
  }

  lemma AfterLookUp(config: Config, s: State, id: nat, v: Visit)
    requires Reaches(config, v) && id in s.fetches && s.fetches[id] == Fetch(v.url, Arrived(v.arrival.value))
    ensures var s' := Next(config, s, Steps(id, v)[2]);
            if Hit(config, s.entries, v.url, v.arrival.value, v.lookupAt)
            then s'.entries == s.entries && HasReturned(s', id, v.url, FetchResultOf(config, s.entries, v))
            else Reached(s', s.entries, id, Fetch(v.url, Missed(v.arrival.value)))
  {
    hide RateLimited, FetchFailed, ResultFromVerdict;
  }

  lemma AfterPersist(config: Config, s: State, id: nat, v: Visit)
    requires Reaches(config, v) && id in s.fetches && s.fetches[id] == Fetch(v.url, Missed(v.arrival.value))
    ensures var s' := Next(config, Next(config, s, Steps(id, v)[3]), Steps(id, v)[4]);
            && s'.entries == s.entries[v.url := FreshEntry(config, v.arrival.value, v.verdict, v.storeAt)]
            && HasReturned(s', id, v.url, ResultFromVerdict(config, v.verdict, v.arrival.value, v.url, false))
  {
    hide ResultFromVerdict, FreshEntry;
  }

  lemma PerformSteps(config: Config, s: State, id: nat, v: Visit)
    ensures var a := Steps(id, v);
            var s1 := Next(config, s, a[0]);
            var s3 := Next(config, Next(config, s1, a[1]), a[2]);
            Perform(config, s, a) == Next(config, Next(config, s3, a[3]), a[4])
  {
    hide Next;
    var a := Steps(id, v);
    assert a[..5] == a;
    forall i | 0 <= i < 5
      ensures Perform(config, s, a[..i + 1]) == Next(config, Perform(config, s, a[..i]), a[i])
    {
      assert a[..i + 1][..i] == a[..i];
    }
    assert Perform(config, s, a[..0]) == s;
    assert Perform(config, s, a[..1]) == Next(config, s, a[0]);
    assert Perform(config, s, a[..2]) == Next(config, Perform(config, s, a[..1]), a[1]);
    assert Perform(config, s, a[..3]) == Next(config, Perform(config, s, a[..2]), a[2]);
    assert Perform(config, s, a[..4]) == Next(config, Perform(config, s, a[..3]), a[3]);
    assert Perform(config, s, a[..5]) == Next(config, Perform(config, s, a[..4]), a[4]);
  }

  /** Run without interruption, these steps are one call of the detector's `Fetch`. */
  lemma UninterruptedIsFetch(config: Config, s: State, id: nat, v: Visit)
    requires id !in s.fetches
    ensures var s' := Perform(config, s, Steps(id, v));
            && s'.entries == EntriesAfter(config, s.entries, v)
            && HasReturned(s', id, v.url, FetchResultOf(config, s.entries, v))
  {
    hide Next, Perform, Hit, Steps, CachedResult, ResultFromVerdict, FreshEntry;
    var a := Steps(id, v);
    PerformSteps(config, s, id, v);
    AfterArrival(config, s, id, v);
    var s2 := Next(config, Next(config, s, a[0]), a[1]);
    var s3 := Next(config, s2, a[2]);
    if Reaches(config, v) {
      AfterLookUp(config, s2, id, v);
      if Hit(config, s.entries, v.url, v.arrival.value, v.lookupAt) {
        DoneStays(config, s3, id, v, 3);
        DoneStays(config, s3, id, v, 4);
      } else {
        AfterPersist(config, s3, id, v);
      }
    } else {
      DoneStays(config, s2, id, v, 2);
      DoneStays(config, s2, id, v, 3);
      DoneStays(config, s2, id, v, 4);
    }
  }
}

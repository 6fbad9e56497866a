/**
 How long an approval lasts when fetches and approvals interleave: exactly until
 a fetch stores a new entry for the URL, and surely as long as no fetch was past
 its lookup when the approval came and every later lookup sees the approved
 content in time.
 */
module Overrides {
  import opened Results
  import opened Verdicts
  import opened DigestStore
  import opened Detector
  import opened FetchProtocol

  /** This action stores an entry for `url`. */
  predicate Stores(s: State, a: Action, url: string) {
    a.Persist? && a.id in s.fetches && s.fetches[a.id].phase.Scanned? && s.fetches[a.id].url == url
  }

  predicate StoresAt(config: Config, actions: seq<Action>, k: nat, url: string)
    requires k < |actions|
  {
    Stores(After(config, actions, k), actions[k], url)
  }

  predicate ApprovedEntry(entries: Entries, url: string) {
    url in entries && entries[url].overrideApproved
  }

  predicate EntryIs(config: Config, actions: seq<Action>, k: nat, url: string, entry: ContentDigest)
    requires k <= |actions|
  {
    var entries := After(config, actions, k).entries;
    url in entries && entries[url] == entry
  }

  /** What one step does to the entry of a URL. */
  lemma StepEntry(config: Config, s: State, a: Action, url: string)
    ensures var s' := Next(config, s, a);
            if Stores(s, a, url) then url in s'.entries && !s'.entries[url].overrideApproved
            else if a.MarkOverride? && a.url == url then s'.entries == Approve(s.entries, url, a.digest)
            else url in s.entries <==> url in s'.entries
    ensures var s' := Next(config, s, a);
            !Stores(s, a, url) && !(a.MarkOverride? && a.url == url) && url in s.entries ==>
              s'.entries[url] == s.entries[url]
  {
    hide Hit, ResultFromVerdict, RateLimited, FetchFailed;
  }

  /** An approved entry stays as it is, timestamp included, exactly as long as nothing is stored for its URL. */
  lemma {:induction false} UnchangedUntilStored(config: Config, actions: seq<Action>, m: nat, n: nat, url: string)
    requires m <= n <= |actions| && ApprovedEntry(After(config, actions, m).entries, url)
    ensures var entry := After(config, actions, m).entries[url];
            (forall k :: m <= k <= n ==> EntryIs(config, actions, k, url, entry))
            <==> forall k :: m <= k < n ==> !StoresAt(config, actions, k, url)
  {
    hide Next;
    if m < n {
      UnchangedUntilStored(config, actions, m, n - 1, url);
      StepEntry(config, After(config, actions, n - 1), actions[n - 1], url);
      var entry := After(config, actions, m).entries[url];
      if forall k :: m <= k < n ==> !StoresAt(config, actions, k, url) {
        assert EntryIs(config, actions, n - 1, url, entry);
        assert !StoresAt(config, actions, n - 1, url);
      }
      if forall k :: m <= k <= n ==> EntryIs(config, actions, k, url, entry) {
        assert EntryIs(config, actions, n - 1, url, entry) && EntryIs(config, actions, n, url, entry);
      }
    }
  }

  /**
   If the same content is not approved again, the entry at the end tells: it is
   the approved one exactly if nothing was stored for its URL in between.
   */
  lemma {:induction false} UnchangedIffNotStored(config: Config, actions: seq<Action>, m: nat, n: nat, url: string)
    requires m <= n <= |actions| && ApprovedEntry(After(config, actions, m).entries, url)
    requires forall k :: m <= k < n ==> actions[k] != MarkOverride(url, After(config, actions, m).entries[url].sha256)
    ensures var entry := After(config, actions, m).entries[url];
            EntryIs(config, actions, n, url, entry) <==> forall k :: m <= k < n ==> !StoresAt(config, actions, k, url)
    ensures url in After(config, actions, n).entries
    ensures (exists k :: m <= k < n && StoresAt(config, actions, k, url)) ==>
              var before, after := After(config, actions, m).entries[url], After(config, actions, n).entries[url];
              after.sha256 != before.sha256 || !after.overrideApproved
  {
    hide Next;
    if m < n {
      UnchangedIffNotStored(config, actions, m, n - 1, url);
      StepEntry(config, After(config, actions, n - 1), actions[n - 1], url);
      assert StoresAt(config, actions, n - 1, url) == Stores(After(config, actions, n - 1), actions[n - 1], url);
    }
  }

  // ----- what a caller can see -----

  /** Some fetch of the URL has missed the cache and not stored yet. */
  ghost predicate InFlight(s: State, url: string) {
    exists id :: id in s.fetches && PastLookUp(s.fetches[id], url)
  }

  predicate PastLookUp(f: Fetch, url: string) {
    f.url == url && (f.phase.Missed? || f.phase.Scanned?)
  }

  /** This action looks `url` up. */
  predicate LooksUp(s: State, a: Action, url: string) {
    a.LookUp? && a.id in s.fetches && s.fetches[a.id].phase.Arrived? && s.fetches[a.id].url == url
  }

  /** A lookup of `url` made by action `k`, if it is one, sees the content of `entry` in time. */
  predicate SeesAt(config: Config, actions: seq<Action>, k: nat, url: string, entry: ContentDigest)
    requires k < |actions|
  {
    var s, a := After(config, actions, k), actions[k];
    LooksUp(s, a, url) ==>
      config.hash(s.fetches[a.id].phase.content) == entry.sha256 && Usable(config.MaxAge(), entry.timestamp, a.now)
  }

  /** Where nothing is in flight and lookups see the entry, nothing gets in flight. */
  lemma StepInFlight(config: Config, s: State, a: Action, url: string)
    requires !InFlight(s, url) && url in s.entries
    requires LooksUp(s, a, url) ==> Hit(config, s.entries, url, s.fetches[a.id].phase.content, a.now)
    ensures !InFlight(Next(config, s, a), url) && !Stores(s, a, url)
  {
    hide Hit, ResultFromVerdict, RateLimited, FetchFailed, CachedResult, FreshEntry;
    var s' := Next(config, s, a);
    forall id | id in s'.fetches
      ensures !PastLookUp(s'.fetches[id], url)
    {
      assert id in s.fetches ==> !PastLookUp(s.fetches[id], url);
    }
    assert a.Persist? && a.id in s.fetches ==> !PastLookUp(s.fetches[a.id], url);
  }

  /**
   An approval lasts if no fetch of its URL is past its lookup when it is given
   and every later lookup of the URL sees the approved content in time.
   */
  lemma {:induction false} ApprovalLasts(config: Config, actions: seq<Action>, m: nat, n: nat, url: string)
    requires m <= n <= |actions| && ApprovedEntry(After(config, actions, m).entries, url)
    requires !InFlight(After(config, actions, m), url)
    requires forall k :: m <= k < n ==> SeesAt(config, actions, k, url, After(config, actions, m).entries[url])
    ensures EntryIs(config, actions, n, url, After(config, actions, m).entries[url])
    ensures !InFlight(After(config, actions, n), url)
  {
    hide Next, InFlight;
    if m < n {
      ApprovalLasts(config, actions, m, n - 1, url);
      var s, a := After(config, actions, n - 1), actions[n - 1];
      assert SeesAt(config, actions, n - 1, url, After(config, actions, m).entries[url]);
      StepInFlight(config, s, a, url);
      StepEntry(config, s, a, url);
    }
  }

  /** A lookup of the cache returns exactly if the stored entry is of its digest and usable, and then shows that entry. */
  lemma LookUpConsultsStore(config: Config, s: State, a: Action, url: string)
    requires LooksUp(s, a, url)
    ensures var content, s' := s.fetches[a.id].phase.content, Next(config, s, a);
            if Hit(config, s.entries, url, content, a.now)
            then s'.log == s.log + [Returned(a.id, url, content, CachedResult(config, s.entries, url, content), ByCache(a.now))]
            else s'.log == s.log + [CacheMiss(a.id, url, content, a.now)] && InFlight(s', url)
    ensures Next(config, s, a).entries == s.entries
  {
    hide ResultFromVerdict, CachedResult;
    var s' := Next(config, s, a);
    assert a.id in s'.fetches;
  }

  /** While the approved entry is there, every lookup that sees its content in time returns that content as Ok. */
  lemma LookUpPasses(config: Config, actions: seq<Action>, k: nat, url: string)
    requires k < |actions| && ApprovedEntry(After(config, actions, k).entries, url)
    requires LooksUp(After(config, actions, k), actions[k], url)
    requires SeesAt(config, actions, k, url, After(config, actions, k).entries[url])
    ensures var s, a := After(config, actions, k), actions[k];
            var content := s.fetches[a.id].phase.content;
            After(config, actions, k + 1).log
            == s.log + [Returned(a.id, url, content, FetchResult.Ok(content, s.entries[url].sha256), ByCache(a.now))]
  {
    hide Next;
    LookUpConsultsStore(config, After(config, actions, k), actions[k], url);
  }

  /**
   Together: under the caller's condition every later lookup of the URL returns
   the approved content as Ok.
   */
  lemma ApprovedContentPasses(config: Config, actions: seq<Action>, m: nat, n: nat, url: string, k: nat)
    requires m <= k < n <= |actions| && ApprovedEntry(After(config, actions, m).entries, url)
    requires !InFlight(After(config, actions, m), url)
    requires forall i :: m <= i < n ==> SeesAt(config, actions, i, url, After(config, actions, m).entries[url])
    requires LooksUp(After(config, actions, k), actions[k], url)
    ensures var s, a := After(config, actions, k), actions[k];
            var content := s.fetches[a.id].phase.content;
            After(config, actions, k + 1).log
            == s.log + [Returned(a.id, url, content,
                                 FetchResult.Ok(content, After(config, actions, m).entries[url].sha256), ByCache(a.now))]
  {
    hide InFlight, LooksUp, SeesAt;
    ApprovalLasts(config, actions, m, k, url);
    assert SeesAt(config, actions, k, url, After(config, actions, m).entries[url]);
    LookUpPasses(config, actions, k, url);
  }

  // ----- the condition is exact -----

  /** However the run goes on, if only its lookups of `url` see the approved content in time, the entry stays. */
  ghost predicate Safe(config: Config, past: seq<Action>, url: string)
    requires url in After(config, past, |past|).entries
  {
    forall more: seq<Action> :: Outlives(config, past, more, url)
  }

  ghost predicate Outlives(config: Config, past: seq<Action>, more: seq<Action>, url: string)
    requires url in After(config, past, |past|).entries
  {
    var entry, actions := After(config, past, |past|).entries[url], past + more;
    (forall k :: |past| <= k < |actions| ==> SeesAt(config, actions, k, url, entry)) ==>
      EntryIs(config, actions, |actions|, url, entry)
  }

  lemma {:induction false} AfterPrefix(config: Config, past: seq<Action>, more: seq<Action>, n: nat)
    requires n <= |past|
    ensures After(config, past + more, n) == After(config, past, n)
  {
    hide Next;
    if n > 0 {
      AfterPrefix(config, past, more, n - 1);
    }
  }

  /** A fetch that is past its lookup can drop the approval in two steps, and looks nothing up. */
  lemma FlightDrops(config: Config, s: State, id: nat, url: string)
    requires id in s.fetches && PastLookUp(s.fetches[id], url)
    ensures var s' := Next(config, Next(config, s, Scan(id, Clean)), Persist(id, 0));
            url in s'.entries && !s'.entries[url].overrideApproved
  {
    hide ResultFromVerdict;
  }

  /**
   An approval is safe exactly if no fetch of its URL is past its lookup when it
   is given: otherwise that fetch can still drop it, for the very same content.
   */
  lemma SafeIffNoneInFlight(config: Config, past: seq<Action>, url: string)
    requires ApprovedEntry(After(config, past, |past|).entries, url)
    ensures Safe(config, past, url) <==> !InFlight(After(config, past, |past|), url)
  {
    hide Next;
    var n, s := |past|, After(config, past, |past|);
    if InFlight(s, url) {
      var id :| id in s.fetches && PastLookUp(s.fetches[id], url);
      var more := [Scan(id, Clean), Persist(id, 0)];
      var actions := past + more;
      AfterPrefix(config, past, more, n);
      FlightDrops(config, s, id, url);
      assert actions[n] == more[0] && actions[n + 1] == more[1];
      assert After(config, actions, n + 1) == Next(config, s, more[0]);
      assert After(config, actions, n + 2) == Next(config, Next(config, s, more[0]), more[1]);
      assert !Outlives(config, past, more, url);
    } else {
      forall more: seq<Action>
        ensures Outlives(config, past, more, url)
      {
        var actions := past + more;
        AfterPrefix(config, past, more, n);
        if forall k :: n <= k < |actions| ==> SeesAt(config, actions, k, url, s.entries[url]) {
          ApprovalLasts(config, actions, n, |actions|, url);
        }
      }
    }
  }

  // ----- an approval can be lost to a race -----

  const DEMO := Config(content => content, false, 0, url => false)

  const RACE: seq<Action> :=
    [Begin(1, "u", true), Begin(2, "u", true), Arrive(1, "x"), Arrive(2, "x"), LookUp(1, 0), LookUp(2, 0),
     Scan(1, Unsafe("bad")), Scan(2, Unsafe("bad")), Persist(1, 0), MarkOverride("u", "x"), Persist(2, 0),
     Begin(3, "u", true), Arrive(3, "x"), LookUp(3, 0)]

  /** The actions of the race, numbered. */
  lemma RaceStep(n: nat)
    requires n < |RACE|
    ensures After(DEMO, RACE, n + 1) == Next(DEMO, After(DEMO, RACE, n), RACE[n])
  {
    hide Next;
  }

  const WAITING: Fetch := Fetch("u", Missed("x"))
  const JUDGED: Fetch := Fetch("u", Scanned("x", Unsafe("bad")))

  lemma RaceStart()
    ensures After(DEMO, RACE, 0) == INITIAL
  {
  }

  lemma RaceToBothAdmitted()
    ensures After(DEMO, RACE, 2) == State(map[], map[1 := Fetch("u", Admitted), 2 := Fetch("u", Admitted)], [])
  {
    hide ResultFromVerdict, RateLimited, FetchFailed, Usable, After;
    RaceStart();
    RaceStep(0);
    RaceStep(1);
  }

  lemma RaceToBothArrived()
    ensures After(DEMO, RACE, 4) == State(map[], map[1 := Fetch("u", Arrived("x")), 2 := Fetch("u", Arrived("x"))], [])
  {
    hide ResultFromVerdict, RateLimited, FetchFailed, Usable, After;
    RaceToBothAdmitted();
    RaceStep(2);
    RaceStep(3);
  }

  lemma RaceToBothMissed()
    ensures var s := After(DEMO, RACE, 6);
            s.entries == map[] && s.fetches == map[1 := WAITING, 2 := WAITING] && |s.log| == 2
  {
    hide ResultFromVerdict, RateLimited, FetchFailed, Usable, After;
    RaceToBothArrived();
    RaceStep(4);
    RaceStep(5);
  }

  lemma RaceToBothScanned()
    ensures var s := After(DEMO, RACE, 8);
            s.entries == map[] && s.fetches == map[1 := JUDGED, 2 := JUDGED] && |s.log| == 4
  {
    hide ResultFromVerdict, RateLimited, FetchFailed, Usable, After, Hit;
    RaceToBothMissed();
    RaceStep(6);
    RaceStep(7);
    assert RACE[6] == Scan(1, Unsafe("bad")) && RACE[7] == Scan(2, Unsafe("bad"));
  }

  lemma RaceToStored()
    ensures var s := After(DEMO, RACE, 9);
            && s.entries == map["u" := ContentDigest("x", Unsafe("bad"), 0, false)]
            && s.fetches == map[1 := Fetch("u", Done), 2 := JUDGED]
            && |s.log| == 6
  {
    hide ResultFromVerdict, RateLimited, FetchFailed, Usable, After, Hit;
    RaceToBothScanned();
    RaceStep(8);
    assert RACE[8] == Persist(1, 0);
  }

  lemma RaceToApproval()
    ensures var s := After(DEMO, RACE, 10);
            && s.entries == map["u" := ContentDigest("x", Unsafe("bad"), 0, true)]
            && s.fetches == map[1 := Fetch("u", Done), 2 := JUDGED]
            && |s.log| == 7 && s.log[6] == Approval("u", "x")
  {
    hide ResultFromVerdict, RateLimited, FetchFailed, Usable, After, Hit;
    RaceToStored();
    RaceStep(9);
    assert RACE[9] == MarkOverride("u", "x");
  }

  lemma RaceToDropped()
    ensures var s := After(DEMO, RACE, 11);
            && s.entries == map["u" := ContentDigest("x", Unsafe("bad"), 0, false)]
            && s.fetches == map[1 := Fetch("u", Done), 2 := Fetch("u", Done)]
            && |s.log| == 9 && s.log[6] == Approval("u", "x")
  {
    hide ResultFromVerdict, RateLimited, FetchFailed, Usable, After, Hit;
    RaceToApproval();
    RaceStep(10);
    assert RACE[10] == Persist(2, 0);
  }

  lemma RaceToArrived()
    ensures var s := After(DEMO, RACE, 13);
            && s.entries == map["u" := ContentDigest("x", Unsafe("bad"), 0, false)]
            && 3 in s.fetches && s.fetches[3] == Fetch("u", Arrived("x"))
            && |s.log| == 9 && s.log[6] == Approval("u", "x")
  {
    hide ResultFromVerdict, RateLimited, FetchFailed, Usable, After, Hit;
    RaceToDropped();
    RaceStep(11);
    RaceStep(12);
    assert RACE[11] == Begin(3, "u", true) && RACE[12] == Arrive(3, "x");
  }

  /**
   Such a run: a fetch that missed before the approval stores afterwards, drops
   the flag for the very content that was approved, and the next fetch of it is
   blocked.
   */
  lemma RaceLosesOverride()
    ensures var s := After(DEMO, RACE, |RACE|);
            && |s.log| == 10
            && s.log[9] == Returned(3, "u", "x", FetchResult.Blocked("bad", "x", "u"), ByCache(0))
            && Approval("u", "x") in s.log
  {
    hide RateLimited, FetchFailed, Annotated, After;
    RaceToArrived();
    RaceStep(13);
    assert RACE[13] == LookUp(3, 0);
    var s := After(DEMO, RACE, 14);
    assert |s.log| == 10 && s.log[6] == Approval("u", "x");
  }
}

/**
 Whole runs of the rate limiter: any sequence of checks of any sources, with the
 evictions they cause, on a clock that never goes backwards.
 */
module RateLimiterRuns {
  import opened Results
  import opened RateLimiter

  /** One call of `Check`: its source, its instant and the sources it evicted. */
  datatype Event = Event(source: string, now: nat, removed: set<string>)

  /** The buckets after the first `n` checks of a run. */
  function After(config: RateLimitConfig, es: seq<Event>, n: nat): Buckets
    requires n <= |es|
  {
    if n == 0 then map[]
    else AfterCheck(config, After(config, es, n - 1), es[n - 1].source, es[n - 1].now, es[n - 1].removed)
  }

  ghost predicate ClockRuns(es: seq<Event>) {
    forall i, j :: 0 <= i <= j < |es| ==> es[i].now <= es[j].now
  }

  ghost predicate EvictsAt(config: RateLimitConfig, es: seq<Event>, i: nat)
    requires i < |es|
  {
    EvictionOf(After(config, es, i), es[i].removed)
  }

  ghost predicate EvictsOldest(config: RateLimitConfig, es: seq<Event>) {
    forall i :: 0 <= i < |es| ==> EvictsAt(config, es, i)
  }

  // ----- the map as a whole -----

  /** The map never tracks more than 10001 sources, and an over-full map shrinks by its fifth. */
  lemma {:induction false} MapStaysBounded(config: RateLimitConfig, es: seq<Event>, n: nat)
    requires EvictsOldest(config, es) && n <= |es|
    ensures |After(config, es, n)| <= MAX_SOURCES + 1
  {
    if n > 0 {
      MapStaysBounded(config, es, n - 1);
      assert EvictsAt(config, es, n - 1);
      SizeAfterCheck(config, After(config, es, n - 1), es[n - 1]);
    }
  }

  lemma SizeAfterCheck(config: RateLimitConfig, m: Buckets, e: Event)
    requires EvictionOf(m, e.removed)
    ensures |AfterCheck(config, m, e.source, e.now, e.removed)|
         <= |m| + 1 - (if |m| > MAX_SOURCES then |m| / 5 else 0)
  {
    assert Without(m, e.removed).Keys == m.Keys - e.removed;
    assert |m.Keys - e.removed| == |m.Keys| - |e.removed| by {
      assert e.removed <= m.Keys;
    }
    var r := AfterCheck(config, m, e.source, e.now, e.removed);
    assert r.Keys == (m.Keys - e.removed) + {e.source};
  }

  // ----- what one source sees -----

  /** The bucket of one source after `n` checks, if it has one. */
  function Slot(config: RateLimitConfig, es: seq<Event>, source: string, n: nat): Option<Bucket>
    requires n <= |es|
    decreases n, 0
  {
    if n == 0 then None
    else if es[n - 1].source == source then Some(Spent(Found(config, es, source, n - 1)))
    else Kept(config, es, source, n - 1)
  }

  /** The bucket of `source` once check `i` has evicted. */
  function Kept(config: RateLimitConfig, es: seq<Event>, source: string, i: nat): Option<Bucket>
    requires i < |es|
    decreases i, 1
  {
    if source in es[i].removed then None else Slot(config, es, source, i)
  }

  /** The refilled bucket that check `i` decides on when it is a check of `source`. */
  function Found(config: RateLimitConfig, es: seq<Event>, source: string, i: nat): Bucket
    requires i < |es|
    decreases i, 2
  {
    var now := es[i].now;
    match Kept(config, es, source, i)
    case None => Refilled(config, Bucket(config.burstSize, now, now), now)
    case Some(b) => Refilled(config, b, now)
  }

  /** Was check `i` allowed? */
  predicate Allowed(config: RateLimitConfig, es: seq<Event>, i: nat)
    requires i < |es|
  {
    Found(config, es, es[i].source, i).tokens > 0
  }

  function Lookup(m: Buckets, source: string): Option<Bucket> {
    if source in m then Some(m[source]) else None
  }

  /** What one source sees is its part of the shared map. */
  lemma {:induction false} SlotIsBucket(config: RateLimitConfig, es: seq<Event>, source: string, n: nat)
    requires n <= |es|
    ensures Slot(config, es, source, n) == Lookup(After(config, es, n), source)
  {
    if n > 0 {
      SlotIsBucket(config, es, source, n - 1);
      OneStep(config, After(config, es, n - 1), es[n - 1], source);
      SlotStep(config, es, source, n - 1);
    }
  }

  /** `Allowed` is what `Check` returns. */
  lemma AllowedIsGranted(config: RateLimitConfig, es: seq<Event>, i: nat)
    requires i < |es|
    ensures Allowed(config, es, i) == Granted(config, After(config, es, i), es[i].source, es[i].now, es[i].removed)
  {
    SlotIsBucket(config, es, es[i].source, i);
    OneStep(config, After(config, es, i), es[i], es[i].source);
    SlotStep(config, es, es[i].source, i);
  }

  /** What a check does to the map, seen from one source. */
  lemma OneStep(config: RateLimitConfig, m: Buckets, e: Event, source: string)
    ensures var kept := if source in e.removed then None else Lookup(m, source);
            var b := if kept.Some? then kept.value else Bucket(config.burstSize, e.now, e.now);
            && (e.source == source ==> Ready(config, Without(m, e.removed), source, e.now) == Refilled(config, b, e.now))
            && Lookup(AfterCheck(config, m, e.source, e.now, e.removed), source)
               == if e.source == source then Some(Spent(Refilled(config, b, e.now))) else kept
  {
  }

  /** One check, seen from one source: the bucket it keeps, refills and spends from. */
  lemma SlotStep(config: RateLimitConfig, es: seq<Event>, source: string, i: nat)
    requires i < |es|
    ensures var e := es[i];
            var kept := if source in e.removed then None else Slot(config, es, source, i);
            var b := if kept.Some? then kept.value else Bucket(config.burstSize, e.now, e.now);
            && Kept(config, es, source, i) == kept
            && Found(config, es, source, i) == Refilled(config, b, e.now)
            && Slot(config, es, source, i + 1) == if e.source == source then Some(Spent(Refilled(config, b, e.now))) else kept
  {
    var kept := Kept(config, es, source, i);
    var found := Found(config, es, source, i);
  }

  /** Allowed checks of `source` from check `from` up to, and without, check `end`. */
  function Grants(config: RateLimitConfig, es: seq<Event>, source: string, from: nat, end: nat): nat
    requires from <= end <= |es|
    decreases end
  {
    if from == end then 0
    else Grants(config, es, source, from, end - 1)
         + if es[end - 1].source == source && Allowed(config, es, end - 1) then 1 else 0
  }

  /** Buckets created for `source` by the first `n` checks: the first one and one after each eviction. */
  function Insertions(config: RateLimitConfig, es: seq<Event>, source: string, n: nat): nat
    requires n <= |es|
  {
    if n == 0 then 0
    else Insertions(config, es, source, n - 1)
         + if es[n - 1].source == source && Kept(config, es, source, n - 1).None? then 1 else 0
  }

  /** A bucket's access instant is that of the last check of its source. */
  lemma {:induction false} AccessIsLastCheck(config: RateLimitConfig, es: seq<Event>, source: string, last: nat, n: nat)
    requires last < n <= |es| && es[last].source == source
    requires forall i :: last < i < n ==> es[i].source != source
    ensures Slot(config, es, source, n).Some? ==> Slot(config, es, source, n).value.access == es[last].now
  {
    SlotStep(config, es, source, n - 1);
    if last < n - 1 {
      AccessIsLastCheck(config, es, source, last, n - 1);
    }
  }

  /**
   An evicted source was stale: at least 8001 sources survive, and the last
   check of each of them is no earlier than the evicted source's last check.
   */
  lemma EvictedIsStale(config: RateLimitConfig, es: seq<Event>, i: nat, gone: string, last: nat)
    requires EvictsOldest(config, es) && i < |es| && gone in es[i].removed
    requires last < i && es[last].source == gone && forall k :: last < k < i ==> es[k].source != gone
    ensures var survivors := After(config, es, i).Keys - es[i].removed;
            && 8001 <= |survivors|
            && forall s, k: nat :: s in survivors && LastCheck(es, s, k, i) ==> es[last].now <= es[k].now
  {
    var m, removed := After(config, es, i), es[i].removed;
    assert EvictsAt(config, es, i);
    SurvivorCount(m, removed);
    SlotIsBucket(config, es, gone, i);
    AccessIsLastCheck(config, es, gone, last, i);
    forall s, k: nat | s in m.Keys - removed && LastCheck(es, s, k, i)
      ensures es[last].now <= es[k].now
    {
      SlotIsBucket(config, es, s, i);
      AccessIsLastCheck(config, es, s, k, i);
      assert m[gone].access <= m[s].access;
    }
  }

  lemma SurvivorCount(m: Buckets, removed: set<string>)
    requires EvictionOf(m, removed) && removed != {}
    ensures 8001 <= |m.Keys - removed|
  {
    assert |m.Keys - removed| == |m.Keys| - |removed|;
  }

  ghost predicate LastCheck(es: seq<Event>, source: string, k: nat, n: nat)
    requires n <= |es|
  {
    k < n && es[k].source == source && forall i :: k < i < n ==> es[i].source != source
  }

  // ----- one check, in scaled integers -----

  /** Credit never exceeds what accrued, and no credit means less than one token accrued. */
  lemma CreditBounds(config: RateLimitConfig, elapsed: nat)
    ensures Credit(config, elapsed) * MINUTE <= elapsed * config.maxRequestsPerMinute
    ensures Credit(config, elapsed) == 0 <==> elapsed * config.maxRequestsPerMinute < MINUTE
  {
    var x := elapsed * config.maxRequestsPerMinute;
    assert x == (x / MINUTE) * MINUTE + x % MINUTE;
  }

  lemma AccruedIsFloor(config: RateLimitConfig, elapsed: nat, tokens: int)
    requires MINUTE * tokens <= elapsed * config.maxRequestsPerMinute
    ensures tokens <= Accrued(config, elapsed)
  {
    var x := elapsed * config.maxRequestsPerMinute;
    assert x == (x / MINUTE) * MINUTE + x % MINUTE;
  }

  /** A refill adds at most the tokens paid for by the movement of the refill instant. */
  lemma RefillPays(config: RateLimitConfig, b: Bucket, now: nat)
    requires b.refill <= now
    ensures var r := Refilled(config, b, now);
            && b.refill <= r.refill <= now
            && MINUTE * r.tokens <= MINUTE * b.tokens + Paid(config, b.refill, r.refill)
  {
    CreditBounds(config, Elapsed(b.refill, now));
  }

  /** Token fractions, in units of 1/MINUTE, that accrue between two instants. */
  function Paid(config: RateLimitConfig, from: nat, until: nat): (p: nat)
    requires from <= until
    ensures from == until ==> p == 0
  {
    (until - from) * config.maxRequestsPerMinute
  }

  lemma PaidSplits(config: RateLimitConfig, a: nat, b: nat, c: nat)
    requires a <= b <= c
    ensures Paid(config, a, c) == Paid(config, a, b) + Paid(config, b, c)
  {
  }

  /** After a check a bucket never holds a full burst: a check that finds a token spends one. */
  lemma {:induction false} SlotInvariant(config: RateLimitConfig, es: seq<Event>, source: string, n: nat)
    requires ClockRuns(es) && n <= |es|
    ensures Slot(config, es, source, n).Some? ==>
              var b := Slot(config, es, source, n).value;
              && n > 0
              && b.tokens <= (if config.burstSize > 0 then config.burstSize - 1 else 0)
              && b.refill <= es[n - 1].now
  {
    if n > 0 {
      SlotInvariant(config, es, source, n - 1);
      SlotStep(config, es, source, n - 1);
    }
  }

  // ----- no source gets more than its rate -----

  /** The refill instant of a source, or the last check's instant while it has no bucket. */
  function RefillClock(config: RateLimitConfig, es: seq<Event>, source: string, n: nat): nat
    requires 0 < n <= |es|
  {
    var slot := Slot(config, es, source, n);
    if slot.Some? then slot.value.refill else es[n - 1].now
  }

  /** Tokens a source holds after `n` checks; none when it has no bucket. */
  function Tokens(config: RateLimitConfig, es: seq<Event>, source: string, n: nat): nat
    requires n <= |es|
  {
    var slot := Slot(config, es, source, n);
    if slot.Some? then slot.value.tokens else 0
  }

  /** Grants and tokens still held are paid for by bursts and by elapsed time. */
  lemma {:induction false} Accounting(config: RateLimitConfig, es: seq<Event>, source: string, first: nat, n: nat)
    requires ClockRuns(es) && first < n <= |es|
    requires es[first].source == source && forall i :: 0 <= i < first ==> es[i].source != source
    ensures es[first].now <= RefillClock(config, es, source, n) <= es[n - 1].now
    ensures MINUTE * (Grants(config, es, source, 0, n) + Tokens(config, es, source, n))
         <= MINUTE * Bursts(config, es, source, n)
            + Paid(config, es[first].now, RefillClock(config, es, source, n))
  {
    if n == first + 1 {
      NothingBefore(config, es, source, first);
      BurstsStep(config, es, source, first);
      SlotStep(config, es, source, first);
      RefillPays(config, Bucket(config.burstSize, es[first].now, es[first].now), es[first].now);
    } else {
      Accounting(config, es, source, first, n - 1);
      BurstsStep(config, es, source, n - 1);
      SlotStep(config, es, source, n - 1);
      var e, kept := es[n - 1], Kept(config, es, source, n - 1);
      var b := if kept.Some? then kept.value else Bucket(config.burstSize, e.now, e.now);
      PaidSplits(config, es[first].now, RefillClock(config, es, source, n - 1), RefillClock(config, es, source, n));
      if e.source == source {
        RefillPays(config, b, e.now);
        PaidSplits(config, es[first].now, RefillClock(config, es, source, n - 1), b.refill);
        PaidSplits(config, es[first].now, b.refill, RefillClock(config, es, source, n));
      }
    }
  }

  /** One burst for each bucket created. */
  function Bursts(config: RateLimitConfig, es: seq<Event>, source: string, n: nat): nat
    requires n <= |es|
  {
    Insertions(config, es, source, n) * config.burstSize
  }

  lemma BurstsStep(config: RateLimitConfig, es: seq<Event>, source: string, i: nat)
    requires i < |es|
    ensures Bursts(config, es, source, i + 1)
         == Bursts(config, es, source, i)
            + if es[i].source == source && Kept(config, es, source, i).None? then config.burstSize else 0
  {
    var k, burst := Insertions(config, es, source, i), config.burstSize;
    assert (k + 1) * burst == k * burst + burst;
  }

  lemma {:induction false} NothingBefore(config: RateLimitConfig, es: seq<Event>, source: string, n: nat)
    requires n <= |es| && forall i :: 0 <= i < n ==> es[i].source != source
    ensures Slot(config, es, source, n) == None
    ensures Grants(config, es, source, 0, n) == 0 && Bursts(config, es, source, n) == 0
  {
    if n > 0 {
      NothingBefore(config, es, source, n - 1);
      SlotStep(config, es, source, n - 1);
      BurstsStep(config, es, source, n - 1);
    }
  }

  /**
   In any run, a source gets at most one burst per bucket it was given plus the
   tokens its rate allows between its first and its last check.
   */
  lemma GrantsBounded(config: RateLimitConfig, es: seq<Event>, source: string, first: nat, last: nat)
    requires ClockRuns(es) && first <= last < |es|
    requires es[first].source == es[last].source == source && forall i :: 0 <= i < first ==> es[i].source != source
    ensures Grants(config, es, source, 0, last + 1)
         <= Insertions(config, es, source, last + 1) * config.burstSize
            + Accrued(config, es[last].now - es[first].now)
  {
    Accounting(config, es, source, first, last + 1);
    PaidSplits(config, es[first].now, RefillClock(config, es, source, last + 1), es[last].now);
    AccruedIsFloor(config, es[last].now - es[first].now,
                   Grants(config, es, source, 0, last + 1) - Bursts(config, es, source, last + 1));
  }

  /** The source is not evicted between check `from` and check `end`. */
  ghost predicate OneLifetime(es: seq<Event>, source: string, from: nat, end: nat)
    requires from <= end <= |es|
  {
    forall i :: from < i < end ==> source !in es[i].removed
  }

  /** The same accounting from any check on, within one lifetime of the bucket. */
  lemma {:induction false} WindowAccounting(config: RateLimitConfig, es: seq<Event>, source: string, from: nat, n: nat)
    requires ClockRuns(es) && from < n <= |es| && es[from].source == source && OneLifetime(es, source, from, n)
    ensures Slot(config, es, source, from + 1).Some? && Slot(config, es, source, n).Some?
    ensures var start, b := Slot(config, es, source, from + 1).value, Slot(config, es, source, n).value;
            && start.refill <= b.refill <= es[n - 1].now
            && MINUTE * (Grants(config, es, source, from + 1, n) + b.tokens)
               <= MINUTE * start.tokens + Paid(config, start.refill, b.refill)
  {
    SlotStep(config, es, source, n - 1);
    if n == from + 1 {
      SlotInvariant(config, es, source, n);
    } else {
      WindowAccounting(config, es, source, from, n - 1);
      var start, b := Slot(config, es, source, from + 1).value, Slot(config, es, source, n - 1).value;
      PaidSplits(config, start.refill, b.refill, Slot(config, es, source, n).value.refill);
      if es[n - 1].source == source {
        RefillPays(config, b, es[n - 1].now);
      }
    }
  }

  /**
   While a bucket lives, the checks from any check on are granted at most one
   burst plus what the rate allows over the time they span.
   */
  lemma WindowBounded(config: RateLimitConfig, es: seq<Event>, source: string, from: nat, last: nat)
    requires ClockRuns(es) && from <= last < |es|
    requires es[from].source == es[last].source == source && OneLifetime(es, source, from, last + 1)
    ensures Grants(config, es, source, from, last + 1)
         <= config.burstSize + Accrued(config, es[last].now - es[from].now)
  {
    if config.burstSize == 0 {
      NoBurstNoGrants(config, es, source, from, last + 1);
      return;
    }
    WindowAccounting(config, es, source, from, last + 1);
    FirstOfWindow(config, es, source, from);
    GrantsSplit(config, es, source, from, from + 1, last + 1);
    var start, b := Slot(config, es, source, from + 1).value, Slot(config, es, source, last + 1).value;
    PaidSplits(config, start.refill, b.refill, es[last].now);
    PaidSplits(config, start.refill, es[from].now, es[last].now);
    var grants := Grants(config, es, source, from, last + 1);
    assert grants == Grants(config, es, source, from + 1, last + 1) + if Allowed(config, es, from) then 1 else 0;
    AccruedIsFloor(config, es[last].now - es[from].now, grants - config.burstSize);
  }

  lemma {:induction false} GrantsSplit(config: RateLimitConfig, es: seq<Event>, source: string, a: nat, b: nat, c: nat)
    requires a <= b <= c <= |es|
    ensures Grants(config, es, source, a, c) == Grants(config, es, source, a, b) + Grants(config, es, source, b, c)
  {
    if b < c {
      GrantsSplit(config, es, source, a, b, c - 1);
    }
  }

  /**
   Just before spending, the tokens a check finds and the time not yet credited
   are together worth at most one burst: either the refill instant is the
   check's own, or at least one token of the burst is already gone and less than
   one has accrued.
   */
  lemma FirstOfWindow(config: RateLimitConfig, es: seq<Event>, source: string, i: nat)
    requires ClockRuns(es) && i < |es| && es[i].source == source && config.burstSize > 0
    ensures Slot(config, es, source, i + 1).Some?
    ensures var b := Slot(config, es, source, i + 1).value;
            var held := b.tokens + if Allowed(config, es, i) then 1 else 0;
            && b.refill <= es[i].now
            && MINUTE * held + Paid(config, b.refill, es[i].now) <= MINUTE * config.burstSize
  {
    SlotStep(config, es, source, i);
    SlotInvariant(config, es, source, i);
    var kept := Kept(config, es, source, i);
    if kept.Some? {
      CreditBounds(config, Elapsed(kept.value.refill, es[i].now));
    }
  }

  lemma {:induction false} NoBurstNoGrants(config: RateLimitConfig, es: seq<Event>, source: string, from: nat, n: nat)
    requires ClockRuns(es) && from <= n <= |es| && config.burstSize == 0
    ensures Grants(config, es, source, from, n) == 0
  {
    if from < n {
      NoBurstNoGrants(config, es, source, from, n - 1);
      SlotStep(config, es, source, n - 1);
      SlotInvariant(config, es, source, n - 1);
    }
  }

  // ----- no source gets less than it waited for -----

  /** At check `i` the `u32` addition of tokens and credit comes out as zero. */
  predicate WrapsToZero(config: RateLimitConfig, es: seq<Event>, i: nat)
    requires i < |es|
  {
    var kept := Kept(config, es, es[i].source, i);
    kept.Some? && kept.value.tokens + Credit(config, Elapsed(kept.value.refill, es[i].now)) == U32_SIZE
  }

  /** A denied check finds no token and does not move the refill instant, unless the addition wrapped. */
  lemma DeniedKeepsClock(config: RateLimitConfig, es: seq<Event>, i: nat)
    requires ClockRuns(es) && i < |es| && config.burstSize > 0
    requires !Allowed(config, es, i) && !WrapsToZero(config, es, i)
    ensures var before, after := Slot(config, es, es[i].source, i), Slot(config, es, es[i].source, i + 1);
            && before.Some? && before.value.tokens == 0
            && after == Some(before.value.(access := es[i].now))
  {
    SlotStep(config, es, es[i].source, i);
  }

  /** Check `i` gives its source a new bucket, or credits at least one token. */
  predicate Credits(config: RateLimitConfig, es: seq<Event>, i: nat)
    requires i < |es|
  {
    var kept := Kept(config, es, es[i].source, i);
    kept.None? || MINUTE <= Elapsed(kept.value.refill, es[i].now) * config.maxRequestsPerMinute
  }

  /** A check moves the refill instant to its own if it credits, and leaves it alone otherwise. */
  lemma CreditsMoveClock(config: RateLimitConfig, es: seq<Event>, i: nat)
    requires ClockRuns(es) && i < |es|
    ensures Slot(config, es, es[i].source, i + 1).Some?
    ensures var kept, b := Kept(config, es, es[i].source, i), Slot(config, es, es[i].source, i + 1).value;
            b.refill == if Credits(config, es, i) then es[i].now else kept.value.refill
  {
    SlotStep(config, es, es[i].source, i);
    SlotInvariant(config, es, es[i].source, i);
    var kept := Kept(config, es, es[i].source, i);
    if kept.Some? {
      CreditBounds(config, es[i].now - kept.value.refill);
    }
  }

  /** Checks that credit nothing leave the refill instant alone, granted or not. */
  lemma {:induction false} ClockStays(config: RateLimitConfig, es: seq<Event>, source: string, i: nat, n: nat)
    requires ClockRuns(es) && i < n <= |es| && es[i].source == source && Credits(config, es, i)
    requires forall k :: i < k < n && es[k].source == source ==> !Credits(config, es, k)
    ensures Slot(config, es, source, n).Some? ==> Slot(config, es, source, n).value.refill == es[i].now
  {
    SlotStep(config, es, source, n - 1);
    if es[n - 1].source == source {
      CreditsMoveClock(config, es, n - 1);
    }
    if n > i + 1 {
      ClockStays(config, es, source, i, n - 1);
    }
  }

  /**
   When a check is allowed: the source has no bucket, or holds a token, or one
   token's time has passed since the refill instant - however often it polled or
   spent in between; the one exception is a wrapping `u32` addition.
   */
  lemma WaitingIsEnough(config: RateLimitConfig, es: seq<Event>, j: nat)
    requires ClockRuns(es) && j < |es| && config.burstSize > 0
    ensures var kept := Kept(config, es, es[j].source, j);
            kept.Some? ==> kept.value.refill <= es[j].now
    ensures var kept := Kept(config, es, es[j].source, j);
            Allowed(config, es, j)
            <==> kept.None?
                 || ((kept.value.tokens > 0 || MINUTE <= (es[j].now - kept.value.refill) * config.maxRequestsPerMinute)
                     && !WrapsToZero(config, es, j))
  {
    hide Refilled, Accrued, Credit;
    SlotStep(config, es, es[j].source, j);
    SlotInvariant(config, es, es[j].source, j);
    var kept := Kept(config, es, es[j].source, j);
    if kept.Some? {
      FoundSomething(config, kept.value, es[j].now);
    } else {
      FreshExactly(config, es[j].now);
    }
  }

  lemma FoundSomething(config: RateLimitConfig, b: Bucket, now: nat)
    requires b.refill <= now && b.tokens <= config.burstSize && config.burstSize > 0
    ensures Refilled(config, b, now).tokens > 0
       <==> (b.tokens > 0 || MINUTE <= (now - b.refill) * config.maxRequestsPerMinute)
            && b.tokens + Credit(config, Elapsed(b.refill, now)) != U32_SIZE
  {
    hide Refilled, Accrued;
    RefilledExactly(config, b, now);
    AtLeastOne(config, now - b.refill);
  }

  /** Told by the checks alone: one token's time after the last check that credited, the source is allowed. */
  lemma WaitingSinceRefill(config: RateLimitConfig, es: seq<Event>, i: nat, j: nat)
    requires ClockRuns(es) && i < j < |es| && es[i].source == es[j].source && config.burstSize > 0
    requires Credits(config, es, i) && forall k :: i < k < j && es[k].source == es[i].source ==> !Credits(config, es, k)
    requires MINUTE <= (es[j].now - es[i].now) * config.maxRequestsPerMinute
    ensures Allowed(config, es, j) <==> !WrapsToZero(config, es, j)
  {
    ClockStays(config, es, es[i].source, i, j);
    SlotStep(config, es, es[i].source, j);
    WaitingIsEnough(config, es, j);
  }

  /** Every check of `source` in the range was denied, without a wrapping addition. */
  ghost predicate OnlyDenied(config: RateLimitConfig, es: seq<Event>, source: string, from: nat, end: nat)
    requires from <= end <= |es|
  {
    forall k :: from <= k < end && es[k].source == source ==> !Allowed(config, es, k) && !WrapsToZero(config, es, k)
  }

  /** So polling in vain costs nothing: one token's time after any earlier check the source is allowed. */
  lemma PollingCostsNothing(config: RateLimitConfig, es: seq<Event>, source: string, i: nat, j: nat)
    requires ClockRuns(es) && i < j < |es| && es[i].source == es[j].source == source
    requires config.burstSize > 0 && OnlyDenied(config, es, source, i + 1, j)
    requires MINUTE <= (es[j].now - es[i].now) * config.maxRequestsPerMinute
    ensures Allowed(config, es, j) <==> !WrapsToZero(config, es, j)
  {
    hide Paid, OnlyDenied;
    SlotStep(config, es, source, j);
    WaitingIsEnough(config, es, j);
    var kept := Kept(config, es, source, j);
    if kept.Some? {
      ClockHeldBack(config, es, source, i, j);
      LongerIsMore(config, es[j].now - es[i].now, es[j].now - kept.value.refill);
    }
  }

  lemma LongerIsMore(config: RateLimitConfig, a: nat, b: nat)
    requires a <= b
    ensures a * config.maxRequestsPerMinute <= b * config.maxRequestsPerMinute
  {
  }

  lemma {:induction false} ClockHeldBack(config: RateLimitConfig, es: seq<Event>, source: string, i: nat, n: nat)
    requires ClockRuns(es) && i < n <= |es| && es[i].source == source
    requires config.burstSize > 0 && OnlyDenied(config, es, source, i + 1, n)
    ensures Slot(config, es, source, n).Some? ==> Slot(config, es, source, n).value.refill <= es[i].now
  {
    SlotStep(config, es, source, n - 1);
    if n == i + 1 {
      SlotInvariant(config, es, source, n);
    } else {
      ClockHeldBack(config, es, source, i, n - 1);
      if es[n - 1].source == source {
        DeniedKeepsClock(config, es, n - 1);
      }
    }
  }

  /** The exception cannot occur while the burst and all tokens accrued so far fit in 32 bits. */
  lemma NoWrapWithinRange(config: RateLimitConfig, es: seq<Event>, i: nat)
    requires ClockRuns(es) && i < |es|
    requires config.burstSize + Accrued(config, es[i].now) < U32_SIZE
    ensures !WrapsToZero(config, es, i)
  {
    var kept := Kept(config, es, es[i].source, i);
    if kept.Some? {
      SlotInvariant(config, es, es[i].source, i);
      var elapsed := es[i].now - kept.value.refill;
      PaidSplits(config, 0, kept.value.refill, es[i].now);
      CreditBounds(config, elapsed);
      AccruedIsFloor(config, es[i].now, Credit(config, elapsed));
    }
  }

  /** The exception is real: a source that waited for 2^32 - 1 tokens is denied. */
  lemma WrapDeniesAfterLongWait()
    ensures var config := RateLimitConfig(60, 2);
            var es := [Event("host", 0, {}), Event("host", (U32_SIZE - 1) * 1_000_000_000, {})];
            ClockRuns(es) && EvictsOldest(config, es) && WrapsToZero(config, es, 1) && !Allowed(config, es, 1)
  {
    var config := RateLimitConfig(60, 2);
    var es := [Event("host", 0, {}), Event("host", (U32_SIZE - 1) * 1_000_000_000, {})];
    SlotStep(config, es, "host", 0);
    assert Slot(config, es, "host", 1) == Some(Bucket(1, 0, 0));
    SlotStep(config, es, "host", 1);
    assert Accrued(config, es[1].now) == U32_SIZE - 1;
    assert EvictsAt(config, es, 0);
    var first := After(config, es, 1);
    assert first.Keys == {"host"};
    assert |first| == 1;
    assert EvictsAt(config, es, 1);
  }

  // ----- exactly how many tokens a check finds -----

  function Lesser(a: nat, b: nat): nat {
    if a <= b then a else b
  }

  /** What accrues is the whole number of tokens that the elapsed time is worth. */
  lemma AccruedExactly(config: RateLimitConfig, elapsed: nat)
    ensures Accrued(config, elapsed) * MINUTE <= elapsed * config.maxRequestsPerMinute
    ensures elapsed * config.maxRequestsPerMinute < (Accrued(config, elapsed) + 1) * MINUTE
  {
    var x := elapsed * config.maxRequestsPerMinute;
    assert x == (x / MINUTE) * MINUTE + x % MINUTE;
  }

  /** Tokens and accrued tokens of check `i` fit in 32 bits, the accrued ones being saturated. */
  predicate FitsInU32(config: RateLimitConfig, es: seq<Event>, i: nat)
    requires i < |es|
  {
    var kept := Kept(config, es, es[i].source, i);
    kept.Some? ==>
      kept.value.tokens + Lesser(Accrued(config, Elapsed(kept.value.refill, es[i].now)), U32_SIZE - 1) < U32_SIZE
  }

  /** The tokens of check `i` before it spends one: what was kept and what accrued, up to the burst. */
  function Holds(config: RateLimitConfig, es: seq<Event>, i: nat): nat
    requires i < |es|
  {
    var kept := Kept(config, es, es[i].source, i);
    if kept.None? then config.burstSize
    else Lesser(config.burstSize, kept.value.tokens + Accrued(config, Elapsed(kept.value.refill, es[i].now)))
  }

  /**
   What a check decides and leaves, exactly: it holds the lesser of the burst and
   of what was kept and accrued, is allowed if that is anything, and spends one.
   Where the sum does not fit in 32 bits, it holds what is left after the wrap.
   */
  lemma CheckIsExact(config: RateLimitConfig, es: seq<Event>, i: nat)
    requires ClockRuns(es) && i < |es|
    ensures var kept, now := Kept(config, es, es[i].source, i), es[i].now;
            var clock := if Credits(config, es, i) then now else kept.value.refill;
            var held :=
              if FitsInU32(config, es, i) then Holds(config, es, i)
              else Lesser(config.burstSize,
                          kept.value.tokens + Lesser(Accrued(config, Elapsed(kept.value.refill, now)), U32_SIZE - 1) - U32_SIZE);
            && (Allowed(config, es, i) <==> held > 0)
            && Slot(config, es, es[i].source, i + 1) == Some(Bucket(if held > 0 then held - 1 else 0, clock, now))
  {
    hide Accrued, Refilled;
    var source, now := es[i].source, es[i].now;
    SlotStep(config, es, source, i);
    SlotInvariant(config, es, source, i);
    var kept := Kept(config, es, source, i);
    if kept.Some? {
      RefilledExactly(config, kept.value, now);
    } else {
      FreshExactly(config, now);
    }
  }

  lemma FreshExactly(config: RateLimitConfig, now: nat)
    ensures Refilled(config, Bucket(config.burstSize, now, now), now) == Bucket(config.burstSize, now, now)
  {
  }

  lemma RefilledExactly(config: RateLimitConfig, b: Bucket, now: nat)
    requires b.refill <= now && b.tokens <= config.burstSize
    ensures var accrued := Accrued(config, Elapsed(b.refill, now));
            var sum := b.tokens + Lesser(accrued, U32_SIZE - 1);
            var credits := MINUTE <= Elapsed(b.refill, now) * config.maxRequestsPerMinute;
            Refilled(config, b, now)
            == Bucket(if sum < U32_SIZE then Lesser(config.burstSize, b.tokens + accrued)
                      else Lesser(config.burstSize, sum - U32_SIZE),
                      if credits then now else b.refill, now)
  {
    hide Accrued, Topped;
    var elapsed := Elapsed(b.refill, now);
    AccruedExactly(config, elapsed);
    AtLeastOne(config, elapsed);
    ToppedExactly(config, b.tokens, Credit(config, elapsed));
  }

  lemma AtLeastOne(config: RateLimitConfig, elapsed: nat)
    ensures Accrued(config, elapsed) > 0 <==> MINUTE <= elapsed * config.maxRequestsPerMinute
  {
    AccruedExactly(config, elapsed);
  }

  lemma ToppedExactly(config: RateLimitConfig, tokens: u32, credit: u32)
    ensures Topped(config, tokens, credit)
         == Lesser(config.burstSize, if tokens + credit < U32_SIZE then tokens + credit else tokens + credit - U32_SIZE)
  {
  }

  /** Checks of a source from `from` up to, and without, `end`. */
  function Checks(es: seq<Event>, source: string, from: nat, end: nat): nat
    requires from <= end <= |es|
    decreases end
  {
    if from == end then 0 else Checks(es, source, from, end - 1) + if es[end - 1].source == source then 1 else 0
  }

  /** A check costs at most one token, so a bucket that held a burst still holds it but for the checks since. */
  lemma {:induction false} BurstLasts(config: RateLimitConfig, es: seq<Event>, i: nat, n: nat)
    requires ClockRuns(es) && i < n <= |es| && OneLifetime(es, es[i].source, i, n)
    requires forall k :: i <= k < n && es[k].source == es[i].source ==> FitsInU32(config, es, k)
    requires Holds(config, es, i) == config.burstSize
    ensures var slot := Slot(config, es, es[i].source, n);
            slot.Some? && slot.value.tokens + Checks(es, es[i].source, i, n) >= config.burstSize
  {
    hide Accrued, Elapsed, FitsInU32;
    var source := es[i].source;
    SlotStep(config, es, source, n - 1);
    if n > i + 1 {
      BurstLasts(config, es, i, n - 1);
    }
    if es[n - 1].source == source {
      CheckIsExact(config, es, n - 1);
      SlotInvariant(config, es, source, n - 1);
    }
  }

  /** The source is new, or has waited for a whole burst since the refill instant. */
  predicate WaitedForBurst(config: RateLimitConfig, es: seq<Event>, i: nat)
    requires i < |es|
  {
    var kept := Kept(config, es, es[i].source, i);
    kept.Some? ==> config.burstSize * MINUTE <= Elapsed(kept.value.refill, es[i].now) * config.maxRequestsPerMinute
  }

  /**
   A source that is new, or has waited for a whole burst, gets a whole burst: its
   next `burstSize` checks are all allowed, unless it is evicted or a sum wraps.
   */
  lemma WholeBurst(config: RateLimitConfig, es: seq<Event>, i: nat, j: nat)
    requires ClockRuns(es) && i <= j < |es| && es[i].source == es[j].source
    requires WaitedForBurst(config, es, i) && OneLifetime(es, es[i].source, i, j + 1)
    requires forall k :: i <= k <= j && es[k].source == es[i].source ==> FitsInU32(config, es, k)
    requires Checks(es, es[i].source, i, j) < config.burstSize
    ensures Allowed(config, es, j)
  {
    hide FitsInU32, Credits;
    var kept := Kept(config, es, es[i].source, i);
    if kept.Some? {
      EnoughAccrued(config, Elapsed(kept.value.refill, es[i].now));
    }
    CheckIsExact(config, es, j);
    if i < j {
      BurstLasts(config, es, i, j);
      SlotStep(config, es, es[i].source, j);
    }
  }

  lemma EnoughAccrued(config: RateLimitConfig, elapsed: nat)
    requires config.burstSize * MINUTE <= elapsed * config.maxRequestsPerMinute
    ensures config.burstSize <= Accrued(config, elapsed)
  {
    AccruedExactly(config, elapsed);
  }

  /** The refill of check `i`, if it makes one, stays within the burst. */
  predicate Uncapped(config: RateLimitConfig, es: seq<Event>, i: nat)
    requires i < |es|
  {
    var kept := Kept(config, es, es[i].source, i);
    kept.Some? ==>
      kept.value.tokens + Accrued(config, Elapsed(kept.value.refill, es[i].now)) <= config.burstSize
  }

  /**
   Dropping the fraction at each refill costs less than half: while a bucket
   lives and no refill is capped, the tokens credited to a source are worth at
   least half of the time its refill instant moved.
   */
  lemma {:induction false} AtLeastHalfTheRate(config: RateLimitConfig, es: seq<Event>, source: string, from: nat, n: nat)
    requires ClockRuns(es) && from < n <= |es| && es[from].source == source && OneLifetime(es, source, from, n)
    requires forall k :: from < k < n && es[k].source == source ==> Uncapped(config, es, k)
    ensures Slot(config, es, source, from + 1).Some? && Slot(config, es, source, n).Some?
    ensures var start, b := Slot(config, es, source, from + 1).value, Slot(config, es, source, n).value;
            && start.refill <= b.refill
            && Paid(config, start.refill, b.refill)
               <= 2 * MINUTE * (Grants(config, es, source, from + 1, n) + b.tokens - start.tokens)
  {
    hide Paid, Accrued, Credit, Refilled;
    SlotStep(config, es, source, n - 1);
    if n > from + 1 {
      AtLeastHalfTheRate(config, es, source, from, n - 1);
      SlotInvariant(config, es, source, n - 1);
      var start, b := Slot(config, es, source, from + 1).value, Slot(config, es, source, n - 1).value;
      if es[n - 1].source == source {
        assert Uncapped(config, es, n - 1);
        RefillWorthHalf(config, b, es[n - 1].now);
        PaidSplits(config, start.refill, b.refill, Slot(config, es, source, n).value.refill);
      }
    }
  }

  lemma RefillWorthHalf(config: RateLimitConfig, b: Bucket, now: nat)
    requires b.refill <= now
    requires b.tokens + Accrued(config, now - b.refill) <= config.burstSize
    ensures var r := Refilled(config, b, now);
            && b.refill <= r.refill
            && Paid(config, b.refill, r.refill) <= 2 * MINUTE * (r.tokens - b.tokens)
  {
    hide Refilled, Accrued;
    RefilledExactly(config, b, now);
    AccruedExactly(config, now - b.refill);
    AtLeastOne(config, now - b.refill);
  }
}

/**
 The per-source token bucket of the adversary detector.

 Instants are integer nanoseconds.  A bucket is refilled with the whole number
 of tokens that accrued since its refill instant; the cast to `u32` saturates
 and the following addition wraps, as in a release build.
 */
module RateLimiter {

  const MAX_SOURCES: nat := 10000
  const U32_SIZE: nat := 0x1_0000_0000

  /** Nanoseconds in one minute: the rate is given in requests per minute. */
  const MINUTE: nat := 60_000_000_000

  type u32 = n: nat | n < U32_SIZE

  datatype RateLimitConfig = RateLimitConfig(maxRequestsPerMinute: u32, burstSize: u32)

  datatype Bucket = Bucket(tokens: u32, refill: nat, access: nat)

  type Buckets = map<string, Bucket>

  /** Instants never go backwards; the subtraction saturates at zero. */
  function Elapsed(since: nat, now: nat): nat {
    if since <= now then now - since else 0
  }

  /** Whole tokens accrued over `elapsed` nanoseconds. */
  function Accrued(config: RateLimitConfig, elapsed: nat): nat {
    elapsed * config.maxRequestsPerMinute / MINUTE
  }

  function Credit(config: RateLimitConfig, elapsed: nat): u32 {
    if Accrued(config, elapsed) < U32_SIZE then Accrued(config, elapsed) else U32_SIZE - 1
  }

  /** The tokens after crediting: the sum wraps, and the burst caps it. */
  function Topped(config: RateLimitConfig, tokens: u32, credit: u32): u32 {
    var sum := (tokens + credit) % U32_SIZE;
    if sum <= config.burstSize then sum else config.burstSize
  }

  /** The bucket after its access instant moved to `now` and credit was added. */
  function Refilled(config: RateLimitConfig, b: Bucket, now: nat): Bucket {
    var credit := Credit(config, Elapsed(b.refill, now));
    if credit > 0 then
      Bucket(Topped(config, b.tokens, credit), now, now)
    else
      b.(access := now)
  }

  /** One token is taken if there is one. */
  function Spent(b: Bucket): Bucket {
    if b.tokens > 0 then b.(tokens := b.tokens - 1) else b
  }

  function BucketFor(config: RateLimitConfig, m: Buckets, source: string, now: nat): Bucket {
    if source in m then m[source] else Bucket(config.burstSize, now, now)
  }

  /** The bucket of `source` just before the spending decision at `now`. */
  function Ready(config: RateLimitConfig, m: Buckets, source: string, now: nat): Bucket {
    Refilled(config, BucketFor(config, m, source, now), now)
  }

  function Without(m: Buckets, removed: set<string>): Buckets {
    map source | source in m && source !in removed :: m[source]
  }

  /** The map after a check of `source`, the sources in `removed` being evicted first. */
  function AfterCheck(config: RateLimitConfig, m: Buckets, source: string, now: nat, removed: set<string>): Buckets {
    var kept := Without(m, removed);
    kept[source := Spent(Ready(config, kept, source, now))]
  }

  predicate Granted(config: RateLimitConfig, m: Buckets, source: string, now: nat, removed: set<string>) {
    Ready(config, Without(m, removed), source, now).tokens > 0
  }

  /** `removed` is a least-recently-used fifth of an over-full map, and empty otherwise. */
  ghost predicate EvictionOf(m: Buckets, removed: set<string>) {
    if |m| <= MAX_SOURCES then
      removed == {}
    else
      && removed <= m.Keys
      && |removed| == |m| / 5
      && forall gone, kept :: gone in removed && kept in m.Keys - removed ==> m[gone].access <= m[kept].access
  }

  /** A key with its last access instant, as collected for the eviction. */
  datatype Entry = Entry(source: string, access: nat)

  ghost predicate Distinct(entries: seq<Entry>) {
    forall i, j :: 0 <= i < j < |entries| ==> entries[i].source != entries[j].source
  }

  ghost predicate SortedByAccess(entries: seq<Entry>) {
    forall i, j :: 0 <= i < j < |entries| ==> entries[i].access <= entries[j].access
  }

  function Sources(entries: seq<Entry>): set<string> {
    set e | e in entries :: e.source
  }

  /** The entries are exactly the map's keys, each once, with its access instant. */
  ghost predicate Lists(entries: seq<Entry>, m: Buckets) {
    && Distinct(entries)
    && Sources(entries) == m.Keys
    && forall e :: e in entries ==> e.source in m && m[e.source].access == e.access
  }

  /** Where a stable sort puts a new entry: behind the entries that are not newer. */
  function Position(sorted: seq<Entry>, access: nat): (p: nat)
    requires SortedByAccess(sorted)
    ensures p <= |sorted|
    ensures forall i :: 0 <= i < p ==> sorted[i].access <= access
    ensures forall i :: p <= i < |sorted| ==> access < sorted[i].access
  {
    if sorted == [] || sorted[|sorted| - 1].access <= access then |sorted|
    else Position(sorted[..|sorted| - 1], access)
  }

  function Inserted(sorted: seq<Entry>, e: Entry): (r: seq<Entry>)
    requires SortedByAccess(sorted)
    ensures SortedByAccess(r)
  {
    var p := Position(sorted, e.access);
    sorted[..p] + [e] + sorted[p..]
  }

  lemma InsertedKeepsEntries(sorted: seq<Entry>, e: Entry)
    requires SortedByAccess(sorted) && Distinct(sorted)
    requires forall i :: 0 <= i < |sorted| ==> sorted[i].source != e.source
    ensures Distinct(Inserted(sorted, e))
    ensures forall x :: x in Inserted(sorted, e) <==> x in sorted || x == e
  {
    var p := Position(sorted, e.access);
    assert sorted == sorted[..p] + sorted[p..];
  }

  /** The map has `|entries|` keys when the entries list it. */
  lemma ListingSize(entries: seq<Entry>, m: Buckets)
    requires Lists(entries, m)
    ensures |entries| == |m|
  {
    SourcesSize(entries);
    assert |m| == |m.Keys|;
  }

  lemma SourcesSize(entries: seq<Entry>)
    requires Distinct(entries)
    ensures |Sources(entries)| == |entries|
  {
    if entries != [] {
      var front, last := entries[..|entries| - 1], entries[|entries| - 1];
      SourcesSize(front);
      assert entries == front + [last];
      assert Sources(entries) == Sources(front) + {last.source};
      assert forall e :: e in front ==> e.source != last.source;
    }
  }

  lemma SourcesOfNext(entries: seq<Entry>, i: nat)
    requires i < |entries|
    ensures Sources(entries[..i + 1]) == Sources(entries[..i]) + {entries[i].source}
  {
    assert entries[..i + 1] == entries[..i] + [entries[i]];
  }

  class RateLimiter {
    const config: RateLimitConfig
    var buckets: Buckets

    constructor (config: RateLimitConfig)
      ensures this.config == config && buckets == map[]
    {
      this.config := config;
      buckets := map[];
    }

    /** Collects the entries in whatever order the hash map yields them. */
    method CollectEntries() returns (entries: seq<Entry>)
      ensures Lists(entries, buckets)
    {
      entries := [];
      var rest := buckets.Keys;
      while rest != {}
        invariant rest <= buckets.Keys
        invariant Distinct(entries)
        invariant Sources(entries) == buckets.Keys - rest
        invariant forall e :: e in entries ==> e.source in buckets && buckets[e.source].access == e.access
        decreases rest
      {
        var k :| k in rest;
        ghost var before := entries;
        assert forall i :: 0 <= i < |before| ==> before[i].source in Sources(before);
        entries := entries + [Entry(k, buckets[k].access)];
        rest := rest - {k};
        assert Sources(entries) == Sources(before) + {k};
      }
    }

    method SortEntries(entries: seq<Entry>) returns (sorted: seq<Entry>)
      requires Lists(entries, buckets)
      ensures SortedByAccess(sorted) && Lists(sorted, buckets)
    {
      sorted := [];
      for i := 0 to |entries|
        invariant SortedByAccess(sorted) && Distinct(sorted)
        invariant forall x :: x in sorted <==> x in entries[..i]
      {
        assert entries[..i + 1] == entries[..i] + [entries[i]];
        assert forall x :: x in entries[..i] ==> x.source != entries[i].source;
        InsertedKeepsEntries(sorted, entries[i]);
        sorted := Inserted(sorted, entries[i]);
      }
      assert entries[..|entries|] == entries;
      assert Sources(sorted) == Sources(entries);
    }

    method RemoveSources(entries: seq<Entry>)
      modifies this
      ensures buckets == Without(old(buckets), Sources(entries))
    {
      for i := 0 to |entries|
        invariant buckets == Without(old(buckets), Sources(entries[..i]))
      {
        SourcesOfNext(entries, i);
        buckets := Without(buckets, {entries[i].source});
      }
      assert entries[..|entries|] == entries;
    }

    /** Drops the least recently used fifth once there are too many sources. */
    method EvictIfNeeded() returns (ghost removed: set<string>)
      modifies this
      ensures EvictionOf(old(buckets), removed)
      ensures buckets == Without(old(buckets), removed)
    {
      removed := {};
      if |buckets| <= MAX_SOURCES {
        return;
      }
      var toRemove := |buckets| / 5;
      var entries := CollectEntries();
      entries := SortEntries(entries);
      ListingSize(entries, buckets);
      removed := Sources(entries[..toRemove]);
      SourcesSize(entries[..toRemove]);
      OldestFirst(entries, buckets, toRemove);
      RemoveSources(entries[..toRemove]);
    }

    /** Is a request from `source` allowed at `now`?  The bucket is updated in place. */
    method Check(source: string, now: nat) returns (ok: bool, ghost removed: set<string>)
      modifies this
      ensures EvictionOf(old(buckets), removed)
      ensures buckets == AfterCheck(config, old(buckets), source, now, removed)
      ensures ok == Granted(config, old(buckets), source, now, removed)
    {
      hide EvictionOf, Credit, Elapsed, Topped;
      removed := EvictIfNeeded();
      ghost var kept := buckets;
      if source !in buckets {
        buckets := buckets[source := Bucket(config.burstSize, now, now)];
      }
      var bucket := buckets[source];
      bucket := bucket.(access := now);
      var tokensToAdd := Credit(config, Elapsed(bucket.refill, now));
      if tokensToAdd > 0 {
        bucket := Bucket(Topped(config, bucket.tokens, tokensToAdd), now, bucket.access);
      }
      ok := bucket.tokens > 0;
      if ok {
        bucket := bucket.(tokens := bucket.tokens - 1);
      }
      assert ok == (Ready(config, kept, source, now).tokens > 0) && bucket == Spent(Ready(config, kept, source, now));
      buckets := buckets[source := bucket];
    }
  }

  /** The first entries of a sorted listing were accessed no later than the others. */
  lemma OldestFirst(entries: seq<Entry>, m: Buckets, count: nat)
    requires Lists(entries, m) && SortedByAccess(entries) && count <= |entries|
    ensures Sources(entries[..count]) <= m.Keys
    ensures forall gone, kept :: gone in Sources(entries[..count]) && kept in m.Keys - Sources(entries[..count]) ==>
              m[gone].access <= m[kept].access
  {
    forall gone, kept | gone in Sources(entries[..count]) && kept in m.Keys - Sources(entries[..count])
      ensures m[gone].access <= m[kept].access
    {
      var i :| 0 <= i < count && entries[i].source == gone;
      assert kept in Sources(entries);
      var j :| 0 <= j < |entries| && entries[j].source == kept;
      assert count <= j by {
        assert forall k :: 0 <= k < count ==> entries[..count][k].source in Sources(entries[..count]);
      }
      assert entries[i] in entries && entries[j] in entries;
    }
  }
}

/**
 The digest store: URL to the digest, verdict and timestamp of its last scan,
 with the human-approval flag.  Wall-clock instants are integer nanoseconds and
 may go backwards.
 */
module DigestStore {
  import opened Results
  import opened Verdicts

  const SECOND: nat := 1_000_000_000
  const I64_SIZE: nat := 0x8000_0000_0000_0000

  type u64 = n: nat | n < 2 * I64_SIZE

  datatype ContentDigest = ContentDigest(
    sha256: string,
    verdict: ScanVerdict,
    timestamp: int,
    overrideApproved: bool)

  type Entries = map<string, ContentDigest>

  /** Whole seconds of a signed duration, truncated toward zero. */
  function NumSeconds(nanos: int): int {
    if nanos >= 0 then nanos / SECOND else -((-nanos) / SECOND)
  }

  /** The bits of a `u64` read as an `i64`. */
  function AsI64(n: u64): int {
    if n < I64_SIZE then n else n - 2 * I64_SIZE
  }

  /** An entry stored at `timestamp` may be used at `now`. */
  predicate Usable(maxAgeSecs: Option<u64>, timestamp: int, now: int) {
    maxAgeSecs.Some? ==> NumSeconds(now - timestamp) <= AsI64(maxAgeSecs.value)
  }

  function Lookup(entries: Entries, url: string, maxAgeSecs: Option<u64>, now: int): Option<ContentDigest> {
    if url in entries && Usable(maxAgeSecs, entries[url].timestamp, now) then Some(entries[url]) else None
  }

  /** The flag is raised only on a stored entry with exactly this digest. */
  function Approve(entries: Entries, url: string, digest: string): Entries {
    if url in entries && entries[url].sha256 == digest
    then entries[url := entries[url].(overrideApproved := true)]
    else entries
  }

  /** A usable entry is younger than one second more than the TTL; there is no limit without a TTL. */
  lemma UsableBounds(maxAgeSecs: Option<u64>, timestamp: int, now: int)
    ensures maxAgeSecs.None? ==> Usable(maxAgeSecs, timestamp, now)
    ensures maxAgeSecs.Some? && maxAgeSecs.value < I64_SIZE ==>
              (Usable(maxAgeSecs, timestamp, now) <==> now - timestamp < (maxAgeSecs.value + 1) * SECOND)
  {
    var age := now - timestamp;
    if age >= 0 {
      assert age == (age / SECOND) * SECOND + age % SECOND;
    } else {
      assert -age == (-age / SECOND) * SECOND + -age % SECOND;
    }
  }

  /** A TTL of 2^63 seconds or more reads as negative: only timestamps in the far future are usable. */
  lemma HugeTtlExpiresEverything(ttlSecs: u64, timestamp: int, now: int)
    requires I64_SIZE <= ttlSecs && timestamp <= now
    ensures !Usable(Some(ttlSecs), timestamp, now)
  {
    assert 0 <= (now - timestamp) / SECOND;
  }

  lemma HugeTtlBounds(ttlSecs: u64, timestamp: int, now: int)
    requires I64_SIZE <= ttlSecs
    ensures Usable(Some(ttlSecs), timestamp, now) <==> timestamp - now >= (2 * I64_SIZE - ttlSecs) * SECOND
  {
    var age, m := now - timestamp, 2 * I64_SIZE - ttlSecs;
    if age >= 0 {
      assert NumSeconds(age) >= 0 && m * SECOND > 0;
    } else {
      assert -age == (-age / SECOND) * SECOND + -age % SECOND;
    }
  }

  class DigestStore {
    var entries: Entries

    constructor ()
      ensures entries == map[]
    {
      entries := map[];
    }

    /** The entry of `url`, unless it is missing or too old. */
    method Get(url: string, maxAgeSecs: Option<u64>, now: int) returns (r: Option<ContentDigest>)
      ensures r == Lookup(entries, url, maxAgeSecs, now)
    {
      if url !in entries {
        return None;
      }
      var entry := entries[url];
      if maxAgeSecs.Some? {
        var age := now - entry.timestamp;
        if NumSeconds(age) > AsI64(maxAgeSecs.value) {
          return None;
        }
      }
      return Some(entry);
    }

    method Set(url: string, entry: ContentDigest)
      modifies this
      ensures entries == old(entries)[url := entry]
    {
      entries := entries[url := entry];
    }

    method MarkOverride(url: string, digest: string)
      modifies this
      ensures entries == Approve(old(entries), url, digest)
    {
      if url in entries && entries[url].sha256 == digest {
        var entry := entries[url];
        entries := entries[url := entry.(overrideApproved := true)];
      }
    }
  }
}

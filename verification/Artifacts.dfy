/**
 Collecting the files of a run directory.

 A file system is what the walk can observe of it: the kind of each canonical
 path, the entries `read_dir` yields for a directory in some order - each of
 them unreadable, or an item with its canonical target if that can be resolved -
 and the detected MIME type of each readable file.  Directories may be linked in
 cycles.
 */
module Artifacts {
  import opened Results
  import opened PathOrder

  const MAX_TOTAL_BYTES: nat := 100 * 1024 * 1024
  const U64_SIZE: nat := 0x1_0000_0000_0000_0000

  type u64 = n: nat | n < U64_SIZE

  datatype Meta = Dir | File(len: u64) | Other

  datatype Entry = Unreadable | Item(target: Option<Path>)

  datatype FileSystem = FileSystem(
    meta: map<Path, Meta>,
    listing: map<Path, seq<Entry>>,
    mime: map<Path, string>)

  datatype Attachment = Attachment(path: Path, mimeType: string, sizeBytes: u64)

  datatype CollectError =
    | NotAccessible
    | ReadDirFailed
    | ReadEntryFailed
    | CanonicalizeFailed
    | Escaped
    | InspectFailed
    | TooLarge
    | TotalOverflow
    | TotalTooLarge
    | TooMany
    | MimeFailed

  // ----- what a directory contributes -----

  predicate IsFile(fs: FileSystem, e: Entry) {
    e.Item? && e.target.Some? && e.target.value in fs.meta && fs.meta[e.target.value].File?
  }

  predicate IsDir(fs: FileSystem, e: Entry) {
    e.Item? && e.target.Some? && e.target.value in fs.meta && fs.meta[e.target.value].Dir?
  }

  /** The attachment made of the regular file at `path`. */
  function AttachmentAt(fs: FileSystem, path: Path): Attachment
    requires path in fs.meta && fs.meta[path].File?
  {
    Attachment(path, if path in fs.mime then fs.mime[path] else "", fs.meta[path].len)
  }

  function FilesIn(fs: FileSystem, entries: seq<Entry>): seq<Attachment> {
    if entries == [] then []
    else
      var e := entries[|entries| - 1];
      FilesIn(fs, entries[..|entries| - 1]) + if IsFile(fs, e) then [AttachmentAt(fs, e.target.value)] else []
  }

  function DirsIn(fs: FileSystem, entries: seq<Entry>): set<Path> {
    set e | e in entries && IsDir(fs, e) :: e.target.value
  }

  /** An entry that does not stop the collection by itself. */
  predicate Acceptable(fs: FileSystem, base: Path, maxBytes: u64, e: Entry) {
    && e.Item? && e.target.Some?
    && base <= e.target.value
    && e.target.value in fs.meta
    && (IsFile(fs, e) ==> fs.meta[e.target.value].len <= maxBytes && e.target.value in fs.mime)
  }

  /** What is wrong with an entry that is not acceptable. */
  function EntryError(fs: FileSystem, base: Path, maxBytes: u64, e: Entry): (r: Option<CollectError>)
    ensures r.None? <==> Acceptable(fs, base, maxBytes, e)
  {
    if e.Unreadable? then Some(ReadEntryFailed)
    else if e.target.None? then Some(CanonicalizeFailed)
    else if !(base <= e.target.value) then Some(Escaped)
    else if e.target.value !in fs.meta then Some(InspectFailed)
    else if !IsFile(fs, e) then None
    else if fs.meta[e.target.value].len > maxBytes then Some(TooLarge)
    else if e.target.value !in fs.mime then Some(MimeFailed)
    else None
  }

  ghost predicate AllAcceptable(fs: FileSystem, base: Path, maxBytes: u64, entries: seq<Entry>) {
    forall e :: e in entries ==> Acceptable(fs, base, maxBytes, e)
  }

  function EntriesOf(fs: FileSystem, dir: Path): seq<Entry> {
    if dir in fs.listing then fs.listing[dir] else []
  }

  // ----- what is reachable -----

  /** A walk from the base that follows directory entries. */
  ghost predicate Walk(fs: FileSystem, base: Path, dirs: seq<Path>) {
    && dirs != [] && dirs[0] == base
    && forall i :: 0 < i < |dirs| ==> dirs[i] in DirsIn(fs, EntriesOf(fs, dirs[i - 1]))
  }

  ghost predicate Reachable(fs: FileSystem, base: Path, dir: Path) {
    exists dirs :: Walk(fs, base, dirs) && dirs[|dirs| - 1] == dir
  }

  function KnownDirs(fs: FileSystem, base: Path): set<Path> {
    {base} + set p | p in fs.meta && fs.meta[p].Dir?
  }

  ghost function Reach(fs: FileSystem, base: Path): set<Path> {
    set dir | dir in KnownDirs(fs, base) && Reachable(fs, base, dir)
  }

  lemma BaseReached(fs: FileSystem, base: Path)
    ensures base in Reach(fs, base)
  {
    assert Walk(fs, base, [base]);
  }

  lemma ReachExtends(fs: FileSystem, base: Path, dir: Path)
    requires dir in Reach(fs, base)
    ensures DirsIn(fs, EntriesOf(fs, dir)) <= Reach(fs, base)
  {
    var dirs :| Walk(fs, base, dirs) && dirs[|dirs| - 1] == dir;
    forall d | d in DirsIn(fs, EntriesOf(fs, dir))
      ensures d in Reach(fs, base)
    {
      assert Walk(fs, base, dirs + [d]);
      assert (dirs + [d])[|dirs|] == d;
    }
  }

  /** A set with the base that is closed under directory entries holds everything reachable. */
  lemma ClosedHoldsReach(fs: FileSystem, base: Path, closed: set<Path>)
    requires base in closed
    requires forall d :: d in closed ==> DirsIn(fs, EntriesOf(fs, d)) <= closed
    ensures Reach(fs, base) <= closed
  {
    forall dir | dir in Reach(fs, base)
      ensures dir in closed
    {
      var dirs :| Walk(fs, base, dirs) && dirs[|dirs| - 1] == dir;
      WalkStaysInside(fs, base, closed, dirs);
    }
  }

  lemma {:induction false} WalkStaysInside(fs: FileSystem, base: Path, closed: set<Path>, dirs: seq<Path>)
    requires base in closed && Walk(fs, base, dirs)
    requires forall d :: d in closed ==> DirsIn(fs, EntriesOf(fs, d)) <= closed
    ensures dirs[|dirs| - 1] in closed
  {
    if |dirs| > 1 {
      var front := dirs[..|dirs| - 1];
      assert Walk(fs, base, front);
      WalkStaysInside(fs, base, closed, front);
      assert dirs[|dirs| - 1] in DirsIn(fs, EntriesOf(fs, dirs[|dirs| - 2]));
    }
  }

  // ----- all files of a set of directories, and their bytes -----

  ghost function AnyDir(dirs: set<Path>): (d: Path)
    requires dirs != {}
    ensures d in dirs
  {
    var d :| d in dirs;
    d
  }

  ghost function AllFiles(fs: FileSystem, dirs: set<Path>): multiset<Attachment> {
    if dirs == {} then multiset{}
    else
      var d := AnyDir(dirs);
      multiset(FilesIn(fs, EntriesOf(fs, d))) + AllFiles(fs, dirs - {d})
  }

  lemma {:induction false} AllFilesAdd(fs: FileSystem, dirs: set<Path>, d: Path)
    requires d !in dirs
    ensures AllFiles(fs, dirs + {d}) == AllFiles(fs, dirs) + multiset(FilesIn(fs, EntriesOf(fs, d)))
    decreases dirs
  {
    var more := dirs + {d};
    var x := AnyDir(more);
    if x == d {
      assert more - {x} == dirs;
    } else {
      assert more - {x} == (dirs - {x}) + {d};
      AllFilesAdd(fs, dirs - {x}, d);
      AllFilesAdd(fs, dirs - {x}, x);
      assert (dirs - {x}) + {x} == dirs;
    }
  }

  lemma {:induction false} AllFilesGrow(fs: FileSystem, less: set<Path>, more: set<Path>)
    requires less <= more
    ensures AllFiles(fs, less) <= AllFiles(fs, more)
    decreases more - less
  {
    if more - less == {} {
      assert more == less + (more - less) == less;
    } else {
      var d := AnyDir(more - less);
      AllFilesAdd(fs, less, d);
      AllFilesGrow(fs, less + {d}, more);
    }
  }

  ghost function AnyFile(files: multiset<Attachment>): (a: Attachment)
    requires files != multiset{}
    ensures a in files
  {
    var a :| a in files;
    a
  }

  ghost function Bytes(files: multiset<Attachment>): nat
    decreases |files|
  {
    if files == multiset{} then 0
    else
      var a := AnyFile(files);
      a.sizeBytes + Bytes(files - multiset{a})
  }

  lemma {:induction false} BytesAdd(files: multiset<Attachment>, a: Attachment)
    ensures Bytes(files + multiset{a}) == Bytes(files) + a.sizeBytes
    decreases |files|
  {
    var more := files + multiset{a};
    var x := AnyFile(more);
    if x == a {
      assert more - multiset{x} == files;
    } else {
      var rest := files - multiset{x};
      assert more - multiset{x} == rest + multiset{a};
      BytesAdd(rest, a);
      BytesAdd(rest, x);
      assert rest + multiset{x} == files;
    }
  }

  lemma {:induction false} BytesGrow(less: multiset<Attachment>, more: multiset<Attachment>)
    requires less <= more
    ensures Bytes(less) <= Bytes(more) && |less| <= |more|
    decreases |more - less|
  {
    if more - less == multiset{} {
      assert more == less + (more - less) == less;
    } else {
      var a := AnyFile(more - less);
      BytesAdd(less, a);
      assert less + multiset{a} <= more;
      assert more - (less + multiset{a}) == (more - less) - multiset{a};
      BytesGrow(less + multiset{a}, more);
    }
  }

  function SumBytes(files: seq<Attachment>): nat {
    if files == [] then 0 else SumBytes(files[..|files| - 1]) + files[|files| - 1].sizeBytes
  }

  lemma {:induction false} SumIsBytes(files: seq<Attachment>)
    ensures SumBytes(files) == Bytes(multiset(files))
  {
    if files == [] {
      assert multiset(files) == multiset{};
    } else {
      var front, last := files[..|files| - 1], files[|files| - 1];
      assert files == front + [last];
      SumIsBytes(front);
      BytesAdd(multiset(front), last);
      assert multiset(files) == multiset(front) + multiset{last};
    }
  }

  // ----- the specification -----

  /** Every reachable directory can be read, holds only acceptable entries, and the totals fit. */
  ghost predicate Collectable(fs: FileSystem, base: Option<Path>, maxBytes: u64, maxArtifacts: nat) {
    && base.Some?
    && (forall d :: d in Reach(fs, base.value) ==>
          d in fs.listing && AllAcceptable(fs, base.value, maxBytes, fs.listing[d]))
    && Bytes(AllFiles(fs, Reach(fs, base.value))) <= MAX_TOTAL_BYTES
    && |AllFiles(fs, Reach(fs, base.value))| <= maxArtifacts
  }

  ghost predicate SortedByPath(files: seq<Attachment>) {
    forall i, j :: 0 <= i < j < |files| ==> !PathLess(files[j].path, files[i].path)
  }

  /** The fault that an error names is there. */
  ghost predicate Explained(fs: FileSystem, base: Option<Path>, maxBytes: u64, maxArtifacts: nat, err: CollectError) {
    if base.None? then err == NotAccessible
    else
      match err
      case NotAccessible => false
      case ReadDirFailed => exists d :: d in Reach(fs, base.value) && d !in fs.listing
      case TotalOverflow => Bytes(AllFiles(fs, Reach(fs, base.value))) >= U64_SIZE
      case TotalTooLarge => Bytes(AllFiles(fs, Reach(fs, base.value))) > MAX_TOTAL_BYTES
      case TooMany => |AllFiles(fs, Reach(fs, base.value))| > maxArtifacts
      case _ => exists d, e :: d in Reach(fs, base.value) && e in EntriesOf(fs, d)
                               && EntryError(fs, base.value, maxBytes, e) == Some(err)
  }

  /** Each path precedes, or equals, the paths behind it. */
  ghost predicate Ascending(files: seq<Attachment>) {
    forall i, j :: 0 <= i < j < |files| ==> files[i].path == files[j].path || PathPrecedes(files[i].path, files[j].path)
  }

  lemma SortedIsAscending(files: seq<Attachment>)
    ensures SortedByPath(files) <==> Ascending(files)
  {
    hide PathLess, PathPrecedes;
    forall i, j | 0 <= i < j < |files|
      ensures !PathLess(files[j].path, files[i].path)
         <==> files[i].path == files[j].path || PathPrecedes(files[i].path, files[j].path)
    {
      PathTrichotomy(files[i].path, files[j].path);
      PathLessIs(files[i].path, files[j].path);
    }
  }

  /** What `collect_run_artifacts` promises about its result. */
  ghost predicate Collected(fs: FileSystem, base: Option<Path>, maxBytes: u64, maxArtifacts: nat,
                            r: Result<seq<Attachment>, CollectError>) {
    && (r.Success? <==> Collectable(fs, base, maxBytes, maxArtifacts))
    && (r.Success? ==> Ascending(r.value) && multiset(r.value) == AllFiles(fs, Reach(fs, base.value)))
    && (r.Failure? ==> Explained(fs, base, maxBytes, maxArtifacts, r.error))
  }

  ghost predicate Distinct(dirs: seq<Path>) {
    forall i, j :: 0 <= i < j < |dirs| ==> dirs[i] != dirs[j]
  }

  function AsSet(dirs: seq<Path>): set<Path> {
    set d | d in dirs
  }

  // ----- the walk -----

  /** The totals a walk keeps are those of its attachments, and within their limits. */
  ghost predicate WithinLimits(files: seq<Attachment>, total: nat, maxArtifacts: nat) {
    total == SumBytes(files) <= MAX_TOTAL_BYTES && |files| <= maxArtifacts
  }

  /** These entries alone make the collection fail. */
  ghost predicate Fatal(fs: FileSystem, base: Path, maxBytes: u64, maxArtifacts: nat, files: seq<Attachment>, entries: seq<Entry>) {
    || !AllAcceptable(fs, base, maxBytes, entries)
    || SumBytes(files + FilesIn(fs, entries)) > MAX_TOTAL_BYTES
    || |files + FilesIn(fs, entries)| > maxArtifacts
  }

  /** The error of a directory names a fault of one of its entries, or of the totals. */
  ghost predicate Blames(fs: FileSystem, base: Path, maxBytes: u64, maxArtifacts: nat, files: seq<Attachment>,
                         entries: seq<Entry>, err: CollectError) {
    match err
    case NotAccessible => false
    case ReadDirFailed => false
    case TotalOverflow => SumBytes(files + FilesIn(fs, entries)) >= U64_SIZE
    case TotalTooLarge => SumBytes(files + FilesIn(fs, entries)) > MAX_TOTAL_BYTES
    case TooMany => |files + FilesIn(fs, entries)| > maxArtifacts
    case _ => exists e :: e in entries && EntryError(fs, base, maxBytes, e) == Some(err)
  }

  lemma TotalsGrow(fs: FileSystem, files: seq<Attachment>, entries: seq<Entry>, n: nat)
    requires n <= |entries|
    ensures SumBytes(files + FilesIn(fs, entries[..n])) <= SumBytes(files + FilesIn(fs, entries))
    ensures |FilesIn(fs, entries[..n])| <= |FilesIn(fs, entries)|
    decreases |entries| - n
  {
    if n < |entries| {
      assert entries[..n + 1][..n] == entries[..n];
      var less, more := files + FilesIn(fs, entries[..n]), files + FilesIn(fs, entries[..n + 1]);
      assert more == less || more[..|more| - 1] == less;
      TotalsGrow(fs, files, entries, n + 1);
    } else {
      assert entries[..n] == entries;
    }
  }

  lemma EntryBlamed(fs: FileSystem, base: Path, maxBytes: u64, maxArtifacts: nat, files: seq<Attachment>, entries: seq<Entry>, i: nat)
    requires i < |entries| && EntryError(fs, base, maxBytes, entries[i]).Some?
    ensures Fatal(fs, base, maxBytes, maxArtifacts, files, entries)
    ensures Blames(fs, base, maxBytes, maxArtifacts, files, entries, EntryError(fs, base, maxBytes, entries[i]).value)
  {
    assert entries[i] in entries;
  }

  /** Totals that the first entries exceed are exceeded. */
  lemma TotalsBlamed(fs: FileSystem, base: Path, maxBytes: u64, maxArtifacts: nat, files: seq<Attachment>, entries: seq<Entry>, n: nat)
    requires n <= |entries|
    ensures var sum := SumBytes(files + FilesIn(fs, entries[..n]));
            && (sum > MAX_TOTAL_BYTES ==> Blames(fs, base, maxBytes, maxArtifacts, files, entries, TotalTooLarge))
            && (sum >= U64_SIZE ==> Blames(fs, base, maxBytes, maxArtifacts, files, entries, TotalOverflow))
            && (|files + FilesIn(fs, entries[..n])| > maxArtifacts ==> Blames(fs, base, maxBytes, maxArtifacts, files, entries, TooMany))
            && (sum > MAX_TOTAL_BYTES || |files + FilesIn(fs, entries[..n])| > maxArtifacts ==>
                  Fatal(fs, base, maxBytes, maxArtifacts, files, entries))
  {
    TotalsGrow(fs, files, entries, n);
  }

  /** One more entry is the last entry of the longer prefix. */
  lemma NextEntry(fs: FileSystem, base: Path, maxBytes: u64, entries: seq<Entry>, i: nat)
    requires i < |entries|
    ensures AllAcceptable(fs, base, maxBytes, entries[..i + 1])
       <==> AllAcceptable(fs, base, maxBytes, entries[..i]) && Acceptable(fs, base, maxBytes, entries[i])
    ensures entries[..i + 1] == entries[..i] + [entries[i]]
    ensures FilesIn(fs, entries[..i + 1])
         == FilesIn(fs, entries[..i]) + if IsFile(fs, entries[i]) then [AttachmentAt(fs, entries[i].target.value)] else []
    ensures DirsIn(fs, entries[..i + 1])
         == DirsIn(fs, entries[..i]) + if IsDir(fs, entries[i]) then {entries[i].target.value} else {}
  {
    assert entries[..i + 1][..i] == entries[..i];
  }

  lemma NoEntries(fs: FileSystem, base: Path, maxBytes: u64)
    ensures AllAcceptable(fs, base, maxBytes, []) && FilesIn(fs, []) == [] && DirsIn(fs, []) == {}
  {
  }

  lemma NotFatal(fs: FileSystem, base: Path, maxBytes: u64, maxArtifacts: nat, files: seq<Attachment>, entries: seq<Entry>, total: nat)
    requires AllAcceptable(fs, base, maxBytes, entries)
    requires WithinLimits(files + FilesIn(fs, entries), total, maxArtifacts)
    ensures !Fatal(fs, base, maxBytes, maxArtifacts, files, entries)
  {
  }

  lemma SumAppend(files: seq<Attachment>, a: Attachment)
    ensures SumBytes(files + [a]) == SumBytes(files) + a.sizeBytes
  {
    assert (files + [a])[..|files|] == files;
  }

  /** Goes through the entries of one directory. */
  method ReadEntries(fs: FileSystem, base: Path, maxBytes: u64, maxArtifacts: nat, entries: seq<Entry>,
                     visited0: set<Path>, pending0: seq<Path>, files0: seq<Attachment>, total0: nat)
    returns (err: Option<CollectError>, visited: set<Path>, pending: seq<Path>, files: seq<Attachment>, total: nat)
    requires WithinLimits(files0, total0, maxArtifacts)
    requires Distinct(pending0) && AsSet(pending0) <= visited0
    ensures err.Some? <==> Fatal(fs, base, maxBytes, maxArtifacts, files0, entries)
    ensures err.Some? ==> Blames(fs, base, maxBytes, maxArtifacts, files0, entries, err.value)
    ensures err.None? ==>
              && visited == visited0 + DirsIn(fs, entries)
              && Distinct(pending) && AsSet(pending) == AsSet(pending0) + (visited - visited0)
              && files == files0 + FilesIn(fs, entries)
              && WithinLimits(files, total, maxArtifacts)
  {
    hide SumBytes, Blames, Fatal, AllAcceptable, FilesIn, DirsIn;
    NoEntries(fs, base, maxBytes);
    visited, pending, files, total := visited0, pending0, files0, total0;
    for i := 0 to |entries|
      invariant AllAcceptable(fs, base, maxBytes, entries[..i])
      invariant visited == visited0 + DirsIn(fs, entries[..i])
      invariant Distinct(pending) && AsSet(pending) == AsSet(pending0) + (visited - visited0)
      invariant files == files0 + FilesIn(fs, entries[..i])
      invariant WithinLimits(files, total, maxArtifacts)
    {
      NextEntry(fs, base, maxBytes, entries, i);
      var entry := entries[i];
      if !Acceptable(fs, base, maxBytes, entry) {
        EntryBlamed(fs, base, maxBytes, maxArtifacts, files0, entries, i);
      }
      if entry.Unreadable? {
        return Some(ReadEntryFailed), visited, pending, files, total;
      }
      if entry.target.None? {
        return Some(CanonicalizeFailed), visited, pending, files, total;
      }
      var canonical := entry.target.value;
      if !(base <= canonical) {
        return Some(Escaped), visited, pending, files, total;
      }
      if canonical !in fs.meta {
        return Some(InspectFailed), visited, pending, files, total;
      }
      match fs.meta[canonical]
      case Dir =>
        if canonical !in visited {
          visited := visited + {canonical};
          pending := pending + [canonical];
        }
      case Other =>
      case File(len) =>
        if len > maxBytes {
          return Some(TooLarge), visited, pending, files, total;
        }
        ghost var more := files + [AttachmentAt(fs, canonical)];
        SumAppend(files, AttachmentAt(fs, canonical));
        assert more == files0 + FilesIn(fs, entries[..i + 1]);
        TotalsBlamed(fs, base, maxBytes, maxArtifacts, files0, entries, i + 1);
        if total + len >= U64_SIZE {
          return Some(TotalOverflow), visited, pending, files, total;
        }
        total := total + len;
        if total > MAX_TOTAL_BYTES {
          return Some(TotalTooLarge), visited, pending, files, total;
        }
        if |files| >= maxArtifacts {
          return Some(TooMany), visited, pending, files, total;
        }
        if canonical !in fs.mime {
          return Some(MimeFailed), visited, pending, files, total;
        }
        files := files + [Attachment(canonical, fs.mime[canonical], len)];
    }
    assert entries[..|entries|] == entries;
    NotFatal(fs, base, maxBytes, maxArtifacts, files0, entries, total);
    err := None;
  }

  // ----- the state between two directories -----

  /** Everything read so far was acceptable and is collected; what it leads to is visited. */
  ghost predicate ReadSoFar(fs: FileSystem, base: Path, maxBytes: u64, read: set<Path>, visited: set<Path>, files: seq<Attachment>) {
    && base in visited
    && visited <= Reach(fs, base)
    && (forall d :: d in read ==>
          && d in fs.listing
          && AllAcceptable(fs, base, maxBytes, fs.listing[d])
          && DirsIn(fs, fs.listing[d]) <= visited)
    && multiset(files) == AllFiles(fs, read)
  }

  /** What is read so far, with one more reached directory, is part of everything reachable. */
  lemma MoreIsReached(fs: FileSystem, base: Path, maxBytes: u64, read: set<Path>, visited: set<Path>, files: seq<Attachment>, dir: Path)
    requires ReadSoFar(fs, base, maxBytes, read, visited, files)
    requires read <= visited && dir in visited && dir !in read && dir in fs.listing
    ensures var more := files + FilesIn(fs, fs.listing[dir]);
            SumBytes(more) <= Bytes(AllFiles(fs, Reach(fs, base))) && |more| <= |AllFiles(fs, Reach(fs, base))|
  {
    var more := files + FilesIn(fs, fs.listing[dir]);
    AllFilesAdd(fs, read, dir);
    AllFilesGrow(fs, read + {dir}, Reach(fs, base));
    SumIsBytes(more);
    assert multiset(more) == multiset(files) + multiset(FilesIn(fs, fs.listing[dir]));
    BytesGrow(multiset(more), AllFiles(fs, Reach(fs, base)));
    assert |multiset(more)| == |more|;
  }

  /** A fatal directory makes the whole collection fail, for the reason it gives, in whatever order directories are read. */
  lemma FatalRefuses(fs: FileSystem, base: Path, maxBytes: u64, maxArtifacts: nat,
                     read: set<Path>, visited: set<Path>, files: seq<Attachment>, dir: Path, err: CollectError)
    requires ReadSoFar(fs, base, maxBytes, read, visited, files)
    requires read <= visited && dir in visited && dir !in read && dir in fs.listing
    requires Fatal(fs, base, maxBytes, maxArtifacts, files, fs.listing[dir])
    requires Blames(fs, base, maxBytes, maxArtifacts, files, fs.listing[dir], err)
    ensures !Collectable(fs, Some(base), maxBytes, maxArtifacts)
    ensures Explained(fs, Some(base), maxBytes, maxArtifacts, err)
  {
    MoreIsReached(fs, base, maxBytes, read, visited, files, dir);
    assert dir in Reach(fs, base) && EntriesOf(fs, dir) == fs.listing[dir];
  }

  lemma DirectoryRead(fs: FileSystem, base: Path, maxBytes: u64, read: set<Path>, visited: set<Path>, files: seq<Attachment>, dir: Path)
    requires ReadSoFar(fs, base, maxBytes, read, visited, files)
    requires dir in visited && dir !in read && dir in fs.listing
    requires AllAcceptable(fs, base, maxBytes, fs.listing[dir])
    ensures ReadSoFar(fs, base, maxBytes, read + {dir}, visited + DirsIn(fs, fs.listing[dir]), files + FilesIn(fs, fs.listing[dir]))
  {
    ReachExtends(fs, base, dir);
    AllFilesAdd(fs, read, dir);
    assert multiset(files + FilesIn(fs, fs.listing[dir])) == multiset(files) + multiset(FilesIn(fs, fs.listing[dir]));
  }

  lemma AllRead(fs: FileSystem, base: Path, maxBytes: u64, maxArtifacts: nat, read: set<Path>, files: seq<Attachment>, total: nat)
    requires ReadSoFar(fs, base, maxBytes, read, read, files)
    requires WithinLimits(files, total, maxArtifacts)
    ensures Collectable(fs, Some(base), maxBytes, maxArtifacts)
    ensures read == Reach(fs, base) && multiset(files) == AllFiles(fs, Reach(fs, base))
  {
    assert forall d :: d in read ==> EntriesOf(fs, d) == fs.listing[d];
    ClosedHoldsReach(fs, base, read);
    assert read == Reach(fs, base);
    SumIsBytes(files);
    assert |multiset(files)| == |files|;
  }

  /** Between two directories: what is read, what is queued, and what the lists hold. */
  ghost predicate Between(fs: FileSystem, base: Path, maxBytes: u64, maxArtifacts: nat,
                          order: seq<Path>, visited: set<Path>, pending: seq<Path>, files: seq<Attachment>, total: nat) {
    && Distinct(pending) && Distinct(order)
    && AsSet(pending) <= visited && AsSet(order) == visited - AsSet(pending)
    && ReadSoFar(fs, base, maxBytes, AsSet(order), visited, files)
    && WithinLimits(files, total, maxArtifacts)
  }

  lemma PopFirst(fs: FileSystem, base: Path, maxBytes: u64, maxArtifacts: nat,
                 order: seq<Path>, visited: set<Path>, pending: seq<Path>, files: seq<Attachment>, total: nat)
    requires Between(fs, base, maxBytes, maxArtifacts, order, visited, pending, files, total) && pending != []
    ensures Distinct(pending[1..]) && AsSet(pending[1..]) == AsSet(pending) - {pending[0]}
    ensures pending[0] in visited - AsSet(order) && pending[0] in Reach(fs, base)
    ensures Distinct(order + [pending[0]]) && AsSet(order + [pending[0]]) == AsSet(order) + {pending[0]}
  {
    assert pending == [pending[0]] + pending[1..];
    assert pending[0] in AsSet(pending);
    assert forall i :: 0 <= i < |order| ==> order[i] in AsSet(order);
  }

  lemma NextDirectory(fs: FileSystem, base: Path, maxBytes: u64, maxArtifacts: nat,
                      order: seq<Path>, visited: set<Path>, pending: seq<Path>, files: seq<Attachment>, total: nat,
                      visited': set<Path>, pending': seq<Path>, files': seq<Attachment>, total': nat)
    requires Between(fs, base, maxBytes, maxArtifacts, order, visited, pending, files, total) && pending != []
    requires pending[0] in fs.listing && AllAcceptable(fs, base, maxBytes, fs.listing[pending[0]])
    requires visited' == visited + DirsIn(fs, fs.listing[pending[0]])
    requires Distinct(pending') && AsSet(pending') == AsSet(pending[1..]) + (visited' - visited)
    requires files' == files + FilesIn(fs, fs.listing[pending[0]]) && WithinLimits(files', total', maxArtifacts)
    ensures Between(fs, base, maxBytes, maxArtifacts, order + [pending[0]], visited', pending', files', total')
  {
    PopFirst(fs, base, maxBytes, maxArtifacts, order, visited, pending, files, total);
    DirectoryRead(fs, base, maxBytes, AsSet(order), visited, files, pending[0]);
  }

  /**
   Collects the regular files below the run directory, breadth first.  On
   success every reachable directory was read, and none more than once; on
   failure the fault that the error names is there.
   */
  method CollectRunArtifacts(fs: FileSystem, artifactDir: Option<Path>, maxBytes: u64, maxArtifacts: nat)
    returns (r: Result<seq<Attachment>, CollectError>, ghost order: seq<Path>)
    ensures Collected(fs, artifactDir, maxBytes, maxArtifacts, r)
    ensures Distinct(order)
    ensures r.Success? ==> AsSet(order) == Reach(fs, artifactDir.value)
  {
    order := [];
    if artifactDir.None? {
      return Failure(NotAccessible), order;
    }
    var base := artifactDir.value;
    var files, total := [], 0;
    var visited, pending := {base}, [base];
    BaseReached(fs, base);
    while pending != []
      invariant Between(fs, base, maxBytes, maxArtifacts, order, visited, pending, files, total)
      decreases KnownDirs(fs, base) - AsSet(order)
    {
      var dir := pending[0];
      PopFirst(fs, base, maxBytes, maxArtifacts, order, visited, pending, files, total);
      if dir !in fs.listing {
        return Failure(ReadDirFailed), order;
      }
      var err, visited', pending', files', total' :=
        ReadEntries(fs, base, maxBytes, maxArtifacts, fs.listing[dir], visited, pending[1..], files, total);
      if err.Some? {
        FatalRefuses(fs, base, maxBytes, maxArtifacts, AsSet(order), visited, files, dir, err.value);
        return Failure(err.value), order;
      }
      NextDirectory(fs, base, maxBytes, maxArtifacts, order, visited, pending, files, total,
                    visited', pending', files', total');
      order := order + [dir];
      visited, pending, files, total := visited', pending', files', total';
    }
    AllRead(fs, base, maxBytes, maxArtifacts, AsSet(order), files, total);
    SortKeeps(files);
    SortedIsAscending(Sorted(files));
    r := Success(Sorted(files));
  }

  // ----- sorting by path -----

  /** A stable sort by path. */
  function Sorted(files: seq<Attachment>): seq<Attachment> {
    if files == [] then [] else Inserted(Sorted(files[..|files| - 1]), files[|files| - 1])
  }

  function Inserted(sorted: seq<Attachment>, a: Attachment): seq<Attachment> {
    if sorted == [] || !PathLess(a.path, sorted[|sorted| - 1].path) then sorted + [a]
    else Inserted(sorted[..|sorted| - 1], a) + [sorted[|sorted| - 1]]
  }

  lemma {:induction false} InsertKeepsFiles(sorted: seq<Attachment>, a: Attachment)
    ensures multiset(Inserted(sorted, a)) == multiset(sorted) + multiset{a}
  {
    hide PathLess;
    if sorted != [] && PathLess(a.path, sorted[|sorted| - 1].path) {
      var front, last := sorted[..|sorted| - 1], sorted[|sorted| - 1];
      assert sorted == front + [last];
      InsertKeepsFiles(front, a);
    }
  }

  lemma {:induction false} InsertKeeps(sorted: seq<Attachment>, a: Attachment)
    requires SortedByPath(sorted)
    ensures SortedByPath(Inserted(sorted, a))
    ensures multiset(Inserted(sorted, a)) == multiset(sorted) + multiset{a}
  {
    hide PathLess;
    InsertKeepsFiles(sorted, a);
    if sorted == [] || !PathLess(a.path, sorted[|sorted| - 1].path) {
      forall i | 0 <= i < |sorted|
        ensures !PathLess(a.path, sorted[i].path)
      {
        if PathLess(a.path, sorted[i].path) {
          NotBeforeLast(sorted, i, a.path);
        }
      }
    } else {
      var front, last := sorted[..|sorted| - 1], sorted[|sorted| - 1];
      InsertKeeps(front, a);
      LastStaysLast(front, a, last);
    }
  }

  lemma LastStaysLast(front: seq<Attachment>, a: Attachment, last: Attachment)
    requires SortedByPath(front + [last]) && PathLess(a.path, last.path)
    ensures forall i :: 0 <= i < |Inserted(front, a)| ==> !PathLess(last.path, Inserted(front, a)[i].path)
  {
    hide PathLess, Inserted;
    var r := Inserted(front, a);
    InsertKeepsFiles(front, a);
    forall i | 0 <= i < |r|
      ensures !PathLess(last.path, r[i].path)
    {
      assert r[i] in multiset(r);
      if r[i] == a {
        PathTrichotomy(a.path, last.path);
      } else {
        assert r[i] in front;
        var j :| 0 <= j < |front| && front[j] == r[i];
        assert (front + [last])[j] == r[i] && (front + [last])[|front|] == last;
      }
    }
  }

  lemma NotBeforeLast(sorted: seq<Attachment>, i: nat, path: Path)
    requires SortedByPath(sorted) && i < |sorted| && PathLess(path, sorted[i].path)
    ensures PathLess(path, sorted[|sorted| - 1].path)
  {
    var x, y := sorted[i].path, sorted[|sorted| - 1].path;
    PathTrichotomy(x, y);
    if PathLess(x, y) {
      PathTransitive(path, x, y);
    }
  }

  lemma {:induction false} SortKeeps(files: seq<Attachment>)
    ensures SortedByPath(Sorted(files)) && multiset(Sorted(files)) == multiset(files)
  {
    if files != [] {
      var front, last := files[..|files| - 1], files[|files| - 1];
      assert files == front + [last];
      SortKeeps(front);
      InsertKeeps(Sorted(front), last);
    }
  }

  // ----- the result does not depend on the order of entries -----

  /** The same files and directories, enumerated in another order. */
  ghost predicate SameUpToOrder(fs: FileSystem, fs': FileSystem) {
    && fs.meta == fs'.meta && fs.mime == fs'.mime
    && fs.listing.Keys == fs'.listing.Keys
    && forall d :: d in fs.listing ==> multiset(fs.listing[d]) == multiset(fs'.listing[d])
  }

  lemma SameEntries(fs: FileSystem, fs': FileSystem, d: Path)
    requires SameUpToOrder(fs, fs')
    ensures forall e :: e in EntriesOf(fs, d) <==> e in EntriesOf(fs', d)
    ensures DirsIn(fs, EntriesOf(fs, d)) == DirsIn(fs', EntriesOf(fs', d))
    ensures multiset(FilesIn(fs, EntriesOf(fs, d))) == multiset(FilesIn(fs', EntriesOf(fs', d)))
  {
    var s, t := EntriesOf(fs, d), EntriesOf(fs', d);
    assert multiset(s) == multiset(t);
    forall e ensures e in s <==> e in t {
      assert e in s <==> e in multiset(s);
      assert e in t <==> e in multiset(t);
    }
    FilesPermute(fs, s, t);
    FilesOnlyMeta(fs, fs', t);
  }

  lemma {:induction false} FilesOnlyMeta(fs: FileSystem, fs': FileSystem, entries: seq<Entry>)
    requires fs.meta == fs'.meta && fs.mime == fs'.mime
    ensures FilesIn(fs, entries) == FilesIn(fs', entries)
  {
    if entries != [] {
      FilesOnlyMeta(fs, fs', entries[..|entries| - 1]);
    }
  }

  lemma {:induction false} FilesPermute(fs: FileSystem, s: seq<Entry>, t: seq<Entry>)
    requires multiset(s) == multiset(t)
    ensures multiset(FilesIn(fs, s)) == multiset(FilesIn(fs, t))
  {
    if s == [] {
      assert |multiset(t)| == |t|;
    } else {
      var front, e := s[..|s| - 1], s[|s| - 1];
      assert s == front + [e];
      assert e in multiset(t);
      var k :| 0 <= k < |t| && t[k] == e;
      var rest := t[..k] + t[k + 1..];
      FilesTakenOut(fs, t, k);
      FilesTakenOut(fs, s, |s| - 1);
      assert s[..|s| - 1] + s[|s|..] == front;
      FilesPermute(fs, front, rest);
    }
  }

  lemma FilesTakenOut(fs: FileSystem, t: seq<Entry>, k: nat)
    requires k < |t|
    ensures var rest := t[..k] + t[k + 1..];
            && multiset(rest) == multiset(t) - multiset{t[k]}
            && multiset(FilesIn(fs, t)) == multiset(FilesIn(fs, rest)) + multiset(FilesIn(fs, [t[k]]))
  {
    var rest := t[..k] + t[k + 1..];
    assert t == t[..k] + [t[k]] + t[k + 1..];
    assert multiset(t) == multiset(rest) + multiset{t[k]};
    FilesOfConcat(fs, t[..k], t[k + 1..]);
    FilesOfConcat(fs, t[..k] + [t[k]], t[k + 1..]);
    FilesOfConcat(fs, t[..k], [t[k]]);
  }

  lemma {:induction false} FilesOfConcat(fs: FileSystem, s: seq<Entry>, t: seq<Entry>)
    ensures FilesIn(fs, s + t) == FilesIn(fs, s) + FilesIn(fs, t)
  {
    if t == [] {
      assert s + t == s;
    } else {
      assert (s + t)[..|s + t| - 1] == s + t[..|t| - 1];
      FilesOfConcat(fs, s, t[..|t| - 1]);
    }
  }

  lemma SameReach(fs: FileSystem, fs': FileSystem, base: Path)
    requires SameUpToOrder(fs, fs')
    ensures Reach(fs, base) == Reach(fs', base)
  {
    forall dirs
      ensures Walk(fs, base, dirs) == Walk(fs', base, dirs)
    {
      forall d {
        SameEntries(fs, fs', d);
      }
    }
  }

  lemma {:induction false} SameAllFiles(fs: FileSystem, fs': FileSystem, dirs: set<Path>)
    requires SameUpToOrder(fs, fs')
    ensures AllFiles(fs, dirs) == AllFiles(fs', dirs)
    decreases dirs
  {
    if dirs != {} {
      var d := AnyDir(dirs);
      SameEntries(fs, fs', d);
      SameAllFiles(fs, fs', dirs - {d});
    }
  }

  lemma SameCollectable(fs: FileSystem, fs': FileSystem, base: Option<Path>, maxBytes: u64, maxArtifacts: nat)
    requires SameUpToOrder(fs, fs') && Collectable(fs, base, maxBytes, maxArtifacts)
    ensures Collectable(fs', base, maxBytes, maxArtifacts)
  {
    SameReach(fs, fs', base.value);
    SameAllFiles(fs, fs', Reach(fs, base.value));
    forall d | d in Reach(fs, base.value)
      ensures d in fs'.listing && AllAcceptable(fs', base.value, maxBytes, fs'.listing[d])
    {
      SameEntries(fs, fs', d);
    }
  }

  /** Whether collection succeeds, and the list it then returns, depend on no enumeration order. */
  lemma OrderIndependent(fs: FileSystem, fs': FileSystem, base: Option<Path>, maxBytes: u64, maxArtifacts: nat,
                         r: Result<seq<Attachment>, CollectError>, r': Result<seq<Attachment>, CollectError>)
    requires SameUpToOrder(fs, fs')
    requires Collected(fs, base, maxBytes, maxArtifacts, r) && Collected(fs', base, maxBytes, maxArtifacts, r')
    ensures r.Success? <==> r'.Success?
    ensures r.Success? ==> r == r'
  {
    if r.Success? {
      SameCollectable(fs, fs', base, maxBytes, maxArtifacts);
      SameReach(fs, fs', base.value);
      SameAllFiles(fs, fs', Reach(fs, base.value));
      AllFilesAreFunctional(fs, Reach(fs, base.value));
      SortedIsAscending(r.value);
      SortedIsAscending(r'.value);
      SortedIsUnique(r.value, r'.value);
    } else if r'.Success? {
      SameCollectable(fs', fs, base, maxBytes, maxArtifacts);
    }
  }

  /** Attachments with the same path are the same attachment. */
  ghost predicate Functional(files: multiset<Attachment>) {
    forall a, b :: a in files && b in files && a.path == b.path ==> a == b
  }

  ghost predicate FromMeta(fs: FileSystem, a: Attachment) {
    a.path in fs.meta && fs.meta[a.path].File? && a == AttachmentAt(fs, a.path)
  }

  lemma {:induction false} FilesFromMeta(fs: FileSystem, entries: seq<Entry>)
    ensures forall a :: a in FilesIn(fs, entries) ==> FromMeta(fs, a)
  {
    if entries != [] {
      FilesFromMeta(fs, entries[..|entries| - 1]);
    }
  }

  lemma {:induction false} AllFilesFromMeta(fs: FileSystem, dirs: set<Path>)
    ensures forall a :: a in AllFiles(fs, dirs) ==> FromMeta(fs, a)
    decreases dirs
  {
    if dirs != {} {
      var d := AnyDir(dirs);
      FilesFromMeta(fs, EntriesOf(fs, d));
      AllFilesFromMeta(fs, dirs - {d});
    }
  }

  lemma AllFilesAreFunctional(fs: FileSystem, dirs: set<Path>)
    ensures Functional(AllFiles(fs, dirs))
  {
    AllFilesFromMeta(fs, dirs);
  }

  // ----- what collection means, entry by entry -----

  /** This entry leads to the regular file that the attachment names, with its length and type. */
  predicate LeadsTo(fs: FileSystem, e: Entry, a: Attachment) {
    && e == Item(Some(a.path))
    && a.path in fs.meta && fs.meta[a.path] == File(a.sizeBytes)
    && a.path in fs.mime && a.mimeType == fs.mime[a.path]
  }

  /** Nothing is wrong with this entry: it resolves inside the base, and a file is known and not too large. */
  predicate Sound(fs: FileSystem, base: Path, maxBytes: u64, e: Entry) {
    && e.Item? && e.target.Some?
    && |base| <= |e.target.value| && e.target.value[..|base|] == base
    && e.target.value in fs.meta
    && (fs.meta[e.target.value].File? ==> fs.meta[e.target.value].len <= maxBytes && e.target.value in fs.mime)
  }

  lemma {:induction false} FilesInAre(fs: FileSystem, entries: seq<Entry>, a: Attachment)
    requires forall e :: e in entries && IsFile(fs, e) ==> e.target.value in fs.mime
    ensures a in FilesIn(fs, entries) <==> exists e :: e in entries && LeadsTo(fs, e, a)
  {
    if entries != [] {
      var front, last := entries[..|entries| - 1], entries[|entries| - 1];
      assert entries == front + [last];
      FilesInAre(fs, front, a);
      assert last in entries;
    }
  }

  lemma {:induction false} AllFilesAre(fs: FileSystem, dirs: set<Path>, a: Attachment)
    requires forall d, e :: d in dirs && e in EntriesOf(fs, d) && IsFile(fs, e) ==> e.target.value in fs.mime
    ensures a in AllFiles(fs, dirs) <==> exists d, e :: d in dirs && e in EntriesOf(fs, d) && LeadsTo(fs, e, a)
    decreases dirs
  {
    if dirs != {} {
      var d := AnyDir(dirs);
      FilesInAre(fs, EntriesOf(fs, d), a);
      AllFilesAre(fs, dirs - {d}, a);
      if e :| e in EntriesOf(fs, d) && LeadsTo(fs, e, a) {
        assert a in FilesIn(fs, EntriesOf(fs, d));
      }
    }
  }

  /** Each entry is counted once. */
  lemma {:induction false} EachEntryOnce(fs: FileSystem, entries: seq<Entry>)
    ensures |FilesIn(fs, entries)| == |set i | 0 <= i < |entries| && IsFile(fs, entries[i])|
  {
    if entries != [] {
      var last := |entries| - 1;
      var front := entries[..last];
      EachEntryOnce(fs, front);
      var before := set i | 0 <= i < |front| && IsFile(fs, front[i]);
      var all := set i | 0 <= i < |entries| && IsFile(fs, entries[i]);
      assert all == before + if IsFile(fs, entries[last]) then {last} else {};
    }
  }

  /**
   Collection succeeds exactly if every entry of every reachable directory is
   sound and the totals are within 100 MiB and the given number; and then it
   returns exactly the files that these entries lead to.
   */
  lemma CollectedExactly(fs: FileSystem, base: Option<Path>, maxBytes: u64, maxArtifacts: nat,
                         r: Result<seq<Attachment>, CollectError>)
    requires Collected(fs, base, maxBytes, maxArtifacts, r)
    ensures r.Success?
       <==> && base.Some?
            && (forall d :: d in Reach(fs, base.value) ==>
                  d in fs.listing && forall e :: e in fs.listing[d] ==> Sound(fs, base.value, maxBytes, e))
            && Bytes(AllFiles(fs, Reach(fs, base.value))) <= 104_857_600
            && |AllFiles(fs, Reach(fs, base.value))| <= maxArtifacts
    ensures r.Success? ==>
              && SumBytes(r.value) <= 104_857_600 && |r.value| <= maxArtifacts
              && forall a :: a in r.value
                   <==> exists d, e :: d in Reach(fs, base.value) && e in EntriesOf(fs, d) && LeadsTo(fs, e, a)
  {
    hide Reach, AllFiles, Bytes, SumBytes, LeadsTo;
    if base.Some? {
      forall e
        ensures Sound(fs, base.value, maxBytes, e) <==> Acceptable(fs, base.value, maxBytes, e)
      {
        SoundIsAcceptable(fs, base.value, maxBytes, e);
      }
    }
    if r.Success? {
      var reached := Reach(fs, base.value);
      SumIsBytes(r.value);
      assert |multiset(r.value)| == |r.value|;
      forall a
        ensures a in r.value <==> exists d, e :: d in reached && e in EntriesOf(fs, d) && LeadsTo(fs, e, a)
      {
        AllFilesAre(fs, reached, a);
        assert a in r.value <==> a in multiset(r.value);
      }
    }
  }

  lemma SoundIsAcceptable(fs: FileSystem, base: Path, maxBytes: u64, e: Entry)
    ensures Sound(fs, base, maxBytes, e) <==> Acceptable(fs, base, maxBytes, e)
  {
  }

  lemma {:induction false} SortedIsUnique(s: seq<Attachment>, t: seq<Attachment>)
    requires SortedByPath(s) && SortedByPath(t)
    requires multiset(s) == multiset(t) && Functional(multiset(s))
    ensures s == t
  {
    if s == [] || t == [] {
      assert |multiset(s)| == |s| && |multiset(t)| == |t|;
    } else {
      SameLast(s, t);
      WithoutLast(s);
      WithoutLast(t);
      SortedIsUnique(s[..|s| - 1], t[..|t| - 1]);
    }
  }

  lemma WithoutLast(s: seq<Attachment>)
    requires s != []
    ensures s == s[..|s| - 1] + [s[|s| - 1]]
    ensures multiset(s[..|s| - 1]) == multiset(s) - multiset{s[|s| - 1]}
    ensures SortedByPath(s) ==> SortedByPath(s[..|s| - 1])
    ensures Functional(multiset(s)) ==> Functional(multiset(s[..|s| - 1]))
  {
    assert s == s[..|s| - 1] + [s[|s| - 1]];
    assert multiset(s) == multiset(s[..|s| - 1]) + multiset{s[|s| - 1]};
  }

  lemma LastIsLast(s: seq<Attachment>, x: Attachment)
    requires s != [] && SortedByPath(s) && x in s
    ensures !PathLess(s[|s| - 1].path, x.path)
  {
    hide PathLess;
    var j :| 0 <= j < |s| && s[j] == x;
    PathTrichotomy(x.path, x.path);
  }

  lemma SameLast(s: seq<Attachment>, t: seq<Attachment>)
    requires s != [] && t != [] && SortedByPath(s) && SortedByPath(t)
    requires multiset(s) == multiset(t) && Functional(multiset(s))
    ensures s[|s| - 1] == t[|t| - 1]
  {
    hide PathLess, SortedByPath;
    var a, b := s[|s| - 1], t[|t| - 1];
    assert a in multiset(s) && b in multiset(t);
    assert a in t && b in s;
    LastIsLast(s, b);
    LastIsLast(t, a);
    PathTrichotomy(a.path, b.path);
  }
}

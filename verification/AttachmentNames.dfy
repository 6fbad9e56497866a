/** Names for attachments sent inline: made safe, then made unique in the run directory. */
module AttachmentNames {
  import opened Results
  import opened Decimal

  const ATTEMPTS: nat := 1024
  const MAX_NAME: nat := 128

  // ----- unique names -----

  function Disambiguated(filename: string, index: nat, attempt: nat): string {
    match attempt
    case 0 => filename
    case 1 => "attachment-" + ToString(index + 1) + "-" + filename
    case _ => "attachment-" + ToString(index + 1) + "-" + ToString(attempt) + "-" + filename
  }

  /** The name itself first; then behind a prefix with the attachment's number, and from the second retry on the attempt's. */
  lemma AttemptNames(filename: string, index: nat, attempt: nat)
    ensures attempt == 0 ==> Disambiguated(filename, index, attempt) == filename
    ensures attempt == 1 ==> Disambiguated(filename, index, attempt) == "attachment-" + ToString(index + 1) + ("-" + filename)
    ensures attempt > 1 ==>
              Disambiguated(filename, index, attempt)
              == "attachment-" + ToString(index + 1) + ("-" + ToString(attempt) + ("-" + filename))
  {
    hide ToString;
    var start, name := "attachment-" + ToString(index + 1), "-" + filename;
    assert start + "-" + filename == start + name;
    var number := "-" + ToString(attempt);
    assert start + "-" + ToString(attempt) == start + number;
    assert start + number + "-" + filename == start + (number + name);
  }

  lemma NumberedNamesDiffer(prefix: string, a: string, b: string, suffix: string)
    requires a != b
    ensures prefix + a + suffix != prefix + b + suffix
  {
    var x, y := prefix + a + suffix, prefix + b + suffix;
    assert x[|prefix|..|x| - |suffix|] == a;
    assert y[|prefix|..|y| - |suffix|] == b;
  }

  /** No two attempts try the same name. */
  lemma AttemptsDiffer(filename: string, index: nat, a: nat, b: nat)
    requires a < b
    ensures Disambiguated(filename, index, a) != Disambiguated(filename, index, b)
  {
    var x, y := Disambiguated(filename, index, a), Disambiguated(filename, index, b);
    if a >= 2 {
      var prefix := "attachment-" + ToString(index + 1) + "-";
      NumeralsDiffer(a, b);
      NumberedNamesDiffer(prefix, ToString(a), ToString(b), "-" + filename);
      assert x == prefix + ToString(a) + ("-" + filename);
      assert y == prefix + ToString(b) + ("-" + filename);
    }
  }

  function Tried(filename: string, index: nat, n: nat): set<string> {
    set a | 0 <= a < n :: Disambiguated(filename, index, a)
  }

  lemma {:induction false} TriedSize(filename: string, index: nat, n: nat)
    ensures |Tried(filename, index, n)| == n
  {
    hide Disambiguated;
    if n > 0 {
      TriedSize(filename, index, n - 1);
      var last := Disambiguated(filename, index, n - 1);
      assert Tried(filename, index, n) == Tried(filename, index, n - 1) + {last};
      assert last !in Tried(filename, index, n - 1) by {
        forall a | 0 <= a < n - 1
          ensures Disambiguated(filename, index, a) != last
        {
          AttemptsDiffer(filename, index, a, n - 1);
        }
      }
    }
  }

  /** With fewer names in a directory than attempts, some attempt's name is unused. */
  lemma SomeNameUnused(names: set<string>, filename: string, index: nat)
    requires |names| < ATTEMPTS
    ensures exists a :: 0 <= a < ATTEMPTS && Disambiguated(filename, index, a) !in names
  {
    if forall a :: 0 <= a < ATTEMPTS ==> Disambiguated(filename, index, a) in names {
      TriedSize(filename, index, ATTEMPTS);
      SubsetSize(Tried(filename, index, ATTEMPTS), names);
    }
  }

  lemma SubsetSize(a: set<string>, b: set<string>)
    requires a <= b
    ensures |a| <= |b|
  {
    assert b == a + (b - a);
  }

  datatype CreateError = AllNamesTaken | IoError

  /** A run directory: the names in it, and those that cannot be created for another reason. */
  class RunDirectory {
    var names: set<string>
    const uncreatable: set<string>

    constructor (names: set<string>, uncreatable: set<string>)
      ensures this.names == names && this.uncreatable == uncreatable
    {
      this.names, this.uncreatable := names, uncreatable;
    }

    /** Creates a file under the first attempt's name that is not taken; never touches an existing one. */
    method CreateUnique(filename: string, index: nat) returns (r: Result<string, CreateError>)
      modifies this
      ensures r.Success? ==>
                && r.value !in old(names) && names == old(names) + {r.value}
                && exists a :: 0 <= a < ATTEMPTS && r.value == Disambiguated(filename, index, a)
                               && forall b :: 0 <= b < a ==> Disambiguated(filename, index, b) in old(names)
      ensures r.Failure? ==> names == old(names)
      ensures r == Failure(AllNamesTaken) <==>
                forall a :: 0 <= a < ATTEMPTS ==> Disambiguated(filename, index, a) in old(names)
      ensures r == Failure(IoError) ==>
                exists a :: 0 <= a < ATTEMPTS && Disambiguated(filename, index, a) in uncreatable - old(names)
                            && forall b :: 0 <= b < a ==> Disambiguated(filename, index, b) in old(names)
      ensures filename !in old(names) && filename !in uncreatable ==> r == Success(filename)
      ensures |old(names)| < ATTEMPTS && uncreatable == {} ==> r.Success?
    {
      if |names| < ATTEMPTS {
        SomeNameUnused(names, filename, index);
      }
      AttemptNames(filename, index, 0);
      for attempt := 0 to ATTEMPTS
        invariant names == old(names)
        invariant forall b :: 0 <= b < attempt ==> Disambiguated(filename, index, b) in names
      {
        var name := Disambiguated(filename, index, attempt);
        if name !in names {
          if name in uncreatable {
            return Failure(IoError);
          }
          names := names + {name};
          return Success(name);
        }
      }
      return Failure(AllNamesTaken);
    }
  }

  // ----- safe names -----

  predicate IsSafeChar(c: char) {
    'a' <= c <= 'z' || 'A' <= c <= 'Z' || '0' <= c <= '9' || c == '.' || c == '_' || c == '-'
  }

  function LastComponent(name: string): (r: string)
    ensures '/' !in r && '\\' !in r
  {
    if name == "" then ""
    else
      var c, front := name[|name| - 1], name[..|name| - 1];
      if c == '/' || c == '\\' then "" else LastComponent(front) + [c]
  }

  function SafeChars(s: string): (r: string)
    ensures |r| == |s| && forall i :: 0 <= i < |r| ==> r[i] == if IsSafeChar(s[i]) then s[i] else '_'
  {
    if s == "" then "" else SafeChars(s[..|s| - 1]) + [if IsSafeChar(s[|s| - 1]) then s[|s| - 1] else '_']
  }

  function WithoutLeadingDots(s: string): (r: string)
    ensures r == "" || r[0] != '.'
    ensures |r| <= |s| && r == s[|s| - |r|..]
  {
    if s != "" && s[0] == '.' then WithoutLeadingDots(s[1..]) else s
  }

  function WithoutTrailingDots(s: string): (r: string)
    ensures |r| <= |s| && r == s[..|r|]
    ensures s != "" && s[0] != '.' ==> r != ""
  {
    if s != "" && s[|s| - 1] == '.' then WithoutTrailingDots(s[..|s| - 1]) else s
  }

  function DefaultExtension(mimeType: string): (r: string)
    ensures 4 <= |r| <= 5 && r[0] == '.' && forall i :: 0 <= i < |r| ==> IsSafeChar(r[i])
  {
    if mimeType == "image/png" then ".png"
    else if mimeType == "image/jpeg" then ".jpg"
    else if mimeType == "image/gif" then ".gif"
    else if mimeType == "image/webp" then ".webp"
    else if mimeType == "audio/mpeg" then ".mp3"
    else if mimeType == "audio/wav" then ".wav"
    else if mimeType == "video/mp4" then ".mp4"
    else if mimeType == "text/plain" then ".txt"
    else if mimeType == "application/pdf" then ".pdf"
    else ".bin"
  }

  function Defaulted(s: string, index: nat): string {
    if s == "" then "attachment-" + ToString(index + 1) else s
  }

  function Shortened(s: string): string {
    if |s| > MAX_NAME then WithoutTrailingDots(s[..MAX_NAME]) else s
  }

  function Extended(s: string, mimeType: string): string {
    if '.' in s then s else s + DefaultExtension(mimeType)
  }

  function Sanitized(name: Option<string>, mimeType: string, index: nat): string {
    var raw := LastComponent(if name.Some? then name.value else "");
    Extended(Shortened(Defaulted(WithoutLeadingDots(SafeChars(raw)), index)), mimeType)
  }

  // ----- what a sanitized name is -----

  const EXTENSIONS: map<string, string> :=
    map["image/png" := ".png", "image/jpeg" := ".jpg", "image/gif" := ".gif", "image/webp" := ".webp",
        "audio/mpeg" := ".mp3", "audio/wav" := ".wav", "video/mp4" := ".mp4", "text/plain" := ".txt",
        "application/pdf" := ".pdf"]

  lemma ExtensionIs(mimeType: string)
    ensures DefaultExtension(mimeType) == if mimeType in EXTENSIONS then EXTENSIONS[mimeType] else ".bin"
  {
  }

  predicate AllDots(s: string) {
    forall i :: 0 <= i < |s| ==> s[i] == '.'
  }

  predicate NoSeparator(s: string) {
    '/' !in s && '\\' !in s
  }

  /** What the last component, without its leading dots, becomes: unsafe characters replaced; a number if nothing is left. */
  predicate IsBase(base: string, core: string, index: nat) {
    if core == "" then base == "attachment-" + ToString(index + 1)
    else |base| == |core| && forall i :: 0 <= i < |base| ==> base[i] == if IsSafeChar(core[i]) then core[i] else '_'
  }

  /** At most 128 characters are kept; a cut name loses the dots at its end. */
  predicate IsCut(cut: string, base: string) {
    if |base| <= MAX_NAME then cut == base
    else
      && |cut| <= MAX_NAME && cut == base[..|cut|] && AllDots(base[|cut|..MAX_NAME])
      && (cut == "" || cut[|cut| - 1] != '.')
  }

  /** The sanitized name, of a path whose last component is dots and a rest. */
  lemma SanitizedIs(dir: string, dots: string, core: string, mimeType: string, index: nat)
    returns (base: string, cut: string)
    requires dir == "" || dir[|dir| - 1] == '/' || dir[|dir| - 1] == '\\'
    requires AllDots(dots) && NoSeparator(core) && (core == "" || core[0] != '.')
    ensures IsBase(base, core, index) && IsCut(cut, base)
    ensures Sanitized(Some(dir + (dots + core)), mimeType, index)
         == if '.' in cut then cut else cut + if mimeType in EXTENSIONS then EXTENSIONS[mimeType] else ".bin"
  {
    hide DefaultExtension, LastComponent, SafeChars, WithoutLeadingDots, Defaulted, Shortened, IsBase, IsCut;
    DotsInPath(dir, dots, core);
    DotsGo(dots, core);
    base := Defaulted(SafeChars(core), index);
    cut := Shortened(base);
    BaseIs(core, index);
    CutIs(base);
    ExtensionIs(mimeType);
  }

  lemma DotsInPath(dir: string, dots: string, core: string)
    requires dir == "" || dir[|dir| - 1] == '/' || dir[|dir| - 1] == '\\'
    requires AllDots(dots) && NoSeparator(core)
    ensures LastComponent(dir + (dots + core)) == dots + core
  {
    hide LastComponent;
    LastOfPath(dir, dots + core);
  }

  lemma BaseIs(core: string, index: nat)
    ensures IsBase(Defaulted(SafeChars(core), index), core, index)
  {
    hide SafeChars, ToString;
  }

  lemma {:induction false} LeadingDotsGo(s: string, n: nat)
    requires n <= |s| && (forall i :: 0 <= i < n ==> s[i] == '.') && (n < |s| ==> s[n] != '.')
    ensures WithoutLeadingDots(s) == s[n..]
  {
    if n > 0 {
      LeadingDotsGo(s[1..], n - 1);
    }
  }

  lemma DotsGo(dots: string, core: string)
    requires AllDots(dots) && (core == "" || core[0] != '.')
    ensures WithoutLeadingDots(SafeChars(dots + core)) == SafeChars(core)
  {
    hide WithoutLeadingDots, SafeChars;
    var safe := SafeChars(dots + core);
    LeadingDotsGo(safe, |dots|);
    assert safe[|dots|..] == SafeChars(core);
  }

  /** A missing name is an empty one. */
  lemma NoNameIsEmpty(mimeType: string, index: nat)
    ensures Sanitized(None, mimeType, index) == Sanitized(Some(""), mimeType, index)
  {
  }

  lemma CutIs(base: string)
    ensures IsCut(Shortened(base), base)
  {
    if |base| > MAX_NAME {
      TrailingDotsGo(base[..MAX_NAME]);
      var cut := Shortened(base);
      assert base[|cut|..MAX_NAME] == base[..MAX_NAME][|cut|..];
    }
  }

  lemma {:induction false} TrailingDotsGo(s: string)
    ensures var t := WithoutTrailingDots(s);
            AllDots(s[|t|..]) && (t == "" || t[|t| - 1] != '.')
  {
    if s != "" && s[|s| - 1] == '.' {
      var front := s[..|s| - 1];
      TrailingDotsGo(front);
      assert s[|WithoutTrailingDots(front)|..] == front[|WithoutTrailingDots(front)|..] + ['.'];
    }
  }

  /** A plain file name: safe characters, an extension, not hidden. */
  ghost predicate PlainFileName(s: string) {
    && s != "" && s[0] != '.' && '.' in s
    && forall i :: 0 <= i < |s| ==> IsSafeChar(s[i])
  }

  /** Whatever was asked for, the name is plain, bounded, and not a path. */
  lemma SanitizedIsPlain(name: Option<string>, mimeType: string, index: nat)
    ensures var r := Sanitized(name, mimeType, index);
            && PlainFileName(r) && |r| <= MAX_NAME + 5
            && '/' !in r && '\\' !in r && r != "." && r != ".."
  {
    var raw := LastComponent(if name.Some? then name.value else "");
    DefaultedIsSafe(WithoutLeadingDots(SafeChars(raw)), index);
    ShortenedIsSafe(Defaulted(WithoutLeadingDots(SafeChars(raw)), index));
    ExtendedIsPlain(Shortened(Defaulted(WithoutLeadingDots(SafeChars(raw)), index)), mimeType);
  }

  /** Safe characters, not empty and not hidden. */
  ghost predicate SafeStart(s: string) {
    s != "" && s[0] != '.' && forall i :: 0 <= i < |s| ==> IsSafeChar(s[i])
  }

  lemma DefaultedIsSafe(s: string, index: nat)
    requires (s == "" || s[0] != '.') && forall i :: 0 <= i < |s| ==> IsSafeChar(s[i])
    ensures SafeStart(Defaulted(s, index))
  {
    var digits := ToString(index + 1);
    var fallback := "attachment-" + digits;
    assert forall i :: 0 <= i < |digits| ==> fallback[11 + i] == digits[i];
  }

  lemma ShortenedIsSafe(s: string)
    requires SafeStart(s)
    ensures SafeStart(Shortened(s)) && |Shortened(s)| <= MAX_NAME
  {
    var t := Shortened(s);
    assert forall i :: 0 <= i < |t| ==> t[i] == s[i];
  }

  lemma ExtendedIsPlain(s: string, mimeType: string)
    requires SafeStart(s)
    ensures var r := Extended(s, mimeType);
            PlainFileName(r) && |r| <= |s| + 5 && '/' !in r && '\\' !in r && r != "." && r != ".."
  {
    var r, ext := Extended(s, mimeType), DefaultExtension(mimeType);
    if '.' !in s {
      assert r[|s|] == ext[0];
      assert forall i :: 0 <= i < |ext| ==> r[|s| + i] == ext[i];
    }
  }

  /** A plain file name of at most 128 characters is kept as it is, also as the last component of a path. */
  lemma PlainNamesKept(dir: string, s: string, mimeType: string, index: nat)
    requires PlainFileName(s) && |s| <= MAX_NAME
    requires dir == "" || dir[|dir| - 1] == '/' || dir[|dir| - 1] == '\\'
    ensures Sanitized(Some(dir + s), mimeType, index) == s
  {
    LastOfPath(dir, s);
    assert SafeChars(s) == s;
  }

  lemma {:induction false} LastOfPath(dir: string, s: string)
    requires dir == "" || dir[|dir| - 1] == '/' || dir[|dir| - 1] == '\\'
    requires '/' !in s && '\\' !in s
    ensures LastComponent(dir + s) == s
  {
    if s == "" {
      assert dir + s == dir;
    } else {
      var front := s[..|s| - 1];
      assert (dir + s)[..|dir + s| - 1] == dir + front;
      LastOfPath(dir, front);
    }
  }

  method StripLeadingDots(s: string) returns (stripped: string)
    ensures stripped == WithoutLeadingDots(s)
  {
    stripped := s;
    while stripped != "" && stripped[0] == '.'
      invariant WithoutLeadingDots(stripped) == WithoutLeadingDots(s)
      decreases |stripped|
    {
      stripped := stripped[1..];
    }
  }

  /** The name is edited in place: characters, leading dots, length, extension. */
  method SanitizeAttachmentName(name: Option<string>, mimeType: string, index: nat) returns (sanitized: string)
    ensures sanitized == Sanitized(name, mimeType, index)
  {
    var raw := LastComponent(if name.Some? then name.value else "");
    sanitized := StripLeadingDots(SafeChars(raw));
    if sanitized == "" {
      sanitized := "attachment-" + ToString(index + 1);
    }
    assert sanitized == Defaulted(WithoutLeadingDots(SafeChars(raw)), index);
    ghost var start := sanitized;
    if |sanitized| > MAX_NAME {
      sanitized := sanitized[..MAX_NAME];
      sanitized := WithoutTrailingDots(sanitized);
    }
    assert sanitized == Shortened(start);
    var extension := DefaultExtension(mimeType);
    if '.' !in sanitized {
      sanitized := sanitized + extension;
    }
  }

  // ----- the size of a base64 payload -----

  /** Length of the padded base64 text of `n` bytes (section 4 of RFC 4648). */
  function EncodedLength(n: nat): nat {
    (n + 2) / 3 * 4
  }

  function EncodedLimit(maxBytes: nat): nat {
    (maxBytes + 2) / 3 * 4 + 4
  }

  /**
   Checking the text's length first refuses no payload that the byte limit
   allows, and lets at most five bytes more than that limit be decoded.
   */
  lemma EncodedLimitIsSafe(n: nat, maxBytes: nat)
    ensures n <= maxBytes ==> EncodedLength(n) <= EncodedLimit(maxBytes)
    ensures EncodedLength(n) <= EncodedLimit(maxBytes) ==> n <= maxBytes + 5
  {
    var q, p := (n + 2) / 3, (maxBytes + 2) / 3;
    assert 3 * q <= n + 2 < 3 * q + 3 && 3 * p <= maxBytes + 2 < 3 * p + 3;
  }
}

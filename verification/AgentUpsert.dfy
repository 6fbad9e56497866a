/**
 Adding or updating one agent's block in a TOML configuration, by editing lines.

 Each loop of the script is a method proved against a function on lines; the
 theorems about the functions are in AgentTheorems.
 */
module AgentUpsert {
  import opened Results
  import opened Decimal
  import opened TomlText
  import opened JsonText

  // ----- what is asked for -----

  datatype Agent = Agent(
    id: string,
    kind: string,
    endpoint: string,
    timeoutMs: int,
    aliases: seq<string>,
    apiKeyFile: string,
    allowModelOverride: bool,
    model: string)

  datatype Key =
    | IdKey | KindKey | EndpointKey | ApiKeyFileKey | TimeoutKey
    | ModelKey | OverrideKey | AliasesKey | RegistryKey

  function Name(k: Key): (s: string)
    ensures IsToken(s) && s[0] != '['
  {
    match k
    case IdKey => "id"
    case KindKey => "kind"
    case EndpointKey => "endpoint"
    case ApiKeyFileKey => "api_key_file"
    case TimeoutKey => "timeout_ms"
    case ModelKey => "model"
    case OverrideKey => "allow_model_override"
    case AliasesKey => "aliases"
    case RegistryKey => "registry"
  }

  function IntText(n: int): (s: string)
    ensures IsValue(s)
  {
    if n < 0 then "-" + ToString(-n) else ToString(n)
  }

  datatype Update = Update(key: Key, value: string, overwrite: bool)

  /** The entries that are wanted, in order. */
  function Chosen<T>(options: seq<(bool, T)>): seq<T> {
    if options == [] then []
    else (if options[0].0 then [options[0].1] else []) + Chosen(options[1..])
  }

  function UpdateOptions(a: Agent): seq<(bool, Update)> {
    [(true, Update(KindKey, Quote(a.kind), true)),
     (true, Update(EndpointKey, Quote(a.endpoint), true)),
     (!IsBlank(a.apiKeyFile), Update(ApiKeyFileKey, Quote(a.apiKeyFile), true)),
     (true, Update(TimeoutKey, IntText(a.timeoutMs), true)),
     (a.model != "", Update(ModelKey, Quote(a.model), false)),
     (a.allowModelOverride, Update(OverrideKey, "true", true)),
     (a.aliases != [], Update(AliasesKey, QuoteList(a.aliases), false))]
  }

  /** The keys an existing block is brought up to date with, in order. */
  function Updates(a: Agent): seq<Update> {
    Chosen(UpdateOptions(a))
  }

  function DisplayName(id: string): string {
    if id == "hermes" then "Hermes" else if id == "ironclaw" then "IronClaw" else id
  }

  function RegistryValue(a: Agent): (s: string)
    ensures IsValue(s)
  {
    "{ display_name = " + Quote(DisplayName(a.id)) + ", specialties = " + QuoteList([a.kind, "managed"]) + " }"
  }

  function RegistryLine(a: Agent): string {
    KeyLine(Name(RegistryKey), RegistryValue(a))
  }

  function ManagedComment(a: Agent): string {
    "# " + MANAGED + " " + a.id + "."
  }

  datatype Field = Field(key: Key, value: string)

  function FieldOptions(a: Agent): seq<(bool, Field)> {
    [(true, Field(IdKey, Quote(a.id))),
     (true, Field(KindKey, Quote(a.kind))),
     (true, Field(EndpointKey, Quote(a.endpoint))),
     (!IsBlank(a.apiKeyFile), Field(ApiKeyFileKey, Quote(a.apiKeyFile))),
     (a.model != "", Field(ModelKey, Quote(a.model))),
     (true, Field(TimeoutKey, IntText(a.timeoutMs))),
     (a.allowModelOverride, Field(OverrideKey, "true")),
     (a.aliases != [], Field(AliasesKey, QuoteList(a.aliases))),
     (true, Field(RegistryKey, RegistryValue(a)))]
  }

  /** The keys of a new block, in order. */
  function Fields(a: Agent): seq<Field> {
    Chosen(FieldOptions(a))
  }

  function FieldLines(fields: seq<Field>): seq<string> {
    if fields == [] then [] else [KeyLine(Name(fields[0].key), fields[0].value)] + FieldLines(fields[1..])
  }

  /** The table of a new block, without its comment. */
  function NewTable(a: Agent): seq<string> {
    ["[[agents]]"] + FieldLines(Fields(a))
  }

  // ----- finding a block -----

  /** The first header from `i` on that starts another table than a child of an agent. */
  function BlockEnd(lines: seq<string>, i: nat): nat
    decreases |lines| - i
  {
    if i >= |lines| then |lines|
    else if HeaderKind(lines[i]) == Agents || HeaderKind(lines[i]) == OtherHeader then i
    else BlockEnd(lines, i + 1)
  }

  /** The first child header from `i` on and before `end`, or `end`. */
  function TopEnd(lines: seq<string>, i: nat, end: nat): nat
    decreases end - i
  {
    if i >= end || end > |lines| then end
    else if HeaderKind(lines[i]) == AgentsChild then i
    else TopEnd(lines, i + 1, end)
  }

  method AgentBlockEnd(lines: seq<string>, start: nat) returns (end: nat)
    requires start < |lines|
    ensures end == BlockEnd(lines, start + 1)
  {
    hide HeaderKind;
    for index := start + 1 to |lines|
      invariant BlockEnd(lines, index) == BlockEnd(lines, start + 1)
    {
      var kind := HeaderKind(lines[index]);
      if kind == Agents || kind == OtherHeader {
        return index;
      }
    }
    return |lines|;
  }

  method AgentTopEnd(lines: seq<string>, start: nat, blockEnd: nat) returns (end: nat)
    requires start < blockEnd <= |lines|
    ensures end == TopEnd(lines, start + 1, blockEnd)
  {
    hide HeaderKind;
    for index := start + 1 to blockEnd
      invariant TopEnd(lines, index, blockEnd) == TopEnd(lines, start + 1, blockEnd)
    {
      if HeaderKind(lines[index]) == AgentsChild {
        return index;
      }
    }
    return blockEnd;
  }

  predicate AnyManaged(lines: seq<string>) {
    exists i :: 0 <= i < |lines| && Mentions(lines[i], MANAGED)
  }

  /** Going up over comments and blank lines from `i`: the topmost comment, or `start`. */
  function CommentTop(before: seq<string>, i: nat, start: nat): nat
    requires i <= |before|
  {
    if i == 0 || !(IsComment(before[i - 1]) || IsBlank(before[i - 1])) then start
    else CommentTop(before, i - 1, if IsComment(before[i - 1]) then i - 1 else start)
  }

  /** Where the managed comment attached to a table begins, given the lines before the table. */
  function AttachedStart(before: seq<string>): (n: nat)
    ensures n <= |before|
  {
    var start := CommentTop(before, |before|, |before|);
    if start < |before| && AnyManaged(before[start..]) then start else |before|
  }

  method AttachedCommentStart(lines: seq<string>, tableStart: nat) returns (r: nat)
    requires tableStart <= |lines|
    ensures r == AttachedStart(lines[..tableStart])
  {
    ghost var before := lines[..tableStart];
    var start, index := tableStart, tableStart;
    while index > 0 && (IsComment(lines[index - 1]) || IsBlank(lines[index - 1]))
      invariant 0 <= index <= tableStart && start <= tableStart
      invariant CommentTop(before, index, start) == CommentTop(before, tableStart, tableStart)
    {
      if IsComment(lines[index - 1]) {
        start := index - 1;
      }
      index := index - 1;
    }
    assert lines[start..tableStart] == before[start..];
    r := if start < tableStart && AnyManaged(lines[start..tableStart]) then start else tableStart;
  }

  /** The first id given by the lines. */
  function IdIn(lines: seq<string>): Option<string> {
    if lines == [] then None
    else if IdOf(lines[0]).Some? then IdOf(lines[0])
    else IdIn(lines[1..])
  }

  datatype Found = Found(start: nat, table: nat, topEnd: nat, blockEnd: nat)

  lemma EndsInRange(lines: seq<string>, i: nat)
    requires i <= |lines|
    ensures i <= BlockEnd(lines, i) <= |lines|
    ensures i <= TopEnd(lines, i, BlockEnd(lines, i)) <= BlockEnd(lines, i)
  {
    BlockEndInRange(lines, i);
    TopEndInRange(lines, i, BlockEnd(lines, i));
  }

  lemma {:induction false} BlockEndInRange(lines: seq<string>, i: nat)
    requires i <= |lines|
    ensures i <= BlockEnd(lines, i) <= |lines|
    decreases |lines| - i
  {
    hide HeaderKind;
    if i < |lines| {
      BlockEndInRange(lines, i + 1);
    }
  }

  lemma {:induction false} TopEndInRange(lines: seq<string>, i: nat, end: nat)
    requires i <= end <= |lines|
    ensures i <= TopEnd(lines, i, end) <= end
    decreases end - i
  {
    hide HeaderKind;
    if i < end {
      TopEndInRange(lines, i + 1, end);
    }
  }

  /** The top part of the table at `t`: up to its first child table or its end. */
  function TopOf(lines: seq<string>, t: nat): seq<string>
    requires t < |lines|
  {
    EndsInRange(lines, t + 1);
    lines[t..TopEnd(lines, t + 1, BlockEnd(lines, t + 1))]
  }

  predicate Matches(lines: seq<string>, id: string, t: nat)
    requires t < |lines|
  {
    IsAgentTable(lines[t]) && IdIn(TopOf(lines, t)) == Some(id)
  }

  function FoundAt(lines: seq<string>, t: nat): Found
    requires t < |lines|
  {
    var blockEnd := BlockEnd(lines, t + 1);
    Found(AttachedStart(lines[..t]), t, TopEnd(lines, t + 1, blockEnd), blockEnd)
  }

  /** The first matching table from `t` on. */
  function FindFrom(lines: seq<string>, id: string, t: nat): Option<Found>
    decreases |lines| - t
  {
    if t >= |lines| then None
    else if Matches(lines, id, t) then Some(FoundAt(lines, t))
    else FindFrom(lines, id, t + 1)
  }

  function Find(lines: seq<string>, id: string): Option<Found> {
    FindFrom(lines, id, 0)
  }

  method FindExistingAgent(lines: seq<string>, id: string) returns (r: Option<Found>)
    ensures r == Find(lines, id)
  {
    for tableStart := 0 to |lines|
      invariant FindFrom(lines, id, tableStart) == Find(lines, id)
    {
      if IsAgentTable(lines[tableStart]) {
        EndsInRange(lines, tableStart + 1);
        var blockEnd := AgentBlockEnd(lines, tableStart);
        var topEnd := AgentTopEnd(lines, tableStart, blockEnd);
        var top := lines[tableStart..topEnd];
        if IdIn(top) == Some(id) {
          var start := AttachedCommentStart(lines, tableStart);
          return Some(Found(start, tableStart, topEnd, blockEnd));
        }
      }
    }
    return None;
  }

  // ----- editing a block -----

  /** The first line that assigns the key. */
  function FirstLine(lines: seq<string>, key: string): Option<string> {
    if lines == [] then None
    else if KeyOf(lines[0]) == Some(key) then Some(lines[0])
    else FirstLine(lines[1..], key)
  }

  function ReplaceFirst(lines: seq<string>, key: string, value: string): seq<string> {
    if lines == [] then []
    else if KeyOf(lines[0]) == Some(key) then [SetValue(lines[0], value)] + lines[1..]
    else [lines[0]] + ReplaceFirst(lines[1..], key, value)
  }

  /** Where a new line goes: before the trailing blank lines. */
  function InsertAt(lines: seq<string>): (n: nat)
    ensures n <= |lines|
  {
    if lines != [] && IsBlank(lines[|lines| - 1]) then InsertAt(lines[..|lines| - 1]) else |lines|
  }

  function UpsertKey(lines: seq<string>, key: string, value: string, overwrite: bool): seq<string> {
    if FirstLine(lines, key).Some? then
      if overwrite then ReplaceFirst(lines, key, value) else lines
    else
      lines[..InsertAt(lines)] + [KeyLine(key, value)] + lines[InsertAt(lines)..]
  }

  /** The first lines do not assign the key: looking for it and replacing it go on behind. */
  lemma {:induction false} SearchGoesOn(lines: seq<string>, index: nat, key: string, value: string)
    requires index <= |lines|
    requires forall i :: 0 <= i < index ==> KeyOf(lines[i]) != Some(key)
    ensures FirstLine(lines, key) == FirstLine(lines[index..], key)
    ensures ReplaceFirst(lines, key, value) == lines[..index] + ReplaceFirst(lines[index..], key, value)
  {
    hide KeyOf, SetValue;
    if index > 0 {
      SearchGoesOn(lines, index - 1, key, value);
      var rest := lines[index - 1..];
      assert rest[0] == lines[index - 1] && rest[1..] == lines[index..];
      assert lines[..index] == lines[..index - 1] + [rest[0]];
    }
  }

  /** The blank lines from `n` on are trailing; the line before them is not blank. */
  lemma {:induction false} InsertAtIs(lines: seq<string>, n: nat)
    requires n <= |lines|
    requires forall i :: n <= i < |lines| ==> IsBlank(lines[i])
    requires n > 0 ==> !IsBlank(lines[n - 1])
    ensures InsertAt(lines) == n
  {
    hide IsBlank;
    if n < |lines| {
      InsertAtIs(lines[..|lines| - 1], n);
    }
  }

  method UpsertKeyLine(lines: seq<string>, key: string, value: string, overwrite: bool) returns (r: seq<string>)
    ensures r == UpsertKey(lines, key, value, overwrite)
  {
    hide KeyOf, SetValue, IsBlank, KeyLine, InsertAt;
    for index := 0 to |lines|
      invariant forall i :: 0 <= i < index ==> KeyOf(lines[i]) != Some(key)
    {
      if KeyOf(lines[index]) == Some(key) {
        SearchGoesOn(lines, index, key, value);
        assert lines[index..][0] == lines[index] && lines[index..][1..] == lines[index + 1..];
        r := lines;
        if overwrite {
          r := r[index := SetValue(lines[index], value)];
          assert r == lines[..index] + ([SetValue(lines[index], value)] + lines[index + 1..]);
        }
        return;
      }
    }
    SearchGoesOn(lines, |lines|, key, value);
    var insertAt := |lines|;
    while insertAt > 0 && IsBlank(lines[insertAt - 1])
      invariant 0 <= insertAt <= |lines|
      invariant forall i :: insertAt <= i < |lines| ==> IsBlank(lines[i])
    {
      insertAt := insertAt - 1;
    }
    InsertAtIs(lines, insertAt);
    r := lines[..insertAt] + [KeyLine(key, value)] + lines[insertAt..];
  }

  function UpsertAll(lines: seq<string>, updates: seq<Update>): seq<string> {
    if updates == [] then lines
    else
      var last := updates[|updates| - 1];
      UpsertKey(UpsertAll(lines, updates[..|updates| - 1]), Name(last.key), last.value, last.overwrite)
  }

  predicate RegistryExists(top: seq<string>, child: seq<string>) {
    FirstLine(top, Name(RegistryKey)).Some? || exists i :: 0 <= i < |child| && IsRegistryTable(child[i])
  }

  function UpdatedTop(top: seq<string>, child: seq<string>, a: Agent): seq<string> {
    var top' := UpsertAll(top, Updates(a));
    if RegistryExists(top', child) then top' else top' + [RegistryLine(a)]
  }

  function UpdatedComments(comments: seq<string>, a: Agent): seq<string> {
    if AnyManaged(comments) then comments else [ManagedComment(a)]
  }

  /** A blank line unless the text before is empty or ends with one. */
  function GapAfter(before: seq<string>): seq<string> {
    if before != [] && !IsBlank(before[|before| - 1]) then [""] else []
  }

  function GapBefore(after: seq<string>): seq<string> {
    if after != [] && !IsBlank(after[0]) then [""] else []
  }

  /** The final `rstrip` of the text: trailing blank lines go, the last line is stripped. */
  function Finish(lines: seq<string>): seq<string> {
    if lines == [] then []
    else if IsBlank(lines[|lines| - 1]) then Finish(lines[..|lines| - 1])
    else lines[..|lines| - 1] + [RStrip(lines[|lines| - 1])]
  }

  ghost predicate InRange(f: Found, lines: seq<string>) {
    f.start <= f.table < f.topEnd <= f.blockEnd <= |lines|
  }

  function Replacement(lines: seq<string>, f: Found, a: Agent): seq<string>
    requires InRange(f, lines)
  {
    var child := lines[f.topEnd..f.blockEnd];
    UpdatedComments(lines[f.start..f.table], a) + UpdatedTop(lines[f.table..f.topEnd], child, a) + child
  }

  function Updated(lines: seq<string>, f: Found, a: Agent): seq<string>
    requires InRange(f, lines)
  {
    var before, after := lines[..f.start], lines[f.blockEnd..];
    before + GapAfter(before) + Replacement(lines, f, a) + GapBefore(after) + after
  }

  function Added(lines: seq<string>, a: Agent): seq<string> {
    Finish(lines) + [""] + ([ManagedComment(a)] + NewTable(a))
  }

  lemma {:induction false} FoundInRange(lines: seq<string>, id: string, t: nat)
    ensures var r := FindFrom(lines, id, t);
            r.Some? ==>
              && InRange(r.value, lines) && t <= r.value.table
              && r.value == FoundAt(lines, r.value.table) && Matches(lines, id, r.value.table)
              && forall u :: t <= u < r.value.table ==> !Matches(lines, id, u)
    ensures FindFrom(lines, id, t).None? ==> forall u :: t <= u < |lines| ==> !Matches(lines, id, u)
    decreases |lines| - t
  {
    hide BlockEnd, TopEnd, AttachedStart, Matches;
    if t < |lines| {
      EndsInRange(lines, t + 1);
      FoundInRange(lines, id, t + 1);
    }
  }

  /** An empty file becomes a minimal configuration first. */
  function Loaded(file: Option<seq<string>>): seq<string> {
    if file.None? || forall i :: 0 <= i < |file.value| ==> IsBlank(file.value[i])
    then ["[calciforge]", "version = 2"]
    else file.value
  }

  /** The lines of the file after a run of the helper on lines that are not all blank. */
  function Upsert(lines: seq<string>, a: Agent): seq<string> {
    FoundInRange(lines, a.id, 0);
    var existing := Find(lines, a.id);
    if existing.None? then Added(lines, a) else Finish(Updated(lines, existing.value, a))
  }

  method UpdateTop(top: seq<string>, childLines: seq<string>, a: Agent) returns (topLines: seq<string>)
    ensures topLines == UpdatedTop(top, childLines, a)
  {
    hide Updates, UpsertKey, RegistryExists, RegistryLine;
    topLines := top;
    var updates := Updates(a);
    for i := 0 to |updates|
      invariant topLines == UpsertAll(top, updates[..i])
    {
      assert updates[..i + 1][..i] == updates[..i];
      topLines := UpsertKeyLine(topLines, Name(updates[i].key), updates[i].value, updates[i].overwrite);
    }
    assert updates[..|updates|] == updates;
    if !RegistryExists(topLines, childLines) {
      topLines := topLines + [RegistryLine(a)];
    }
  }

  /** The lines with the block at `f` rewritten. */
  method UpdateBlock(lines: seq<string>, f: Found, a: Agent) returns (newLines: seq<string>)
    requires InRange(f, lines)
    ensures newLines == Updated(lines, f, a)
  {
    hide UpdatedTop, AnyManaged, ManagedComment, IsBlank;
    var commentLines := lines[f.start..f.table];
    var topLines := lines[f.table..f.topEnd];
    var childLines := lines[f.topEnd..f.blockEnd];
    if !AnyManaged(commentLines) {
      commentLines := [ManagedComment(a)];
    }
    topLines := UpdateTop(topLines, childLines, a);
    var replacement := commentLines + topLines + childLines;
    ghost var before, after := lines[..f.start], lines[f.blockEnd..];
    newLines := lines[..f.start];
    if newLines != [] && !IsBlank(newLines[|newLines| - 1]) {
      newLines := newLines + [""];
    }
    assert newLines == before + GapAfter(before);
    newLines := newLines + replacement;
    if f.blockEnd < |lines| && !IsBlank(lines[f.blockEnd]) {
      newLines := newLines + [""];
    }
    assert newLines == before + GapAfter(before) + replacement + GapBefore(after);
    newLines := newLines + lines[f.blockEnd..];
  }

  method UpsertAgent(file: Option<seq<string>>, a: Agent) returns (written: seq<string>, added: bool)
    ensures written == Upsert(Loaded(file), a)
    ensures added <==> Find(Loaded(file), a.id).None?
  {
    hide FindFrom, Finish, Updated, ManagedComment, NewTable, Loaded;
    var lines := Loaded(file);
    var existing := FindExistingAgent(lines, a.id);
    FoundInRange(lines, a.id, 0);
    if existing.None? {
      return Finish(lines) + [""] + ([ManagedComment(a)] + NewTable(a)), true;
    }
    var newLines := UpdateBlock(lines, existing.value, a);
    return Finish(newLines), false;
  }
}

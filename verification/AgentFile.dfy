/**
 What a run means for the file, in terms of its lines alone: which comment is
 taken for the block's own, what stays, and what the block says afterwards.
 */
module AgentFile {
  import opened Results
  import opened Decimal
  import opened TomlText
  import opened JsonText
  import opened AgentUpsert
  import opened AgentBlocks
  import opened AgentEdits
  import opened AgentTheorems

  // ----- the comments above a table -----

  /** From `r` on, and no earlier, everything directly above line `t` is comments and blank lines. */
  ghost predicate CommentRun(lines: seq<string>, t: nat, r: nat) {
    && r <= t <= |lines|
    && (forall k :: r <= k < t ==> CommentOrBlank(lines[k]))
    && (r > 0 ==> !CommentOrBlank(lines[r - 1]))
  }

  lemma {:induction false} RunExists(lines: seq<string>, t: nat) returns (r: nat)
    requires t <= |lines|
    ensures CommentRun(lines, t, r)
  {
    hide CommentOrBlank;
    if t > 0 && CommentOrBlank(lines[t - 1]) {
      r := RunExists(lines, t - 1);
    } else {
      r := t;
    }
  }

  /** The phrase of the managed comment stands in the run. */
  ghost predicate Noted(lines: seq<string>, t: nat, r: nat)
    requires t <= |lines|
  {
    exists k :: r <= k < t && Mentions(lines[k], MANAGED)
  }

  lemma {:induction false} CommentTopIs(before: seq<string>, i: nat, start: nat, r: nat)
    requires r <= i <= |before| && CommentRun(before, i, r)
    ensures var n := CommentTop(before, i, start);
            || (n == start && forall k :: r <= k < i ==> !IsComment(before[k]))
            || (r <= n < i && IsComment(before[n]) && forall k :: r <= k < n ==> !IsComment(before[k]))
  {
    hide IsComment, IsBlank;
    if r < i {
      assert CommentOrBlank(before[i - 1]);
      CommentTopIs(before, i - 1, if IsComment(before[i - 1]) then i - 1 else start, r);
    }
  }

  /** The attached comment begins at the topmost comment of the run if the run is noted, and is empty otherwise. */
  lemma AttachedIs(before: seq<string>, r: nat)
    requires CommentRun(before, |before|, r)
    ensures var n := AttachedStart(before);
            if Noted(before, |before|, r)
            then r <= n < |before| && IsComment(before[n]) && forall k :: r <= k < n ==> !IsComment(before[k])
            else n == |before|
  {
    hide IsComment, IsBlank, Mentions, CommentTop;
    CommentTopIs(before, |before|, |before|, r);
    var s := CommentTop(before, |before|, |before|);
    forall k | r <= k < |before| && Mentions(before[k], MANAGED)
      ensures s <= k && before[s..][k - s] == before[k]
    {
      MentionIsVisible(before[k]);
      assert CommentOrBlank(before[k]);
    }
    if s < |before| && AnyManaged(before[s..]) {
      var i :| 0 <= i < |before[s..]| && Mentions(before[s..][i], MANAGED);
      assert Mentions(before[s + i], MANAGED);
    }
  }

  /** Where the block found for an agent begins: at its table, or at the topmost comment of a noted run above it. */
  lemma FoundStartIs(lines: seq<string>, id: string, r: nat)
    requires Find(lines, id).Some? && CommentRun(lines, Find(lines, id).value.table, r)
    ensures var f := Find(lines, id).value;
            if Noted(lines, f.table, r)
            then r <= f.start < f.table && IsComment(lines[f.start]) && forall k :: r <= k < f.start ==> !IsComment(lines[k])
            else f.start == f.table
  {
    hide IsComment, IsBlank, Mentions, AttachedStart, BlockEnd, TopEnd, Matches;
    FoundInRange(lines, id, 0);
    var t := Find(lines, id).value.table;
    var before := lines[..t];
    assert forall k :: 0 <= k < t ==> before[k] == lines[k];
    AttachedIs(before, r);
    assert Noted(before, t, r) <==> Noted(lines, t, r);
  }

  /** Comments begin with a hash sign, and the table of an agent stands alone on its line. */
  lemma CommentIs(line: string)
    ensures IsComment(line) <==> |line| >= 1 && line[..1] == "#"
    ensures IsAgentTable(line) <==> exists lead, tail :: IsBlank(lead) && IsBlank(tail) && line == lead + "[[agents]]" + tail
  {
    hide Trim;
    var lead, tail := TrimSplits(line);
    forall lead, tail | IsBlank(lead) && IsBlank(tail) && line == lead + "[[agents]]" + tail
      ensures IsAgentTable(line)
    {
      TrimOf(lead, "[[agents]]", tail);
    }
  }

  // ----- what stays -----

  /**
   An update leaves every visible line outside the top part of the block as it
   is: the lines above the table, the child tables, and everything from the
   block's end on.  The managed comment is put directly above the table exactly
   if the comments there do not mention the phrase.
   */
  lemma UpdateChangesNothingElse(lines: seq<string>, a: Agent, r: nat)
    requires Find(lines, a.id).Some? && CommentRun(lines, Find(lines, a.id).value.table, r)
    ensures InRange(Find(lines, a.id).value, lines)
    ensures var f := Find(lines, a.id).value;
            var child := lines[f.topEnd..f.blockEnd];
            Visible(Upsert(lines, a))
            == EndStripped(
                 Visible(lines[..f.table])
                 + (if Noted(lines, f.table, r) then [] else ["# Managed by calciforge install for " + a.id + "."])
                 + Visible(UpdatedTop(lines[f.table..f.topEnd], child, a))
                 + Visible(child)
                 + Visible(lines[f.blockEnd..]))
  {
    hide Visible, EndStripped, FindFrom, UpdatedTop, Upsert, Mentions, IsComment, CommentRun;
    UpdateByParts(lines, a);
    FoundStartIs(lines, a.id, r);
    var f := Find(lines, a.id).value;
    var top := UpdatedTop(lines[f.table..f.topEnd], lines[f.topEnd..f.blockEnd], a);
    var front, comments := lines[..f.start], lines[f.start..f.table];
    VisibleConcat(UpdatedComments(comments, a), top);
    assert lines[..f.table] == front + comments;
    VisibleConcat(front, comments);
    if Noted(lines, f.table, r) {
      NotedIsManaged(lines, f.start, f.table, r);
    } else {
      assert comments == [];
      VisibleComment(a);
      NothingVisible();
    }
    assert Visible(front) + Visible(UpdatedComments(comments, a) + top)
        == Visible(lines[..f.table])
           + (if Noted(lines, f.table, r) then [] else ["# Managed by calciforge install for " + a.id + "."]) + Visible(top);
  }

  lemma NothingVisible()
    ensures Visible([]) == [] && !AnyManaged([])
  {
  }

  lemma NotedIsManaged(lines: seq<string>, start: nat, t: nat, r: nat)
    requires r <= start < t <= |lines| && CommentRun(lines, t, r) && Noted(lines, t, r)
    requires forall k :: r <= k < start ==> !IsComment(lines[k])
    ensures AnyManaged(lines[start..t])
  {
    hide IsComment, IsBlank, Mentions;
    var k :| r <= k < t && Mentions(lines[k], MANAGED);
    MentionIsVisible(lines[k]);
    assert CommentOrBlank(lines[k]);
    assert lines[start..t][k - start] == lines[k];
  }

  lemma VisibleComment(a: Agent)
    ensures Visible([ManagedComment(a)]) == ["# Managed by calciforge install for " + a.id + "."]
  {
    hide IsBlank, ManagedComment;
    CommentText(a);
    var line := ManagedComment(a);
    VisibleLine(line);
    assert [line][1..] == [];
  }

  lemma CommentText(a: Agent)
    ensures ManagedComment(a) == "# Managed by calciforge install for " + a.id + "."
    ensures ManagedComment(a) != "" && ManagedComment(a)[0] == '#'
  {
    assert "# " + MANAGED + " " == "# Managed by calciforge install for ";
  }

  lemma VisibleLine(line: string)
    requires line != "" && line[0] == '#'
    ensures !IsBlank(line)
  {
  }

  /** The text of an update, with its blank lines. */
  lemma UpdatedTextIs(lines: seq<string>, a: Agent, r: nat)
    requires Find(lines, a.id).Some? && CommentRun(lines, Find(lines, a.id).value.table, r)
    ensures InRange(Find(lines, a.id).value, lines)
    ensures var f := Find(lines, a.id).value;
            var front, child, after := lines[..f.start], lines[f.topEnd..f.blockEnd], lines[f.blockEnd..];
            var comments := if Noted(lines, f.table, r) then lines[f.start..f.table]
                            else ["# Managed by calciforge install for " + a.id + "."];
            var gapBefore := if front != [] && !IsBlank(front[|front| - 1]) then [""] else [];
            var gapAfter := if after != [] && !IsBlank(after[0]) then [""] else [];
            Upsert(lines, a)
            == Finish(front + gapBefore + (comments + UpdatedTop(lines[f.table..f.topEnd], child, a) + child) + gapAfter + after)
  {
    hide FindFrom, UpdatedTop, Mentions, IsComment, CommentRun, IsBlank, Finish, AnyManaged, ManagedComment;
    FoundInRange(lines, a.id, 0);
    FoundStartIs(lines, a.id, r);
    var f := Find(lines, a.id).value;
    if Noted(lines, f.table, r) {
      NotedIsManaged(lines, f.start, f.table, r);
    } else {
      assert lines[f.start..f.table] == [];
      NothingVisible();
      CommentText(a);
    }
  }

  /** The text of an addition: a blank line, the comment and the table behind the stripped text. */
  lemma AddedTextIs(lines: seq<string>, a: Agent)
    requires Find(lines, a.id).None?
    ensures Upsert(lines, a)
         == Finish(lines) + [""] + (["# Managed by calciforge install for " + a.id + "."] + NewTable(a))
  {
    hide FindFrom, Finish, ManagedComment, NewTable;
    CommentText(a);
  }

  // ----- what the block says afterwards -----

  /** The value of the first line that assigns `key` in the top part of the agent's block. */
  function ValueIn(lines: seq<string>, id: string, key: string): Option<string> {
    var r := Find(lines, id);
    FoundInRange(lines, id, 0);
    if r.None? then None
    else
      var line := FirstLine(lines[r.value.table..r.value.topEnd], key);
      if line.Some? then Some(ValueOf(line.value)) else None
  }

  /** The same value, up to white space at the end of the file; or none, as before. */
  predicate SameAsBefore(v: Option<string>, v': Option<string>) {
    v' == v || (v.Some? && v' == Some(RStrip(v.value)))
  }

  /** Some child table of the block is a registry. */
  ghost predicate HasRegistryTable(lines: seq<string>, id: string) {
    var r := Find(lines, id);
    r.Some? && exists i :: r.value.topEnd <= i < r.value.blockEnd && i < |lines| && StartsRegistry(lines[i])
  }

  ghost predicate StartsRegistry(line: string) {
    exists n: nat :: n <= |line| && IsBlank(line[..n]) && RegistryAt(line, n)
  }

  predicate RegistryAt(line: string, n: nat) {
    n <= |line| && ("[agents.registry" <= line[n..] || "[[agents.registry" <= line[n..])
  }

  lemma RegistryTableIs(line: string)
    ensures IsRegistryTable(line) <==> StartsRegistry(line)
  {
    SpaceSplits(line);
    if IsRegistryTable(line) {
      assert RegistryAt(line, SpaceLen(line));
    }
    if n: nat :| n <= |line| && IsBlank(line[..n]) && RegistryAt(line, n) {
      var t := line[n..];
      assert t != "" && t[0] == '[';
      assert line == line[..n] + t;
      SpaceLenOf(line[..n], t);
    }
  }

  lemma ValueIsBlockValue(lines: seq<string>, id: string, k: Key)
    ensures ValueIn(lines, id, Name(k)) == BlockValue(lines, id, k)
  {
    hide Find, FirstLine, ValueOf, Name;
  }

  /** What becomes of one key. */
  ghost predicate Becomes(lines: seq<string>, a: Agent, k: Key, v': Option<string>) {
    var v := BlockValue(lines, a.id, k);
    if exists u :: u in Updates(a) && u.key == k && (u.overwrite || v.None?) then
      exists u :: u in Updates(a) && u.key == k && v' == Some(u.value)
    else if k == RegistryKey && v.None? && !HasRegistryTable(lines, a.id) then v' == Some(RegistryValue(a))
    else if k == IdKey && Find(lines, a.id).None? then v' == Some(Quote(a.id))
    else SameAsBefore(v, v')
  }

  lemma KeyBecomes(lines: seq<string>, a: Agent, k: Key)
    requires PlainId(a.id) || Find(lines, a.id).Some?
    ensures Becomes(lines, a, k, BlockValue(Upsert(lines, a), a.id, k))
  {
    hide PlainId, FindFrom, Upsert, Updates, BlockValue, HasRegistryTable, Quote, RegistryValue, RStrip;
    var v, v' := BlockValue(lines, a.id, k), BlockValue(Upsert(lines, a), a.id, k);
    if u :| u in Updates(a) && u.key == k && (u.overwrite || v.None?) {
      AskedForIsSet(lines, a, u);
    } else if Find(lines, a.id).None? {
      NothingBefore(lines, a.id, k);
      NewKeyBecomes(lines, a, k);
    } else if v.Some? {
      OtherValuesKept(lines, a, k);
    } else {
      MissingKeyBecomes(lines, a, k);
    }
  }

  lemma NothingBefore(lines: seq<string>, id: string, k: Key)
    requires Find(lines, id).None?
    ensures BlockValue(lines, id, k).None? && !HasRegistryTable(lines, id)
  {
    hide FindFrom;
  }

  /** In a new block: the id, the registry, and nothing that was not asked for. */
  lemma NewKeyBecomes(lines: seq<string>, a: Agent, k: Key)
    requires PlainId(a.id) && Find(lines, a.id).None? && forall u :: u in Updates(a) ==> u.key != k
    ensures BlockValue(Upsert(lines, a), a.id, k)
         == if k == RegistryKey then Some(RegistryValue(a)) else if k == IdKey then Some(Quote(a.id)) else None
    ensures BlockValue(lines, a.id, k) == None && !HasRegistryTable(lines, a.id)
  {
    hide PlainId, FindFrom, Upsert, Updates, Settled, NewTable, Fields, KeyOf, ValueOf, Quote, RegistryValue, Name, FirstLine, KeyLine, IsValue, SameValues, UpdatedTop;
    var before, top, child, after := UpsertSettles(lines, a);
    SettledValue(before, top, child, after, a, k);
    NewTableKey(a, k);
  }

  lemma NewTableKey(a: Agent, k: Key)
    requires forall u :: u in Updates(a) ==> u.key != k
    ensures var line := FirstLine(NewTable(a), Name(k));
            if k == RegistryKey then line.Some? && ValueOf(line.value) == RegistryValue(a)
            else if k == IdKey then line.Some? && ValueOf(line.value) == Quote(a.id)
            else line.None?
  {
    hide KeyOf, ValueOf, Name, KeyLine, IsAgentTable, Fields, Updates, Quote, RegistryValue, IsValue, FirstLine;
    FieldsAreGood(a);
    AgentsLine();
    TableLineNoKey("[[agents]]", FieldLines(Fields(a)), k);
    if k == RegistryKey {
      FieldLineOf(Fields(a), Field(RegistryKey, RegistryValue(a)));
    } else if k == IdKey {
      assert Fields(a)[0] in Fields(a);
      FieldLineOf(Fields(a), Field(IdKey, Quote(a.id)));
    } else {
      forall x | x in Fields(a)
        ensures x.key != k
      {
        if x.key == k {
          FieldIsUpdate(a, x);
        }
      }
      NoFieldLine(Fields(a), k);
    }
  }

  /** Every field but the id and the registry is an update asked for. */
  lemma FieldIsUpdate(a: Agent, x: Field)
    requires x in Fields(a) && x.key != IdKey && x.key != RegistryKey
    ensures exists u :: u in Updates(a) && u.key == x.key
  {
    hide IsBlank, Quote, QuoteList, IntText, RegistryValue, Chosen;
    ChosenFrom(FieldOptions(a), x);
    var i :| 0 <= i < |FieldOptions(a)| && FieldOptions(a)[i] == (true, x);
    var k := if i == 5 then 3 else if i <= 3 then i - 1 else if i == 4 then 4 else i - 1;
    var u := UpdateOptions(a)[k].1;
    assert UpdateOptions(a)[k] == (true, u) && u.key == x.key;
    ChosenFrom(UpdateOptions(a), u);
  }

  lemma {:induction false} NoFieldLine(fields: seq<Field>, k: Key)
    requires WellValued(fields) && forall x :: x in fields ==> x.key != k
    ensures FirstLine(FieldLines(fields), Name(k)).None?
  {
    hide KeyOf, ValueOf, Name, KeyLine, IsValue;
    if fields != [] {
      ReadKeyLine(Name(fields[0].key), fields[0].value);
      assert fields[0] in fields;
      NamesDiffer(fields[0].key, k);
      NoFieldLine(fields[1..], k);
    }
  }

  /** In an existing block, a key that is missing and not asked for: the registry is added if there is none. */
  lemma MissingKeyBecomes(lines: seq<string>, a: Agent, k: Key)
    requires Find(lines, a.id).Some? && BlockValue(lines, a.id, k).None? && forall u :: u in Updates(a) ==> u.key != k
    ensures BlockValue(Upsert(lines, a), a.id, k)
         == if k == RegistryKey && !HasRegistryTable(lines, a.id) then Some(RegistryValue(a)) else None
  {
    hide PlainId, FindFrom, Upsert, Updates, Settled, NewTable, UpdatedTop, KeyOf, ValueOf, RStrip, Name, FirstLine, RegistryValue, IsRegistryTable, HasRegistryTable, IsValue;
    var before, top, child, after := UpsertSettles(lines, a);
    SettledValue(before, top, child, after, a, k);
    FoundShape(lines, a.id);
    var f := Find(lines, a.id).value;
    RegistryAmongChildren(lines, a.id);
    MissingInTop(lines[f.table..f.topEnd], lines[f.topEnd..f.blockEnd], a, k);
    RegistryIsStripped(a);
  }

  lemma RegistryAmongChildren(lines: seq<string>, id: string)
    requires Find(lines, id).Some? && InRange(Find(lines, id).value, lines)
    ensures var f := Find(lines, id).value;
            var child := lines[f.topEnd..f.blockEnd];
            HasRegistryTable(lines, id) <==> exists i :: 0 <= i < |child| && IsRegistryTable(child[i])
  {
    hide FindFrom, IsRegistryTable, StartsRegistry;
    var f := Find(lines, id).value;
    var child := lines[f.topEnd..f.blockEnd];
    forall i | 0 <= i < |child|
      ensures IsRegistryTable(child[i]) <==> StartsRegistry(lines[f.topEnd + i])
    {
      RegistryTableIs(child[i]);
    }
    if HasRegistryTable(lines, id) {
      var i :| f.topEnd <= i < f.blockEnd && i < |lines| && StartsRegistry(lines[i]);
      assert IsRegistryTable(child[i - f.topEnd]);
    }
  }

  lemma RegistryIsStripped(a: Agent)
    ensures RStrip(RegistryValue(a)) == RegistryValue(a)
  {
    hide RegistryValue, RStrip;
    ValueIsStripped(RegistryValue(a));
  }

  lemma MissingInTop(top: seq<string>, child: seq<string>, a: Agent, k: Key)
    requires FirstLine(top, Name(k)).None? && forall u :: u in Updates(a) ==> u.key != k
    ensures var line := FirstLine(UpdatedTop(top, child, a), Name(k));
            if k == RegistryKey && forall i :: 0 <= i < |child| ==> !IsRegistryTable(child[i])
            then line.Some? && ValueOf(line.value) == RegistryValue(a)
            else line.None?
  {
    hide Updates, Name, ValueOf, KeyOf, RegistryValue, KeyLine, FirstLine, IsRegistryTable, IsValue;
    UpdatesAreProper(a);
    var mid := UpsertAll(top, Updates(a));
    forall i | 0 <= i < |Updates(a)|
      ensures Name(Updates(a)[i].key) != Name(k) && Name(Updates(a)[i].key) != Name(RegistryKey)
    {
      assert Updates(a)[i] in Updates(a);
      NamesDiffer(Updates(a)[i].key, k);
      NamesDiffer(Updates(a)[i].key, RegistryKey);
    }
    UntouchedKey(top, Updates(a), Name(k));
    UntouchedKey(top, Updates(a), Name(RegistryKey));
    FirstLineConcat(mid, [RegistryLine(a)], Name(k));
    OneLine(RegistryLine(a), Name(k));
    ReadKeyLine(Name(RegistryKey), RegistryValue(a));
    if k != RegistryKey {
      NamesDiffer(k, RegistryKey);
    }
  }

  lemma OneLine(line: string, key: string)
    ensures FirstLine([line], key) == if KeyOf(line) == Some(key) then Some(line) else None
  {
    hide KeyOf;
    assert [line][1..] == [];
  }

  /**
   After a run the agent's block says, key by key: what was asked for where it is
   to be overwritten; a model and aliases only where there were none; a registry
   only where there was none; and everything else as before.
   */
  lemma BlockBecomes(lines: seq<string>, a: Agent)
    requires PlainId(a.id) || Find(lines, a.id).Some?
    ensures var r := Upsert(lines, a);
            var id := a.id;
            && ValueIn(r, id, "kind") == Some(Quote(a.kind))
            && ValueIn(r, id, "endpoint") == Some(Quote(a.endpoint))
            && ValueIn(r, id, "timeout_ms") == Some(IntText(a.timeoutMs))
            && (if IsBlank(a.apiKeyFile) then SameAsBefore(ValueIn(lines, id, "api_key_file"), ValueIn(r, id, "api_key_file"))
                else ValueIn(r, id, "api_key_file") == Some(Quote(a.apiKeyFile)))
            && (if a.allowModelOverride then ValueIn(r, id, "allow_model_override") == Some("true")
                else SameAsBefore(ValueIn(lines, id, "allow_model_override"), ValueIn(r, id, "allow_model_override")))
            && (if ValueIn(lines, id, "model").Some? || a.model == ""
                then SameAsBefore(ValueIn(lines, id, "model"), ValueIn(r, id, "model"))
                else ValueIn(r, id, "model") == Some(Quote(a.model)))
            && (if ValueIn(lines, id, "aliases").Some? || a.aliases == []
                then SameAsBefore(ValueIn(lines, id, "aliases"), ValueIn(r, id, "aliases"))
                else ValueIn(r, id, "aliases") == Some(QuoteList(a.aliases)))
    ensures var r := Upsert(lines, a);
            if ValueIn(lines, a.id, "registry").Some? || HasRegistryTable(lines, a.id)
            then SameAsBefore(ValueIn(lines, a.id, "registry"), ValueIn(r, a.id, "registry"))
            else
              var shown := if a.id == "hermes" then "Hermes" else if a.id == "ironclaw" then "IronClaw" else a.id;
              ValueIn(r, a.id, "registry")
              == Some("{ display_name = " + Quote(shown) + ", specialties = " + QuoteList([a.kind, "managed"]) + " }")
  {
    hide PlainId, Find, Upsert, HasRegistryTable, Quote, QuoteList, IntText, SameAsBefore, IsBlank, ValueIn, RegistryValue;
    SetKeys(lines, a);
    SuppliedKeys(lines, a);
    AddedKeys(lines, a);
    RegistryOutcome(lines, a);
    RegistryValueIs(a);
  }

  lemma SetKeys(lines: seq<string>, a: Agent)
    requires PlainId(a.id) || Find(lines, a.id).Some?
    ensures var r := Upsert(lines, a);
            && ValueIn(r, a.id, Name(KindKey)) == Some(Quote(a.kind))
            && ValueIn(r, a.id, Name(EndpointKey)) == Some(Quote(a.endpoint))
            && ValueIn(r, a.id, Name(TimeoutKey)) == Some(IntText(a.timeoutMs))
  {
    hide PlainId, Find, Upsert, Quote, QuoteList, IntText, SameAsBefore, IsBlank, ValueIn, Updates, Name;
    UpdatesAre(a);
    KeyOutcome(lines, a, KindKey, Quote(a.kind), true, true);
    KeyOutcome(lines, a, EndpointKey, Quote(a.endpoint), true, true);
    KeyOutcome(lines, a, TimeoutKey, IntText(a.timeoutMs), true, true);
  }

  lemma SuppliedKeys(lines: seq<string>, a: Agent)
    requires PlainId(a.id) || Find(lines, a.id).Some?
    ensures var r := Upsert(lines, a);
            && (if IsBlank(a.apiKeyFile)
                then SameAsBefore(ValueIn(lines, a.id, Name(ApiKeyFileKey)), ValueIn(r, a.id, Name(ApiKeyFileKey)))
                else ValueIn(r, a.id, Name(ApiKeyFileKey)) == Some(Quote(a.apiKeyFile)))
            && (if a.allowModelOverride then ValueIn(r, a.id, Name(OverrideKey)) == Some("true")
                else SameAsBefore(ValueIn(lines, a.id, Name(OverrideKey)), ValueIn(r, a.id, Name(OverrideKey))))
  {
    hide PlainId, Find, Upsert, Quote, QuoteList, IntText, SameAsBefore, IsBlank, ValueIn, Updates, Name;
    UpdatesAre(a);
    KeyOutcome(lines, a, ApiKeyFileKey, Quote(a.apiKeyFile), !IsBlank(a.apiKeyFile), true);
    KeyOutcome(lines, a, OverrideKey, "true", a.allowModelOverride, true);
  }

  lemma AddedKeys(lines: seq<string>, a: Agent)
    requires PlainId(a.id) || Find(lines, a.id).Some?
    ensures var r := Upsert(lines, a);
            var model, aliases := ValueIn(lines, a.id, Name(ModelKey)), ValueIn(lines, a.id, Name(AliasesKey));
            && (if model.Some? || a.model == "" then SameAsBefore(model, ValueIn(r, a.id, Name(ModelKey)))
                else ValueIn(r, a.id, Name(ModelKey)) == Some(Quote(a.model)))
            && (if aliases.Some? || a.aliases == [] then SameAsBefore(aliases, ValueIn(r, a.id, Name(AliasesKey)))
                else ValueIn(r, a.id, Name(AliasesKey)) == Some(QuoteList(a.aliases)))
  {
    hide PlainId, Find, Upsert, Quote, QuoteList, IntText, SameAsBefore, IsBlank, ValueIn, Updates, Name;
    UpdatesAre(a);
    KeyOutcome(lines, a, ModelKey, Quote(a.model), a.model != "", false);
    KeyOutcome(lines, a, AliasesKey, QuoteList(a.aliases), a.aliases != [], false);
  }

  /** The outcome for a key of which at most this update is asked for. */
  lemma KeyOutcome(lines: seq<string>, a: Agent, k: Key, value: string, asked: bool, overwrite: bool)
    requires PlainId(a.id) || Find(lines, a.id).Some?
    requires k != IdKey && k != RegistryKey
    requires forall u :: u in Updates(a) && u.key == k <==> asked && u == Update(k, value, overwrite)
    ensures var v, v' := ValueIn(lines, a.id, Name(k)), ValueIn(Upsert(lines, a), a.id, Name(k));
            if asked && (overwrite || v.None?) then v' == Some(value) else SameAsBefore(v, v')
  {
    hide PlainId, Find, Upsert, BlockValue, ValueIn, Name, SameAsBefore, Updates;
    KeyBecomes(lines, a, k);
    ValueIsBlockValue(lines, a.id, k);
    ValueIsBlockValue(Upsert(lines, a), a.id, k);
    assert asked ==> Update(k, value, overwrite) in Updates(a);
  }

  lemma RegistryOutcome(lines: seq<string>, a: Agent)
    requires PlainId(a.id) || Find(lines, a.id).Some?
    ensures var v, v' := ValueIn(lines, a.id, Name(RegistryKey)), ValueIn(Upsert(lines, a), a.id, Name(RegistryKey));
            if v.Some? || HasRegistryTable(lines, a.id) then SameAsBefore(v, v') else v' == Some(RegistryValue(a))
  {
    hide PlainId, Find, Upsert, BlockValue, ValueIn, Name, SameAsBefore, Updates, HasRegistryTable, RegistryValue;
    UpdatesAre(a);
    KeyBecomes(lines, a, RegistryKey);
    ValueIsBlockValue(lines, a.id, RegistryKey);
    ValueIsBlockValue(Upsert(lines, a), a.id, RegistryKey);
  }

  lemma RegistryValueIs(a: Agent)
    ensures var shown := if a.id == "hermes" then "Hermes" else if a.id == "ironclaw" then "IronClaw" else a.id;
            RegistryValue(a) == "{ display_name = " + Quote(shown) + ", specialties = " + QuoteList([a.kind, "managed"]) + " }"
  {
    hide Quote, QuoteList;
  }

  /** The updates, spelled out. */
  lemma UpdatesAre(a: Agent)
    ensures forall u :: u in Updates(a) <==>
              || u == Update(KindKey, Quote(a.kind), true)
              || u == Update(EndpointKey, Quote(a.endpoint), true)
              || (!IsBlank(a.apiKeyFile) && u == Update(ApiKeyFileKey, Quote(a.apiKeyFile), true))
              || u == Update(TimeoutKey, IntText(a.timeoutMs), true)
              || (a.model != "" && u == Update(ModelKey, Quote(a.model), false))
              || (a.allowModelOverride && u == Update(OverrideKey, "true", true))
              || (a.aliases != [] && u == Update(AliasesKey, QuoteList(a.aliases), false))
  {
    hide IsBlank, Quote, QuoteList, IntText, Chosen;
    var options := UpdateOptions(a);
    forall u
      ensures u in Updates(a) <==> exists i :: 0 <= i < |options| && options[i] == (true, u)
    {
      ChosenFrom(options, u);
    }
    assert options[0] == (true, Update(KindKey, Quote(a.kind), true));
    assert options[1] == (true, Update(EndpointKey, Quote(a.endpoint), true));
    assert options[2] == (!IsBlank(a.apiKeyFile), Update(ApiKeyFileKey, Quote(a.apiKeyFile), true));
    assert options[3] == (true, Update(TimeoutKey, IntText(a.timeoutMs), true));
    assert options[4] == (a.model != "", Update(ModelKey, Quote(a.model), false));
    assert options[5] == (a.allowModelOverride, Update(OverrideKey, "true", true));
    assert options[6] == (a.aliases != [], Update(AliasesKey, QuoteList(a.aliases), false));
  }

  /** A timeout is written as its decimal numeral. */
  lemma TimeoutReadsBack(n: int)
    ensures n >= 0 ==> AllDigits(IntText(n)) && Value(IntText(n)) == n
    ensures n < 0 ==> IntText(n)[0] == '-' && AllDigits(IntText(n)[1..]) && Value(IntText(n)[1..]) == -n
  {
    if n < 0 {
      assert ("-" + ToString(-n))[1..] == ToString(-n);
    }
  }

  // ----- the lines of a new block -----

  /** The lines that are wanted, in order. */
  function Listed(lines: seq<(bool, string)>): seq<string> {
    if lines == [] then [] else (if lines[0].0 then [lines[0].1] else []) + Listed(lines[1..])
  }

  /** A new table, line by line. */
  lemma NewTableIs(a: Agent)
    ensures NewTable(a)
         == ["[[agents]]"]
          + Listed([(true, "id = " + Quote(a.id)),
                    (true, "kind = " + Quote(a.kind)),
                    (true, "endpoint = " + Quote(a.endpoint)),
                    (!IsBlank(a.apiKeyFile), "api_key_file = " + Quote(a.apiKeyFile)),
                    (a.model != "", "model = " + Quote(a.model)),
                    (true, "timeout_ms = " + IntText(a.timeoutMs)),
                    (a.allowModelOverride, "allow_model_override = true"),
                    (a.aliases != [], "aliases = " + QuoteList(a.aliases)),
                    (true, "registry = " + RegistryValue(a))])
  {
    hide Quote, QuoteList, IntText, RegistryValue, IsBlank, Chosen, FieldLines, Listed;
    KeyTexts();
    FieldsListed(FieldOptions(a),
                 [(true, "id = " + Quote(a.id)),
                  (true, "kind = " + Quote(a.kind)),
                  (true, "endpoint = " + Quote(a.endpoint)),
                  (!IsBlank(a.apiKeyFile), "api_key_file = " + Quote(a.apiKeyFile)),
                  (a.model != "", "model = " + Quote(a.model)),
                  (true, "timeout_ms = " + IntText(a.timeoutMs)),
                  (a.allowModelOverride, "allow_model_override = true"),
                  (a.aliases != [], "aliases = " + QuoteList(a.aliases)),
                  (true, "registry = " + RegistryValue(a))]);
  }

  lemma KeyTexts()
    ensures "id" + " = " == "id = " && "kind" + " = " == "kind = " && "endpoint" + " = " == "endpoint = "
    ensures "api_key_file" + " = " == "api_key_file = " && "model" + " = " == "model = "
    ensures "timeout_ms" + " = " == "timeout_ms = " && "aliases" + " = " == "aliases = " && "registry" + " = " == "registry = "
    ensures "allow_model_override" + " = " + "true" == "allow_model_override = true"
  {
  }

  predicate Lists(option: (bool, Field), line: (bool, string)) {
    line == (option.0, Name(option.1.key) + " = " + option.1.value)
  }

  lemma {:induction false} FieldsListed(options: seq<(bool, Field)>, lines: seq<(bool, string)>)
    requires |options| == |lines| && forall i :: 0 <= i < |options| ==> Lists(options[i], lines[i])
    ensures FieldLines(Chosen(options)) == Listed(lines)
  {
    hide Name;
    if options != [] {
      FieldsListed(options[1..], lines[1..]);
      assert Lists(options[0], lines[0]);
      var rest := Chosen(options[1..]);
      assert ([options[0].1] + rest)[1..] == rest;
      assert [] + rest == rest;
    }
  }

  /** A line added for a key that was missing. */
  lemma InsertedLineIs(lines: seq<string>, key: string, value: string, overwrite: bool)
    requires FirstLine(lines, key).None?
    ensures exists n: nat :: BehindVisible(lines, n)
              && UpsertKey(lines, key, value, overwrite) == lines[..n] + [key + " = " + value] + lines[n..]
  {
    hide IsBlank, KeyOf, FirstLine;
    InsertBehindVisible(lines);
    assert BehindVisible(lines, InsertAt(lines));
  }

  /** Only blank lines follow, and no blank line precedes. */
  predicate BehindVisible(lines: seq<string>, n: nat) {
    n <= |lines| && (forall i :: n <= i < |lines| ==> IsBlank(lines[i])) && (n > 0 ==> !IsBlank(lines[n - 1]))
  }

  lemma {:induction false} InsertBehindVisible(lines: seq<string>)
    ensures var n := InsertAt(lines);
            (forall i :: n <= i < |lines| ==> IsBlank(lines[i])) && (n > 0 ==> !IsBlank(lines[n - 1]))
  {
    hide IsBlank;
    if lines != [] && IsBlank(lines[|lines| - 1]) {
      InsertBehindVisible(lines[..|lines| - 1]);
    }
  }

  /** What the helper makes of a missing or blank file before it adds the block. */
  lemma LoadedIs(file: Option<seq<string>>)
    ensures file.None? || Visible(file.value) == [] ==> Loaded(file) == ["[calciforge]", "version = 2"]
    ensures file.Some? && Visible(file.value) != [] ==> Loaded(file) == file.value
  {
    hide IsBlank;
    if file.Some? {
      VisibleIfAny(file.value);
    }
  }

  lemma {:induction false} VisibleIfAny(lines: seq<string>)
    ensures Visible(lines) == [] <==> forall i :: 0 <= i < |lines| ==> IsBlank(lines[i])
  {
    hide IsBlank;
    if lines != [] {
      VisibleIfAny(lines[1..]);
      assert forall i :: 0 < i < |lines| ==> lines[i] == lines[1..][i - 1];
    }
  }
}

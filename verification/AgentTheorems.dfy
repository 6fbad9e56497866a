/**
 What the agent helper guarantees: after a run the agent is found and its block
 carries what was asked for; nothing else changes but blank lines; and a second
 run changes nothing but blank lines, whose number and places are known exactly.
 */
module AgentTheorems {
  import opened Results
  import opened TomlText
  import opened JsonText
  import opened AgentUpsert
  import opened AgentBlocks
  import opened AgentEdits

  // ----- settled files -----

  ghost predicate UpToDate(top: seq<string>, child: seq<string>, a: Agent) {
    (forall u :: u in Updates(a) ==> Current(top, u)) && RegistryExists(top, child)
  }

  /** A file as a run leaves it, split at the agent's block. */
  ghost predicate Settled(before: seq<string>, top: seq<string>, child: seq<string>, after: seq<string>, a: Agent) {
    && Shape(before, top, child, after, a.id)
    && AnyManaged(before[AttachedStart(before)..])
    && UpToDate(top, child, a)
    && Finished(Join(before, top, child, after))
  }

  /** The updated top part has everything asked for, and is still the top part of this agent. */
  lemma UpdatedTopSettles(top: seq<string>, child: seq<string>, a: Agent)
    requires TopShape(top)
    ensures var top' := UpdatedTop(top, child, a);
            TopShape(top') && IdIn(top') == IdIn(top) && UpToDate(top', child, a)
  {
    hide Updates, Current, TopShape, IdIn, FirstLine, IsRegistryTable, RegistryLine, IsAgentTable, HeaderKind, KeyOf;
    UpdatesAreProper(a);
    UpsertAllKeeps(top, Updates(a));
    var mid := UpsertAll(top, Updates(a));
    if !RegistryExists(mid, child) {
      RegistryAppended(mid, a);
      forall u | u in Updates(a)
        ensures Current(mid + [RegistryLine(a)], u)
      {
        RegistryKeepsCurrent(mid, a, u);
      }
    }
  }

  lemma RegistryAppended(top: seq<string>, a: Agent)
    requires TopShape(top) && FirstLine(top, Name(RegistryKey)).None?
    ensures var top' := top + [RegistryLine(a)];
            TopShape(top') && IdIn(top') == IdIn(top) && FirstLine(top', Name(RegistryKey)).Some?
  {
    hide HeaderKind, IsAgentTable, IdOf, KeyOf, RegistryLine, RegistryValue, Name, IsValue;
    RegistryLineReads(a);
    var line := RegistryLine(a);
    FirstLineConcat(top, [line], Name(RegistryKey));
    IdInConcat(top, [line]);
    IdInAfter(line, []);
    assert [line] + [] == [line];
    assert (top + [line])[1..] == top[1..] + [line];
  }

  lemma RegistryLineReads(a: Agent)
    ensures KeyOf(RegistryLine(a)) == Some(Name(RegistryKey))
    ensures HeaderKind(RegistryLine(a)) == NoHeader && IdOf(RegistryLine(a)) == None
  {
    hide HeaderKind, IsAgentTable, IdOf, KeyOf, ValueOf, RegistryValue, Name, KeyLine, IsValue;
    ReadKeyLine(Name(RegistryKey), RegistryValue(a));
    KeyLineIsQuiet(RegistryLine(a), RegistryKey);
  }

  lemma RegistryKeepsCurrent(top: seq<string>, a: Agent, u: Update)
    requires Current(top, u)
    ensures Current(top + [RegistryLine(a)], u)
  {
    hide RegistryLine, Name, ValueOf, KeyOf;
    FirstLineConcat(top, [RegistryLine(a)], Name(u.key));
  }

  /** A settled top part is not touched again. */
  lemma SettledTopStays(top: seq<string>, child: seq<string>, a: Agent)
    requires UpToDate(top, child, a)
    ensures UpdatedTop(top, child, a) == top
  {
    hide Updates, Current, FirstLine, IsRegistryTable;
    UpdatesAreProper(a);
    AllCurrentStay(top, Updates(a));
  }

  /**
   The second run: it adds one blank line before the attached comments if a
   visible line precedes them, one after the block if another table follows,
   and changes nothing else.
   */
  lemma SecondRun(before: seq<string>, top: seq<string>, child: seq<string>, after: seq<string>, a: Agent)
    requires Settled(before, top, child, after, a)
    ensures var start := AttachedStart(before);
            Upsert(Join(before, top, child, after), a)
            == before[..start] + GapAfter(before[..start]) + before[start..] + top + child + GapBefore(after) + after
  {
    hide Shape, Find, AttachedStart, UpdatedTop, UpToDate, AnyManaged, IsBlank, Finish, TopShape, NoTail, Added, GapAfter, GapBefore;
    var lines, start := Join(before, top, child, after), AttachedStart(before);
    ShapeFound(before, top, child, after, a.id);
    SettledTopStays(top, child, a);
    var f := Found(start, |before|, |before| + |top|, |before| + |top| + |child|);
    TopNotEmpty(before, top, child, after, a.id);
    FoundParts(before, top, child, after, start);
    var r := before[..start] + GapAfter(before[..start]) + before[start..] + top + child + GapBefore(after) + after;
    assert Updated(lines, f, a) == r by {
      assert Replacement(lines, f, a) == before[start..] + top + child;
      AssociateRest(before[..start] + GapAfter(before[..start]), before[start..], top, child, GapBefore(after) + after);
      AssociateRest(before[..start] + GapAfter(before[..start]), before[start..], top, child, GapBefore(after));
    }
    LastOfJoin(before, top, child, after, r);
    FinishedStays(r);
  }

  lemma TopNotEmpty(before: seq<string>, top: seq<string>, child: seq<string>, after: seq<string>, id: string)
    requires Shape(before, top, child, after, id)
    ensures top != []
  {
    hide HasAgent, IdIn, ChildShape, AfterShape, IsAgentTable, NoHeaders;
  }

  lemma FoundParts(before: seq<string>, top: seq<string>, child: seq<string>, after: seq<string>, start: nat)
    requires start <= |before|
    ensures var lines := Join(before, top, child, after);
            && lines[..start] == before[..start]
            && lines[start..|before|] == before[start..]
            && lines[|before|..|before| + |top|] == top
            && lines[|before| + |top|..|before| + |top| + |child|] == child
            && lines[|before| + |top| + |child|..] == after
  {
  }

  lemma AssociateRest(x: seq<string>, b: seq<string>, top: seq<string>, child: seq<string>, y: seq<string>)
    ensures x + (b + top + child) + y == x + b + top + child + y
  {
  }

  lemma LastOfJoin(before: seq<string>, top: seq<string>, child: seq<string>, after: seq<string>, r: seq<string>)
    requires top != [] && Finished(Join(before, top, child, after))
    requires exists x :: r == x + top + child + GapBefore(after) + after
    ensures Finished(r)
  {
    hide IsBlank, NoTail;
    var x :| r == x + top + child + GapBefore(after) + after;
    var lines := Join(before, top, child, after);
    if after != [] {
      assert r[|r| - 1] == after[|after| - 1] == lines[|lines| - 1];
    } else if child != [] {
      assert r[|r| - 1] == child[|child| - 1] == lines[|lines| - 1];
    } else {
      assert r[|r| - 1] == top[|top| - 1] == lines[|lines| - 1];
    }
  }

  // ----- every run leaves a settled file: updating -----

  /** Before a found block, with the comment brought up to date. */
  lemma BeforeSettles(before: seq<string>, a: Agent)
    requires !HasAgent(before, a.id)
    ensures var start := AttachedStart(before);
            var before' := before[..start] + GapAfter(before[..start]) + UpdatedComments(before[start..], a);
            !HasAgent(before', a.id) && AnyManaged(before'[AttachedStart(before')..])
  {
    hide AttachedStart, HasAgent, AnyManaged, IsBlank, IsComment, Quiet, CommentOrBlank, ManagedComment;
    var start := AttachedStart(before);
    var front, comments := before[..start], before[start..];
    var comments' := UpdatedComments(comments, a);
    AttachedIsComments(before);
    ManagedCommentIsManaged(a);
    assert before == front + comments;
    OnlyCommentsQuiet(comments);
    HasAgentConcat(front, comments, a.id);
    OnlyCommentsQuiet(comments');
    GapIsQuiet(front);
    HasAgentConcat(front, GapAfter(front), a.id);
    HasAgentConcat(front + GapAfter(front), comments', a.id);
    ManagedIsAttached(front + GapAfter(front), comments');
  }

  lemma OnlyCommentsQuiet(lines: seq<string>)
    requires OnlyComments(lines)
    ensures Quiet(lines)
  {
    hide IsBlank, IsComment, Quiet;
    assert forall i :: 0 <= i < |lines| ==> CommentOrBlank(lines[i]);
    BlankIsQuiet(lines);
  }

  lemma GapIsQuiet(lines: seq<string>)
    ensures Quiet(GapAfter(lines)) && Quiet(GapBefore(lines)) && Quiet([""])
  {
    hide Quiet;
    BlankIsQuiet([""]);
    BlankIsQuiet([]);
  }

  /** A blank line at the end of a top part, or the final strip, leaves it settled. */
  lemma TopWithBlank(top: seq<string>, child: seq<string>, a: Agent)
    requires TopShape(top) && UpToDate(top, child, a)
    ensures TopShape(top + [""]) && IdIn(top + [""]) == IdIn(top) && UpToDate(top + [""], child, a)
  {
    hide HeaderKind, IsAgentTable, IdOf, KeyOf, Updates, IsRegistryTable, Name, ValueOf;
    GapIsQuiet([]);
    IdInConcat(top, [""]);
    QuietHasNoId([""]);
    assert (top + [""])[1..] == top[1..] + [""];
    assert HeaderKind([""][0]) == NoHeader;
    FirstLineConcat(top, [""], Name(RegistryKey));
    forall u | u in Updates(a)
      ensures Current(top + [""], u)
    {
      assert Current(top, u);
      FirstLineConcat(top, [""], Name(u.key));
    }
  }

  lemma TopFinished(top: seq<string>, a: Agent)
    requires TopShape(top) && UpToDate(top, [], a)
    ensures var top' := Finish(top);
            TopShape(top') && IdIn(top') == IdIn(top) && UpToDate(top', [], a)
  {
    hide HeaderKind, IsAgentTable, IdOf, KeyOf, Updates, IsRegistryTable, Name, ValueOf, IdIn, Finish, FirstLine, RStrip, IsValue;
    var top' := Finish(top);
    FinishKeepsId(top);
    FinishTopShape(top);
    FinishKeepsKey(top, Name(RegistryKey));
    UpdatesAreProper(a);
    forall u | u in Updates(a)
      ensures Current(top', u)
    {
      assert Current(top, u);
      FinishKeepsKey(top, Name(u.key));
      var i :| 0 <= i < |Updates(a)| && Updates(a)[i] == u;
      ValueIsStripped(u.value);
    }
  }

  lemma ValueIsStripped(value: string)
    requires IsValue(value)
    ensures RStrip(value) == value
  {
    hide RStrip;
    RStripIsDone(value);
  }

  lemma FinishTopShape(top: seq<string>)
    requires TopShape(top)
    ensures TopShape(Finish(top))
  {
    hide HeaderKind, IsAgentTable, IdOf, Finish, IsBlank;
    FinishOutline(top);
    AgentTableIsHeader(top[0]);
    var n := |Finish(top)|;
    VisibleIsKept(top, 0);
    assert SameOutline(Finish(top), top[..n]);
    forall i | 0 <= i < |Finish(top)[1..]|
      ensures HeaderKind(Finish(top)[1..][i]) == NoHeader
    {
      assert Finish(top)[1..][i] == Finish(top)[i + 1] && top[..n][i + 1] == top[1..][i];
    }
    assert top[..n][0] == top[0];
  }

  lemma ChildWithBlank(top: seq<string>, child: seq<string>, a: Agent)
    requires child != [] && ChildShape(child) && UpToDate(top, child, a)
    ensures ChildShape(child + [""]) && UpToDate(top, child + [""], a)
  {
    hide HeaderKind, Current, Updates, IsRegistryTable, FirstLine, Quiet;
    GapIsQuiet([]);
    var child' := child + [""];
    assert NoHeaders([""]) by {
      assert Quiet([""]);
      QuietHasNoHeaders([""]);
    }
    assert HeaderKind([""][0]) == NoHeader;
    assert forall i :: 0 <= i < |child| ==> child'[i] == child[i];
  }

  lemma QuietHasNoHeaders(lines: seq<string>)
    requires Quiet(lines)
    ensures NoHeaders(lines)
  {
    hide HeaderKind, IdOf;
  }

  lemma ChildFinished(top: seq<string>, child: seq<string>, a: Agent)
    requires child != [] && ChildShape(child) && UpToDate(top, child, a)
    ensures ChildShape(Finish(child)) && Finish(child) != [] && UpToDate(top, Finish(child), a)
  {
    hide HeaderKind, IsAgentTable, IdOf, Finish, IsBlank, Current, Updates, IsRegistryTable, FirstLine, RStrip;
    FinishOutline(child);
    FinishIs(child);
    var n := |Finish(child)|;
    HeaderIsVisible(child[0]);
    VisibleIsKept(child, 0);
    assert forall i :: 0 <= i < n ==> child[..n][i] == child[i];
    if FirstLine(top, Name(RegistryKey)).None? {
      var i :| 0 <= i < |child| && IsRegistryTable(child[i]);
      RegistryIsVisible(child[i]);
      VisibleIsKept(child, i);
      assert IsRegistryTable(Finish(child)[i]);
    }
  }

  lemma HeaderIsVisible(line: string)
    requires HeaderKind(line) != NoHeader
    ensures !IsBlank(line)
  {
    hide HeaderKind, IsBlank;
    if IsBlank(line) {
      CommentIsQuiet(line);
    }
  }

  /** A visible prefix behind the leading white space survives stripping. */
  lemma PrefixSurvives(line: string, p: string)
    requires p != "" && !IsSpace(p[0]) && !IsSpace(p[|p| - 1])
    requires p <= line[SpaceLen(line)..]
    ensures !IsBlank(line)
    ensures p <= RStrip(line)[SpaceLen(RStrip(line))..]
  {
    hide SpaceLen, EndLen;
    var n, s := SpaceLen(line), RStrip(line);
    var t := line[n..];
    assert line[n] == t[0] == p[0] && line[n + |p| - 1] == t[|p| - 1] == p[|p| - 1];
    EndLenBehind(line, n + |p| - 1);
    SpaceSplits(line);
    var lead, rest := line[..n], s[n..];
    assert s == lead + rest;
    assert rest[..|p|] == t[..|p|] == p;
    SpaceLenOf(lead, rest);
  }

  /** A registry table stays one when its line is stripped. */
  lemma RegistryIsVisible(line: string)
    requires IsRegistryTable(line)
    ensures !IsBlank(line) && IsRegistryTable(RStrip(line))
  {
    hide RStrip, SpaceLen, IsBlank;
    var single, double := "[agents.registry", "[[agents.registry";
    assert single[|single| - 1] == 'y' && double[|double| - 1] == 'y';
    if single <= line[SpaceLen(line)..] {
      PrefixSurvives(line, single);
    } else {
      PrefixSurvives(line, double);
    }
  }

  lemma AfterFinished(after: seq<string>)
    requires after != [] && AfterShape(after)
    ensures AfterShape(Finish(after)) && Finish(after) != [] && !AllBlank(after) && GapBefore(after) == [""]
  {
    hide HeaderKind, IsAgentTable, IdOf, Finish, IsBlank;
    FinishOutline(after);
    HeaderIsVisible(after[0]);
    var n := |Finish(after)|;
    VisibleIsKept(after, 0);
    assert after[..n][0] == after[0];
  }

  /** The same keys with the same values, up to white space at the end. */
  ghost predicate SameValues(top: seq<string>, top': seq<string>) {
    forall k: Key :: SameValue(FirstLine(top, Name(k)), FirstLine(top', Name(k)))
  }

  ghost predicate SameValue(line: Option<string>, line': Option<string>) {
    if line.None? then line'.None?
    else line'.Some? && (ValueOf(line'.value) == ValueOf(line.value) || ValueOf(line'.value) == RStrip(ValueOf(line.value)))
  }

  lemma SameValuesWithBlank(top: seq<string>)
    ensures SameValues(top, top) && SameValues(top, top + [""])
  {
    hide KeyOf, Name, ValueOf, RStrip;
    forall k: Key
      ensures SameValue(FirstLine(top, Name(k)), FirstLine(top + [""], Name(k)))
    {
      FirstLineConcat(top, [""], Name(k));
      BlankHasNoKey([""], Name(k));
    }
  }

  lemma SameValuesFinished(top: seq<string>)
    ensures SameValues(top, Finish(top))
  {
    hide KeyOf, Name, ValueOf, RStrip, Finish, FirstLine;
    forall k: Key
      ensures SameValue(FirstLine(top, Name(k)), FirstLine(Finish(top), Name(k)))
    {
      FinishKeepsKey(top, Name(k));
    }
  }

  /** The final strip of an updated file, case by case: it reaches into the part that is last. */
  lemma UpdatedSettles(before: seq<string>, top: seq<string>, child: seq<string>, after: seq<string>, a: Agent)
    returns (top': seq<string>, child': seq<string>, after': seq<string>)
    requires Shape(before, top, child, after, a.id) && AnyManaged(before[AttachedStart(before)..]) && UpToDate(top, child, a)
    ensures Finish(before + top + child + GapBefore(after) + after) == Join(before, top', child', after')
    ensures Settled(before, top', child', after', a) && SameValues(top, top')
    ensures after' == [] <==> after == []
  {
    hide SameValues, HeaderKind, IsAgentTable, Finish, IsBlank, HasAgent, AnyManaged, AttachedStart, UpToDate, IdIn, TopShape, ChildShape, AfterShape, AllBlank, NoTail, GapBefore;
    var lines := before + top + child + GapBefore(after) + after;
    SameValuesWithBlank(top);
    SameValuesFinished(top);
    if after != [] {
      AfterFinished(after);
      FinishTail(before + top + child + [""], after);
      after' := Finish(after);
      if child != [] {
        ChildWithBlank(top, child, a);
        top', child' := top, child + [""];
      } else {
        TopWithBlank(top, child, a);
        top', child' := top + [""], [];
      }
    } else if child != [] {
      ChildFinished(top, child, a);
      ChildIsVisible(child);
      FinishTail(before + top, child);
      GapOfNothing();
      assert lines == before + top + child;
      top', child', after' := top, Finish(child), [];
    } else {
      TopFinished(top, a);
      TopIsVisible(top);
      FinishTail(before, top);
      GapOfNothing();
      assert lines == before + top;
      top', child', after' := Finish(top), [], [];
    }
    JoinAssociates(before, top', child', after');
    assert Finish(lines) == Join(before, top', child', after');
    TopNotEmpty(before, top', child', after', a.id);
    FinishFinishes(lines);
  }

  lemma GapOfNothing()
    ensures GapBefore([]) == []
  {
  }

  lemma JoinAssociates(before: seq<string>, top: seq<string>, child: seq<string>, after: seq<string>)
    ensures Join(before, top, child, after) == before + top + child + after
    ensures Join(before, top, child + [""], after) == before + top + child + [""] + after
    ensures Join(before, top + [""], child, after) == before + top + [""] + child + after
  {
  }

  lemma ChildIsVisible(child: seq<string>)
    requires child != [] && ChildShape(child)
    ensures !AllBlank(child)
  {
    hide HeaderKind, IsBlank;
    HeaderIsVisible(child[0]);
  }

  lemma TopIsVisible(top: seq<string>)
    requires TopShape(top)
    ensures !AllBlank(top)
  {
    hide HeaderKind, IsBlank, IsAgentTable;
    AgentTableIsHeader(top[0]);
  }

  // ----- every run leaves a settled file: adding -----

  ghost predicate DistinctKeys(fields: seq<Field>) {
    forall i, j :: 0 <= i < j < |fields| ==> fields[i].key != fields[j].key
  }

  ghost predicate WellValued(fields: seq<Field>) {
    forall i :: 0 <= i < |fields| ==> IsValue(fields[i].value)
  }

  lemma {:induction false} FieldLineOf(fields: seq<Field>, x: Field)
    requires DistinctKeys(fields) && WellValued(fields) && x in fields
    ensures FirstLine(FieldLines(fields), Name(x.key)) == Some(KeyLine(Name(x.key), x.value))
    ensures ValueOf(KeyLine(Name(x.key), x.value)) == x.value
  {
    hide KeyOf, ValueOf, Name, KeyLine, IsValue;
    var line := KeyLine(Name(fields[0].key), fields[0].value);
    ReadKeyLine(Name(fields[0].key), fields[0].value);
    if fields[0] != x {
      var i :| 0 <= i < |fields| && fields[i] == x;
      assert fields[1..][i - 1] == x;
      NamesDiffer(fields[0].key, x.key);
      FieldLineOf(fields[1..], x);
    }
  }

  lemma {:induction false} FieldLinesNoHeaders(fields: seq<Field>)
    requires WellValued(fields)
    ensures NoHeaders(FieldLines(fields))
    ensures (forall i :: 0 <= i < |fields| ==> fields[i].key != IdKey) ==> IdIn(FieldLines(fields)) == None
  {
    hide KeyOf, ValueOf, Name, KeyLine, IsValue, HeaderKind, IdOf, IsAgentTable;
    if fields != [] {
      var line := KeyLine(Name(fields[0].key), fields[0].value);
      ReadKeyLine(Name(fields[0].key), fields[0].value);
      KeyIsNoHeader(line);
      if fields[0].key != IdKey {
        KeyLineIsQuiet(line, fields[0].key);
      }
      FieldLinesNoHeaders(fields[1..]);
    }
  }

  ghost predicate GoodOptions(options: seq<(bool, Field)>) {
    && (forall i :: 0 <= i < |options| ==> IsValue(options[i].1.value))
    && forall i, j :: 0 <= i < j < |options| ==> options[i].1.key != options[j].1.key
  }

  lemma {:induction false} ChosenFieldsGood(options: seq<(bool, Field)>)
    requires GoodOptions(options)
    ensures DistinctKeys(Chosen(options)) && WellValued(Chosen(options))
  {
    hide IsValue;
    if options != [] {
      var rest := Chosen(options[1..]);
      ChosenFieldsGood(options[1..]);
      forall i | 0 <= i < |rest|
        ensures rest[i].key != options[0].1.key
      {
        ChosenFrom(options[1..], rest[i]);
        var k :| 0 <= k < |options[1..]| && options[1..][k] == (true, rest[i]);
        assert options[k + 1].1 == rest[i];
      }
    }
  }

  lemma FieldsAreGood(a: Agent)
    ensures DistinctKeys(Fields(a)) && WellValued(Fields(a))
    ensures Fields(a) != [] && Fields(a)[0] == Field(IdKey, Quote(a.id))
    ensures Field(RegistryKey, RegistryValue(a)) in Fields(a)
  {
    hide IsBlank, Quote, QuoteList, IntText, RegistryValue;
    ChosenFieldsGood(FieldOptions(a));
    assert FieldOptions(a)[8] == (true, Field(RegistryKey, RegistryValue(a)));
    ChosenFrom(FieldOptions(a), Field(RegistryKey, RegistryValue(a)));
  }

  /** Every update asked for is a field of the new block. */
  lemma UpdateIsField(a: Agent, u: Update)
    requires u in Updates(a)
    ensures Field(u.key, u.value) in Fields(a)
  {
    hide IsBlank, Quote, QuoteList, IntText, RegistryValue, Chosen;
    ChosenFrom(UpdateOptions(a), u);
    var i :| 0 <= i < |UpdateOptions(a)| && UpdateOptions(a)[i] == (true, u);
    var k := if i == 3 then 5 else if i < 3 then i + 1 else if i == 4 then 4 else i + 1;
    assert FieldOptions(a)[k] == (true, Field(u.key, u.value));
    ChosenFrom(FieldOptions(a), Field(u.key, u.value));
  }

  /** The id of a new table is what its quoted form reads back as. */
  lemma NewTableId(a: Agent)
    ensures TopShape(NewTable(a)) && IdIn(NewTable(a)) == Quoted(Quote(a.id))
    ensures NoHeaders(NewTable(a)[1..]) && IdAhead(NewTable(a)[1..]) == Quoted(Quote(a.id))
  {
    hide KeyOf, ValueOf, Name, KeyLine, HeaderKind, IdOf, IsAgentTable, Quote, Quoted, Fields, IsValue;
    FieldsAreGood(a);
    var fields := Fields(a);
    FieldLinesNoHeaders(fields);
    FieldLinesNoHeaders(fields[1..]);
    AgentsLine();
    var table := NewTable(a);
    assert table[1..] == FieldLines(fields);
    IdLineReads(a);
    IdInOfTop(table);
    IdAfterFirst(KeyLine(Name(IdKey), Quote(a.id)), FieldLines(fields[1..]));
  }

  lemma AgentsLine()
    ensures IsAgentTable("[[agents]]")
  {
    var t := "[[agents]]";
    TrimOf("", t, "");
    assert "" + t + "" == t;
  }

  lemma IdLineReads(a: Agent)
    ensures IdOf(KeyLine(Name(IdKey), Quote(a.id))) == Quoted(Quote(a.id))
  {
    hide KeyOf, ValueOf, KeyLine, Quote, Quoted, IsValue;
    ReadKeyLine(Name(IdKey), Quote(a.id));
  }

  lemma IdAfterFirst(line: string, rest: seq<string>)
    requires IdIn(rest) == None
    ensures IdIn([line] + rest) == IdOf(line)
  {
    hide IdOf;
    assert ([line] + rest)[1..] == rest;
  }

  lemma NewTableUpToDate(a: Agent)
    ensures UpToDate(NewTable(a), [], a)
  {
    hide KeyOf, ValueOf, Name, KeyLine, HeaderKind, IsAgentTable, Quote, Fields, Updates, IsValue, RegistryValue;
    FieldsAreGood(a);
    var table, lines := NewTable(a), FieldLines(Fields(a));
    AgentsLine();
    FieldLineOf(Fields(a), Field(RegistryKey, RegistryValue(a)));
    TableLineNoKey("[[agents]]", lines, RegistryKey);
    forall u | u in Updates(a)
      ensures Current(table, u)
    {
      UpdateIsField(a, u);
      FieldLineOf(Fields(a), Field(u.key, u.value));
      TableLineNoKey("[[agents]]", lines, u.key);
    }
  }

  lemma TableLineNoKey(line: string, lines: seq<string>, k: Key)
    requires IsAgentTable(line)
    ensures FirstLine([line] + lines, Name(k)) == FirstLine(lines, Name(k))
  {
    hide KeyOf, IsAgentTable, HeaderKind;
    AgentTableIsHeader(line);
    assert ([line] + lines)[1..] == lines;
  }

  /** What precedes an added table. */
  function AddedBefore(lines: seq<string>, a: Agent): seq<string> {
    Finish(lines) + [""] + [ManagedComment(a)]
  }

  lemma AddedParts(lines: seq<string>, a: Agent)
    ensures Added(lines, a) == Join(AddedBefore(lines, a), NewTable(a), [], [])
  {
    hide Finish, NewTable, ManagedComment;
  }

  lemma AddedBeforeSettles(lines: seq<string>, a: Agent)
    requires Find(lines, a.id).None?
    ensures var before := AddedBefore(lines, a);
            !HasAgent(before, a.id) && AnyManaged(before[AttachedStart(before)..])
  {
    hide Finish, ManagedComment, HasAgent, AttachedStart, AnyManaged, Matches, FindFrom, Quiet, IsBlank, IsComment;
    FoundInRange(lines, a.id, 0);
    NoMatchNoAgent(lines, a.id, 0);
    assert lines[0..] == lines;
    FinishKeepsAgents(lines, a.id);
    ManagedCommentIsManaged(a);
    GapIsQuiet([]);
    OnlyCommentsQuiet([ManagedComment(a)]);
    HasAgentConcat(Finish(lines), [""], a.id);
    HasAgentConcat(Finish(lines) + [""], [ManagedComment(a)], a.id);
    ManagedIsAttached(Finish(lines) + [""], [ManagedComment(a)]);
  }

  lemma BlankHasSpaces(s: string, i: nat)
    requires IsBlank(s) && i < |s|
    ensures IsSpace(s[i])
  {
  }

  lemma {:induction false} FieldLinesFinished(fields: seq<Field>)
    requires fields != [] && WellValued(fields)
    ensures Finished(FieldLines(fields))
  {
    hide IsBlank;
    var line := KeyLine(Name(fields[0].key), fields[0].value);
    if |fields| == 1 {
      var value := fields[0].value;
      assert FieldLines(fields) == [line];
      assert line[|line| - 1] == value[|value| - 1];
      if IsBlank(line) {
        BlankHasSpaces(line, |line| - 1);
      }
    } else {
      FieldLinesFinished(fields[1..]);
    }
  }

  lemma AddedFinished(lines: seq<string>, a: Agent)
    ensures Finished(Added(lines, a))
  {
    hide Finish, ManagedComment, Fields, IsBlank, NoTail, FieldLines;
    FieldsAreGood(a);
    FieldLinesFinished(Fields(a));
    var r, tail := Added(lines, a), FieldLines(Fields(a));
    assert r[|r| - 1] == tail[|tail| - 1];
  }

  lemma AddedSettles(lines: seq<string>, a: Agent)
    requires Find(lines, a.id).None? && PlainId(a.id)
    ensures Settled(AddedBefore(lines, a), NewTable(a), [], [], a)
  {
    hide AddedBefore, NewTable, HasAgent, AttachedStart, AnyManaged, TopShape, IdIn, UpToDate, Added, Join, IdAhead, NoHeaders, Quote, Quoted, PlainId, Finished;
    AddedBeforeSettles(lines, a);
    NewTableId(a);
    QuotedIdReadsBack(a.id);
    NewTableUpToDate(a);
    AddedFinished(lines, a);
    AddedParts(lines, a);
  }

  /** A block added for an agent is found again exactly if the id is plain. */
  lemma AddedIsFound(lines: seq<string>, a: Agent)
    requires Find(lines, a.id).None?
    ensures Find(Upsert(lines, a), a.id).Some? <==> PlainId(a.id)
  {
    hide AddedBefore, NewTable, HasAgent, TopShape, IdIn, UpToDate, IdAhead, NoHeaders, Quote, Quoted, PlainId, Finished, FindFrom, Shape, AttachedStart, Added, AnyManaged;
    AddedParts(lines, a);
    if PlainId(a.id) {
      AddedSettles(lines, a);
      ShapeFound(AddedBefore(lines, a), NewTable(a), [], [], a.id);
    } else {
      NotPlainNotFound(lines, a);
    }
  }

  lemma NotPlainNotFound(lines: seq<string>, a: Agent)
    requires Find(lines, a.id).None? && !PlainId(a.id)
    ensures Find(Added(lines, a), a.id).None?
  {
    hide AddedBefore, NewTable, IdIn, IdAhead, NoHeaders, Quote, Quoted, PlainId, AttachedStart, Added, AnyManaged, HeaderKind, IsAgentTable, Matches;
    var before, table := AddedBefore(lines, a), NewTable(a);
    AddedParts(lines, a);
    AddedBeforeSettles(lines, a);
    NewTableId(a);
    QuotedIdReadsBack(a.id);
    AgentTableHasNoId(table[0]);
    NoHeadersNoAgent(table[1..], a.id);
    HasAgentConcat(before, table, a.id);
    var r := Added(lines, a);
    assert r == before + table;
    assert r[0..] == r;
    NoMatchNoAgent(r, a.id, 0);
    FoundInRange(r, a.id, 0);
  }

  lemma {:induction false} NoHeadersNoAgent(lines: seq<string>, id: string)
    requires NoHeaders(lines)
    ensures !HasAgent(lines, id)
  {
    hide HeaderKind, IsAgentTable, IdAhead;
    if lines != [] {
      if IsAgentTable(lines[0]) {
        AgentTableIsHeader(lines[0]);
      }
      NoHeadersNoAgent(lines[1..], id);
    }
  }

  // ----- the theorems -----

  lemma LeavesSettled(lines: seq<string>, a: Agent)
    returns (before: seq<string>, top: seq<string>, child: seq<string>, after: seq<string>)
    requires PlainId(a.id) || Find(lines, a.id).Some?
    ensures Upsert(lines, a) == Join(before, top, child, after)
    ensures Settled(before, top, child, after, a)
  {
    hide PlainId, FindFrom, Upsert, Settled, SameValues, UpdatedTop, NewTable;
    before, top, child, after := UpsertSettles(lines, a);
  }

  /** A run leaves a settled file, unless it has just added a block for an id that is not plain. */
  lemma UpsertSettles(lines: seq<string>, a: Agent)
    returns (before: seq<string>, top: seq<string>, child: seq<string>, after: seq<string>)
    requires PlainId(a.id) || Find(lines, a.id).Some?
    ensures Upsert(lines, a) == Join(before, top, child, after)
    ensures Settled(before, top, child, after, a)
    ensures Find(lines, a.id).None? ==> top == NewTable(a) && after == []
    ensures Find(lines, a.id).Some? ==>
              && InRange(Find(lines, a.id).value, lines)
              && var f := Find(lines, a.id).value;
                 && SameValues(UpdatedTop(lines[f.table..f.topEnd], lines[f.topEnd..f.blockEnd], a), top)
                 && (after == [] <==> f.blockEnd == |lines|)
  {
    hide SameValues, FindFrom, Finish, PlainId, Added, HasAgent, AttachedStart, AnyManaged, TopShape, IdIn, ChildShape, AfterShape, UpToDate, UpdatedTop, Finished, GapAfter, GapBefore, UpdatedComments, NewTable, AddedBefore;
    if Find(lines, a.id).None? {
      AddedSettles(lines, a);
      AddedParts(lines, a);
      before, top, child, after := AddedBefore(lines, a), NewTable(a), [], [];
    } else {
      FoundShape(lines, a.id);
      var f := Find(lines, a.id).value;
      var above, child0, after0 := lines[..f.table], lines[f.topEnd..f.blockEnd], lines[f.blockEnd..];
      BeforeSettles(above, a);
      UpdatedTopSettles(lines[f.table..f.topEnd], child0, a);
      var comments := UpdatedComments(above[f.start..], a);
      before := above[..f.start] + GapAfter(above[..f.start]) + comments;
      var top0 := UpdatedTop(lines[f.table..f.topEnd], child0, a);
      top, child, after := UpdatedSettles(before, top0, child0, after0, a);
      assert above[f.start..] == lines[f.start..f.table] && above[..f.start] == lines[..f.start];
      AssociateRest(above[..f.start] + GapAfter(above[..f.start]), comments, top0, child0, GapBefore(after0) + after0);
      AssociateRest(above[..f.start] + GapAfter(above[..f.start]), comments, top0, child0, GapBefore(after0));
      assert Updated(lines, f, a) == before + top0 + child0 + GapBefore(after0) + after0;
    }
  }

  /** After a run the agent is found, and its block is up to date. */
  lemma AgentIsFound(lines: seq<string>, a: Agent)
    requires PlainId(a.id) || Find(lines, a.id).Some?
    ensures var r := Upsert(lines, a);
            && Find(r, a.id).Some? && InRange(Find(r, a.id).value, r)
            && var f := Find(r, a.id).value;
               && AnyManaged(r[f.start..f.table])
               && UpToDate(r[f.table..f.topEnd], r[f.topEnd..f.blockEnd], a)
  {
    hide PlainId, FindFrom, AttachedStart, AnyManaged, UpToDate, HasAgent, TopShape, IdIn, ChildShape, AfterShape, Finished, Upsert;
    var before, top, child, after := LeavesSettled(lines, a);
    ShapeFound(before, top, child, after, a.id);
    TopNotEmpty(before, top, child, after, a.id);
    FoundParts(before, top, child, after, AttachedStart(before));
  }

  /** The value that a block's first line for a key has. */
  function BlockValue(lines: seq<string>, id: string, k: Key): Option<string> {
    var r := Find(lines, id);
    FoundInRange(lines, id, 0);
    if r.None? then None
    else
      var line := FirstLine(lines[r.value.table..r.value.topEnd], Name(k));
      if line.Some? then Some(ValueOf(line.value)) else None
  }

  /** The value of a key in a settled file is the one in its top part. */
  lemma SettledValue(before: seq<string>, top: seq<string>, child: seq<string>, after: seq<string>, a: Agent, k: Key)
    requires Settled(before, top, child, after, a)
    ensures var line := FirstLine(top, Name(k));
            BlockValue(Join(before, top, child, after), a.id, k) == if line.Some? then Some(ValueOf(line.value)) else None
  {
    hide FindFrom, AttachedStart, AnyManaged, UpToDate, HasAgent, TopShape, IdIn, ChildShape, AfterShape, Finished, ValueOf, Name, FirstLine;
    ShapeFound(before, top, child, after, a.id);
    TopNotEmpty(before, top, child, after, a.id);
    FoundParts(before, top, child, after, AttachedStart(before));
  }

  /** What was asked to be overwritten, and what was missing, has the value asked for. */
  lemma AskedForIsSet(lines: seq<string>, a: Agent, u: Update)
    requires PlainId(a.id) || Find(lines, a.id).Some?
    requires u in Updates(a) && (u.overwrite || BlockValue(lines, a.id, u.key).None?)
    ensures BlockValue(Upsert(lines, a), a.id, u.key) == Some(u.value)
  {
    hide PlainId, FindFrom, Upsert, Updates, Settled, NewTable, Fields, UpdatedTop, KeyOf, ValueOf, RStrip, Name, FirstLine, KeyLine, IsValue;
    var before, top, child, after := UpsertSettles(lines, a);
    SettledValue(before, top, child, after, a, u.key);
    if Find(lines, a.id).None? {
      NewTableValue(a, u);
    } else {
      FoundShape(lines, a.id);
      var f := Find(lines, a.id).value;
      var top0, child0 := lines[f.table..f.topEnd], lines[f.topEnd..f.blockEnd];
      UpdatedTopValue(top0, child0, a, u);
      ProperValue(a, u);
      ValueIsStripped(u.value);
    }
  }

  lemma ProperValue(a: Agent, u: Update)
    requires u in Updates(a)
    ensures IsValue(u.value) && u.key != RegistryKey
  {
    hide Updates, IsValue;
    UpdatesAreProper(a);
  }

  lemma NewTableValue(a: Agent, u: Update)
    requires u in Updates(a)
    ensures var line := FirstLine(NewTable(a), Name(u.key));
            line.Some? && ValueOf(line.value) == u.value
  {
    hide KeyOf, ValueOf, Name, KeyLine, IsAgentTable, Fields, Updates, IsValue, FirstLine;
    FieldsAreGood(a);
    AgentsLine();
    UpdateIsField(a, u);
    FieldLineOf(Fields(a), Field(u.key, u.value));
    TableLineNoKey("[[agents]]", FieldLines(Fields(a)), u.key);
  }

  /** In an updated top part, a key that is there and not to be overwritten keeps its line. */
  lemma UpdatedTopValue(top: seq<string>, child: seq<string>, a: Agent, u: Update)
    requires TopShape(top) && u in Updates(a)
    ensures var line := FirstLine(UpdatedTop(top, child, a), Name(u.key));
            && line.Some?
            && if FirstLine(top, Name(u.key)).Some? && !u.overwrite then line == FirstLine(top, Name(u.key))
               else ValueOf(line.value) == u.value
  {
    hide Updates, Name, ValueOf, KeyOf, TopShape, RegistryExists, RegistryLine, FirstLine;
    UpdatesAreProper(a);
    UpsertAllValue(top, Updates(a), u);
    FirstLineConcat(UpsertAll(top, Updates(a)), [RegistryLine(a)], Name(u.key));
  }

  /**
   Any other value that an existing block has - an alias list or a model, a key
   file when none is supplied - is kept, up to the final strip of the text.
   */
  lemma OtherValuesKept(lines: seq<string>, a: Agent, k: Key)
    requires Find(lines, a.id).Some?
    requires forall u :: u in Updates(a) && u.key == k ==> !u.overwrite
    requires BlockValue(lines, a.id, k).Some?
    ensures var v, v' := BlockValue(lines, a.id, k), BlockValue(Upsert(lines, a), a.id, k);
            v' == v || v' == Some(RStrip(v.value))
  {
    hide PlainId, FindFrom, Upsert, Updates, Settled, NewTable, UpdatedTop, KeyOf, ValueOf, RStrip, Name, FirstLine;
    var before, top, child, after := UpsertSettles(lines, a);
    SettledValue(before, top, child, after, a, k);
    FoundShape(lines, a.id);
    var f := Find(lines, a.id).value;
    KeptLine(lines[f.table..f.topEnd], lines[f.topEnd..f.blockEnd], a, k);
  }

  lemma KeptLine(top: seq<string>, child: seq<string>, a: Agent, k: Key)
    requires TopShape(top) && FirstLine(top, Name(k)).Some?
    requires forall u :: u in Updates(a) && u.key == k ==> !u.overwrite
    ensures FirstLine(UpdatedTop(top, child, a), Name(k)) == FirstLine(top, Name(k))
  {
    hide Updates, Name, ValueOf, KeyOf, TopShape, RegistryExists, RegistryLine, FirstLine;
    UpdatesAreProper(a);
    if u :| u in Updates(a) && u.key == k {
      UpdatedTopValue(top, child, a, u);
    } else {
      forall i | 0 <= i < |Updates(a)|
        ensures Name(Updates(a)[i].key) != Name(k)
      {
        assert Updates(a)[i] in Updates(a);
        NamesDiffer(Updates(a)[i].key, k);
      }
      UntouchedKey(top, Updates(a), Name(k));
      FirstLineConcat(UpsertAll(top, Updates(a)), [RegistryLine(a)], Name(k));
    }
  }

  /** In particular, the block carries the kind, the endpoint and the timeout, a supplied key file and an enabled override. */
  lemma BlockCarries(lines: seq<string>, a: Agent)
    requires PlainId(a.id) || Find(lines, a.id).Some?
    ensures var r := Upsert(lines, a);
            && BlockValue(r, a.id, KindKey) == Some(Quote(a.kind))
            && BlockValue(r, a.id, EndpointKey) == Some(Quote(a.endpoint))
            && BlockValue(r, a.id, TimeoutKey) == Some(IntText(a.timeoutMs))
            && (!IsBlank(a.apiKeyFile) ==> BlockValue(r, a.id, ApiKeyFileKey) == Some(Quote(a.apiKeyFile)))
            && (a.allowModelOverride ==> BlockValue(r, a.id, OverrideKey) == Some("true"))
  {
    hide PlainId, Find, Upsert, Quote, QuoteList, IntText, IsBlank, Chosen, BlockValue;
    OptionIsSet(lines, a, 0);
    OptionIsSet(lines, a, 1);
    OptionIsSet(lines, a, 3);
    if !IsBlank(a.apiKeyFile) {
      OptionIsSet(lines, a, 2);
    }
    if a.allowModelOverride {
      OptionIsSet(lines, a, 5);
    }
  }

  lemma OptionIsSet(lines: seq<string>, a: Agent, i: nat)
    requires PlainId(a.id) || Find(lines, a.id).Some?
    requires i < |UpdateOptions(a)| && UpdateOptions(a)[i].0 && UpdateOptions(a)[i].1.overwrite
    ensures BlockValue(Upsert(lines, a), a.id, UpdateOptions(a)[i].1.key) == Some(UpdateOptions(a)[i].1.value)
  {
    hide PlainId, Find, Upsert, Chosen, BlockValue, UpdateOptions;
    var u := UpdateOptions(a)[i].1;
    assert UpdateOptions(a)[i] == (true, u);
    ChosenFrom(UpdateOptions(a), u);
    AskedForIsSet(lines, a, u);
  }

  // ----- only blank lines change -----

  /** The lines that are not blank, verbatim. */
  function Visible(lines: seq<string>): seq<string> {
    if lines == [] then []
    else (if IsBlank(lines[0]) then [] else [lines[0]]) + Visible(lines[1..])
  }

  /** White space at the end of the last line goes with the final strip of the text. */
  function EndStripped(lines: seq<string>): seq<string> {
    if lines == [] then [] else lines[..|lines| - 1] + [RStrip(lines[|lines| - 1])]
  }

  lemma {:induction false} VisibleConcat(a: seq<string>, b: seq<string>)
    ensures Visible(a + b) == Visible(a) + Visible(b)
  {
    hide IsBlank;
    if a == [] {
      assert a + b == b;
    } else {
      assert (a + b)[1..] == a[1..] + b;
      VisibleConcat(a[1..], b);
    }
  }

  lemma {:induction false} VisibleFinish(lines: seq<string>)
    ensures Visible(Finish(lines)) == EndStripped(Visible(lines))
  {
    hide IsBlank, RStrip;
    if lines != [] {
      var front, last := lines[..|lines| - 1], lines[|lines| - 1];
      assert lines == front + [last];
      VisibleConcat(front, [last]);
      if IsBlank(last) {
        VisibleFinish(front);
        assert Visible(front) + [] == Visible(front);
      } else {
        VisibleConcat(front, [RStrip(last)]);
        BlankTrims(last);
        BlankTrims(RStrip(last));
        RStripTwice(last);
      }
    }
  }

  lemma VisibleGap(lines: seq<string>)
    ensures Visible(GapAfter(lines)) == [] && Visible(GapBefore(lines)) == [] && Visible([""]) == []
  {
    hide RStrip;
  }

  lemma VisibleJoin(a: seq<string>, b: seq<string>, c: seq<string>, d: seq<string>, e: seq<string>)
    ensures Visible(a + b + c + d + e) == Visible(a) + Visible(b) + Visible(c) + Visible(d) + Visible(e)
  {
    hide Visible;
    VisibleConcat(a, b);
    VisibleConcat(a + b, c);
    VisibleConcat(a + b + c, d);
    VisibleConcat(a + b + c + d, e);
  }

  /**
   An update changes no visible line outside the block's comment and top part;
   only the last visible line of the file loses the white space at its end.
   */
  lemma UpdateByParts(lines: seq<string>, a: Agent)
    requires Find(lines, a.id).Some?
    ensures InRange(Find(lines, a.id).value, lines)
    ensures var f := Find(lines, a.id).value;
            var child := lines[f.topEnd..f.blockEnd];
            Visible(Upsert(lines, a))
            == EndStripped(
                 Visible(lines[..f.start])
                 + Visible(UpdatedComments(lines[f.start..f.table], a) + UpdatedTop(lines[f.table..f.topEnd], child, a))
                 + Visible(child)
                 + Visible(lines[f.blockEnd..]))
  {
    hide Visible, FindFrom, Finish, UpdatedComments, UpdatedTop, GapAfter, GapBefore, EndStripped;
    FoundInRange(lines, a.id, 0);
    var f := Find(lines, a.id).value;
    var child := lines[f.topEnd..f.blockEnd];
    var before, after := lines[..f.start], lines[f.blockEnd..];
    var managed := UpdatedComments(lines[f.start..f.table], a) + UpdatedTop(lines[f.table..f.topEnd], child, a);
    VisibleFinish(Updated(lines, f, a));
    VisibleReplaced(before, managed, child, after);
  }

  lemma VisibleReplaced(before: seq<string>, managed: seq<string>, child: seq<string>, after: seq<string>)
    ensures Visible(before + GapAfter(before) + (managed + child) + GapBefore(after) + after)
         == Visible(before) + Visible(managed) + Visible(child) + Visible(after)
  {
    hide Visible, GapAfter, GapBefore;
    VisibleJoin(before, GapAfter(before), managed + child, GapBefore(after), after);
    VisibleConcat(managed, child);
    VisibleGap(before);
    VisibleGap(after);
  }

  /** Adding a block changes no visible line before it, but for the white space at the end of the last one. */
  lemma AddChangesNothingElse(lines: seq<string>, a: Agent)
    requires Find(lines, a.id).None?
    ensures Visible(Upsert(lines, a)) == EndStripped(Visible(lines)) + Visible([ManagedComment(a)] + NewTable(a))
  {
    hide Visible, FindFrom, Finish, NewTable, ManagedComment, EndStripped;
    var block := [ManagedComment(a)] + NewTable(a);
    VisibleFinish(lines);
    VisibleConcat(Finish(lines) + [""], block);
    VisibleConcat(Finish(lines), [""]);
    VisibleGap([]);
  }

  /** Without the first line that assigns each of the given keys. */
  function WithoutFirst(lines: seq<string>, keys: set<string>): seq<string> {
    if lines == [] then []
    else
      var key := KeyOf(lines[0]);
      if key.Some? && key.value in keys then WithoutFirst(lines[1..], keys - {key.value})
      else [lines[0]] + WithoutFirst(lines[1..], keys)
  }

  /** A key that is not there may as well not be looked for. */
  lemma {:induction false} MissingKey(lines: seq<string>, key: string, keys: set<string>)
    requires FirstLine(lines, key).None?
    ensures WithoutFirst(lines, keys - {key}) == WithoutFirst(lines, keys)
  {
    hide KeyOf;
    if lines != [] {
      MissingKey(lines[1..], key, keys);
      if KeyOf(lines[0]).Some? {
        var other := KeyOf(lines[0]).value;
        MissingKey(lines[1..], key, keys - {other});
        assert keys - {key} - {other} == keys - {other} - {key};
      }
    }
  }

  lemma {:induction false} ReplaceKeepsRest(lines: seq<string>, key: string, value: string, keys: set<string>)
    requires key in keys && IsValue(value)
    ensures WithoutFirst(ReplaceFirst(lines, key, value), keys) == WithoutFirst(lines, keys)
  {
    hide KeyOf, SetValue, ValueOf, IsValue;
    if lines != [] {
      if KeyOf(lines[0]) == Some(key) {
        ReadSetValue(lines[0], value);
      } else {
        ReplaceKeepsRest(lines[1..], key, value, keys);
        if KeyOf(lines[0]).Some? {
          ReplaceKeepsRest(lines[1..], key, value, keys - {KeyOf(lines[0]).value});
        }
      }
    }
  }

  lemma {:induction false} InsertKeepsRest(a: seq<string>, line: string, b: seq<string>, key: string, keys: set<string>)
    requires key in keys && KeyOf(line) == Some(key) && FirstLine(a + b, key).None?
    ensures WithoutFirst(a + [line] + b, keys) == WithoutFirst(a + b, keys)
  {
    hide KeyOf;
    if a == [] {
      assert a + [line] + b == [line] + b && a + b == b;
      MissingKey(b, key, keys);
    } else {
      assert (a + [line] + b)[1..] == a[1..] + [line] + b && (a + b)[1..] == a[1..] + b;
      InsertKeepsRest(a[1..], line, b, key, keys);
      if KeyOf(a[0]).Some? {
        InsertKeepsRest(a[1..], line, b, key, keys - {KeyOf(a[0]).value});
      }
    }
  }

  /** The update rewrites a line or adds one. */
  ghost predicate Writes(top: seq<string>, u: Update) {
    u.overwrite || FirstLine(top, Name(u.key)).None?
  }

  lemma UpsertKeepsRest(top: seq<string>, u: Update, keys: set<string>)
    requires IsValue(u.value) && (Writes(top, u) ==> Name(u.key) in keys)
    ensures WithoutFirst(UpsertKey(top, Name(u.key), u.value, u.overwrite), keys) == WithoutFirst(top, keys)
  {
    hide KeyOf, ValueOf, IsValue, Name, KeyLine, FirstLine, WithoutFirst;
    if FirstLine(top, Name(u.key)).None? {
      var a, b := top[..InsertAt(top)], top[InsertAt(top)..];
      assert top == a + b;
      ReadKeyLine(Name(u.key), u.value);
      InsertKeepsRest(a, KeyLine(Name(u.key), u.value), b, Name(u.key), keys);
    } else if u.overwrite {
      ReplaceKeepsRest(top, Name(u.key), u.value, keys);
    }
  }

  lemma {:induction false} UpsertAllKeepsRest(top: seq<string>, updates: seq<Update>, keys: set<string>)
    requires AgentEdits.Proper(updates) && forall u :: u in updates && Writes(top, u) ==> Name(u.key) in keys
    ensures WithoutFirst(UpsertAll(top, updates), keys) == WithoutFirst(top, keys)
  {
    hide KeyOf, ValueOf, IsValue, Name, UpsertKey, WithoutFirst, FirstLine;
    if updates != [] {
      var front, last := updates[..|updates| - 1], updates[|updates| - 1];
      assert forall u :: u in front ==> u in updates;
      UpsertAllKeepsRest(top, front, keys);
      forall i | 0 <= i < |front|
        ensures Name(front[i].key) != Name(last.key)
      {
        NamesDiffer(front[i].key, last.key);
      }
      UntouchedKey(top, front, Name(last.key));
      UpsertKeepsRest(UpsertAll(top, front), last, keys);
    }
  }

  /** The keys of which an update rewrites the first line or adds one. */
  ghost function Written(top: seq<string>, a: Agent): set<string> {
    (set u | u in Updates(a) && Writes(top, u) :: Name(u.key))
    + if FirstLine(top, Name(RegistryKey)).None? then {Name(RegistryKey)} else {}
  }

  /**
   Inside the top part every other line stays verbatim, in order: further lines
   of the same keys, and the lines of keys that are there and not to be
   overwritten.
   */
  lemma TopKeepsTheRest(top: seq<string>, child: seq<string>, a: Agent)
    ensures WithoutFirst(UpdatedTop(top, child, a), Written(top, a)) == WithoutFirst(top, Written(top, a))
  {
    hide KeyOf, Updates, Name, RegistryLine, WithoutFirst, FirstLine, Writes, IsValue;
    UpdatesAreProper(a);
    var keys := Written(top, a);
    UpsertAllKeepsRest(top, Updates(a), keys);
    var mid := UpsertAll(top, Updates(a));
    if !RegistryExists(mid, child) {
      forall i | 0 <= i < |Updates(a)|
        ensures Name(Updates(a)[i].key) != Name(RegistryKey)
      {
        NamesDiffer(Updates(a)[i].key, RegistryKey);
      }
      UntouchedKey(top, Updates(a), Name(RegistryKey));
      RegistryLineReads(a);
      assert mid + [] == mid && mid + [RegistryLine(a)] + [] == mid + [RegistryLine(a)];
      InsertKeepsRest(mid, RegistryLine(a), [], Name(RegistryKey), keys);
    }
  }

  // ----- running it again -----

  /** Running the helper `n` times. */
  function Runs(lines: seq<string>, a: Agent, n: nat): seq<string> {
    if n == 0 then lines else Upsert(Runs(lines, a, n - 1), a)
  }

  /** A second run changes no visible line. */
  lemma TwiceIsOnce(lines: seq<string>, a: Agent)
    requires PlainId(a.id) || Find(lines, a.id).Some?
    ensures Visible(Upsert(Upsert(lines, a), a)) == Visible(Upsert(lines, a))
  {
    hide Visible, Upsert, PlainId, Find, AttachedStart, AnyManaged, UpToDate, Shape, Finished, GapAfter, GapBefore;
    var before, top, child, after := LeavesSettled(lines, a);
    SecondRun(before, top, child, after, a);
    var start := AttachedStart(before);
    var front, comments := before[..start], before[start..];
    var block := comments + top + child;
    AssociateRest(front + GapAfter(front), comments, top, child, GapBefore(after) + after);
    AssociateRest(front + GapAfter(front), comments, top, child, GapBefore(after));
    VisibleJoin(front, GapAfter(front), block, GapBefore(after), after);
    VisibleGap(front);
    VisibleGap(after);
    assert before == front + comments;
    assert Join(before, top, child, after) == front + [] + block + [] + after;
    VisibleJoin(front, [], block, [], after);
    VisibleGap([]);
    assert Visible([]) == [] by {
      VisibleEmpty();
    }
  }

  lemma VisibleEmpty()
    ensures Visible([]) == []
  {
  }

  lemma {:induction false} ManyIsOnce(lines: seq<string>, a: Agent, n: nat)
    requires (PlainId(a.id) || Find(lines, a.id).Some?) && n >= 1
    ensures Visible(Runs(lines, a, n)) == Visible(Upsert(lines, a))
    ensures Find(Runs(lines, a, n), a.id).Some?
  {
    hide Visible, Upsert, PlainId, Find, UpToDate, AnyManaged;
    if n > 1 {
      ManyIsOnce(lines, a, n - 1);
      if n == 2 {
        assert Runs(lines, a, 1) == Upsert(lines, a);
      } else {
        ManyIsOnce(lines, a, n - 2);
      }
      TwiceIsOnce(Runs(lines, a, n - 2), a);
      AgentIsFound(Runs(lines, a, n - 1), a);
    } else {
      assert Runs(lines, a, 0) == lines;
      AgentIsFound(lines, a);
    }
  }

  /**
   Text idempotence holds exactly if no table follows the block and no visible
   line directly precedes its attached comments.
   */
  lemma ExactlyIdempotent(lines: seq<string>, a: Agent)
    requires PlainId(a.id) || Find(lines, a.id).Some?
    ensures var r := Upsert(lines, a);
            && Find(r, a.id).Some? && InRange(Find(r, a.id).value, r)
            && var f := Find(r, a.id).value;
               Upsert(r, a) == r <==> f.blockEnd == |r| && (f.start == 0 || IsBlank(r[f.start - 1]))
  {
    hide Upsert, PlainId, AttachedStart, AnyManaged, UpToDate, Finished, IsBlank, HasAgent, TopShape, IdIn, ChildShape, FindFrom;
    var before, top, child, after := LeavesSettled(lines, a);
    SecondRun(before, top, child, after, a);
    ShapeFound(before, top, child, after, a.id);
    TopNotEmpty(before, top, child, after, a.id);
    var r, start := Join(before, top, child, after), AttachedStart(before);
    var front, comments := before[..start], before[start..];
    var r' := front + GapAfter(front) + comments + top + child + GapBefore(after) + after;
    assert |r'| == |r| + |GapAfter(front)| + |GapBefore(after)|;
    if after != [] {
      VisibleHeader(after);
    }
    if GapAfter(front) == [] && GapBefore(after) == [] {
      assert before == front + comments;
      assert r' == r;
    }
    assert start > 0 ==> r[start - 1] == front[start - 1];
  }

  lemma VisibleHeader(after: seq<string>)
    requires after != [] && AfterShape(after)
    ensures GapBefore(after) == [""]
  {
    hide HeaderKind, IsBlank;
    HeaderIsVisible(after[0]);
  }
}

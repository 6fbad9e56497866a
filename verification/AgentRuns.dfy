/**
 Running the helper again and again: how the text grows, for agents that are
 found again and for those that are not.
 */
module AgentRuns {
  import opened Results
  import opened TomlText
  import opened JsonText
  import opened AgentUpsert
  import opened AgentBlocks
  import opened AgentEdits
  import opened AgentTheorems

  // ----- the gap before the comment is made at most once -----

  lemma {:induction false} CommentTopAt(before: seq<string>, i: nat, start: nat, t: nat)
    requires t < i <= |before| && IsComment(before[t])
    requires forall k :: t <= k < i ==> CommentOrBlank(before[k])
    ensures CommentTop(before, i, start) == CommentTop(before, t, t)
  {
    hide IsComment, IsBlank;
    assert CommentOrBlank(before[i - 1]);
    if t < i - 1 {
      CommentTopAt(before, i - 1, if IsComment(before[i - 1]) then i - 1 else start, t);
    }
  }

  lemma {:induction false} CommentTopIsComment(before: seq<string>, i: nat, start: nat)
    requires i <= |before|
    ensures var t := CommentTop(before, i, start);
            t == start || (t < i && IsComment(before[t]))
  {
    hide IsComment, IsBlank;
    if i > 0 && (IsComment(before[i - 1]) || IsBlank(before[i - 1])) {
      CommentTopIsComment(before, i - 1, if IsComment(before[i - 1]) then i - 1 else start);
    }
  }

  /** The lines before a table, with a blank line made before the attached comments if there was none. */
  function Gapped(before: seq<string>): seq<string> {
    var start := AttachedStart(before);
    before[..start] + GapAfter(before[..start]) + before[start..]
  }

  lemma GapClosesOnce(before: seq<string>)
    requires AnyManaged(before[AttachedStart(before)..])
    ensures var before' := Gapped(before);
            GapAfter(before'[..AttachedStart(before')]) == []
  {
    hide IsBlank, Mentions, IsComment, CommentTop;
    var start := AttachedStart(before);
    var front, comments := before[..start], before[start..];
    assert before == front + comments;
    if GapAfter(front) == [] {
      assert Gapped(before) == before;
    } else {
      FrontEndsVisibly(before);
      BlankIsNoComment();
      var before' := Gapped(before);
      var t := start + 1;
      assert before' == front + [""] + comments;
      assert before'[t..] == comments && before'[..t] == front + [""];
      AttachedIsComments(before);
      forall k | t <= k < |before'|
        ensures CommentOrBlank(before'[k])
      {
        assert before'[k] == comments[k - t];
      }
      assert before'[t] == comments[0];
      CommentTopAt(before', |before'|, |before'|, t);
      assert before'[t - 1] == "" && before'[t - 2] == front[start - 1];
      StopsAtGap(before', t);
      assert AttachedStart(before') == t;
    }
  }

  lemma BlankIsNoComment()
    ensures IsBlank("") && !IsComment("")
  {
  }

  lemma StopsAtGap(before: seq<string>, t: nat)
    requires 2 <= t <= |before| && before[t - 1] == "" && !CommentOrBlank(before[t - 2])
    ensures CommentTop(before, t, t) == t
  {
    hide IsBlank, IsComment;
    BlankIsNoComment();
    assert CommentTop(before, t, t) == CommentTop(before, t - 1, t);
  }

  /** Above a managed comment, a line that is not blank is no comment either. */
  lemma FrontEndsVisibly(before: seq<string>)
    requires var start := AttachedStart(before);
             AnyManaged(before[start..]) && GapAfter(before[..start]) != []
    ensures var start := AttachedStart(before);
            0 < start < |before| && IsComment(before[start]) && !CommentOrBlank(before[start - 1])
  {
    hide IsBlank, Mentions, IsComment, CommentTop;
    var start := AttachedStart(before);
    CommentTopIsComment(before, |before|, |before|);
    AttachedIsComments(before);
    assert before[start - 1] == before[..start][start - 1];
    if IsComment(before[start - 1]) {
      forall j | start - 1 <= j < |before|
        ensures CommentOrBlank(before[j])
      {
        assert j >= start ==> before[j] == before[start..][j - start];
      }
      CommentTopReaches(before, |before|, |before|, start - 1);
    }
  }

  // ----- how the text grows -----

  /** Another table follows the agent's block. */
  predicate TableFollows(lines: seq<string>, id: string) {
    var r := Find(lines, id);
    r.Some? && r.value.blockEnd < |lines|
  }

  /** A visible line directly precedes the comments attached to the agent's table. */
  predicate GapMissing(lines: seq<string>, id: string) {
    var r := Find(lines, id);
    r.Some? && 0 < r.value.start <= |lines| && !IsBlank(lines[r.value.start - 1])
  }

  lemma SettledSigns(before: seq<string>, top: seq<string>, child: seq<string>, after: seq<string>, a: Agent)
    requires Settled(before, top, child, after, a)
    ensures var lines := Join(before, top, child, after);
            && (TableFollows(lines, a.id) <==> after != [])
            && (GapMissing(lines, a.id) <==> GapAfter(before[..AttachedStart(before)]) != [])
  {
    hide AttachedStart, AnyManaged, UpToDate, Finished, IsBlank, HasAgent, TopShape, IdIn, ChildShape, AfterShape, FindFrom;
    ShapeFound(before, top, child, after, a.id);
    var start := AttachedStart(before);
    assert start > 0 ==> Join(before, top, child, after)[start - 1] == before[..start][start - 1];
  }

  /** A run on a settled file leaves one that needs no gap before the comment any more. */
  lemma NextSettled(before: seq<string>, top: seq<string>, child: seq<string>, after: seq<string>, a: Agent)
    returns (before': seq<string>, top': seq<string>, child': seq<string>, after': seq<string>)
    requires Settled(before, top, child, after, a)
    ensures Upsert(Join(before, top, child, after), a) == Join(before', top', child', after')
    ensures Settled(before', top', child', after', a)
    ensures GapAfter(before'[..AttachedStart(before')]) == []
    ensures after' == [] <==> after == []
    ensures |Join(before', top', child', after')|
         == |Join(before, top, child, after)| + |GapAfter(before[..AttachedStart(before)])| + |GapBefore(after)|
  {
    hide AttachedStart, AnyManaged, UpToDate, Finished, IsBlank, HasAgent, TopShape, IdIn, ChildShape, AfterShape, FindFrom, Upsert, GapAfter, GapBefore, SameValues, Finish;
    SecondRun(before, top, child, after, a);
    TopNotEmpty(before, top, child, after, a.id);
    BeforeSettles(before, a);
    GapClosesOnce(before);
    before' := Gapped(before);
    top', child', after' := UpdatedSettles(before', top, child, after, a);
    var start := AttachedStart(before);
    var r := before' + top + child + GapBefore(after) + after;
    assert Upsert(Join(before, top, child, after), a) == r;
    assert r == before' + top + child + GapBefore(after) + after;
    LastOfJoin(before, top, child, after, r);
    FinishedStays(r);
    assert before == before[..start] + before[start..];
  }

  /** Every run from the first on leaves a settled file; from the second on no gap is missing. */
  lemma {:induction false} RunsSettled(lines: seq<string>, a: Agent, n: nat)
    returns (before: seq<string>, top: seq<string>, child: seq<string>, after: seq<string>)
    requires (PlainId(a.id) || Find(lines, a.id).Some?) && n >= 1
    ensures Runs(lines, a, n) == Join(before, top, child, after) && Settled(before, top, child, after, a)
    ensures n >= 2 ==> GapAfter(before[..AttachedStart(before)]) == []
    ensures after != [] <==> TableFollows(lines, a.id)
  {
    hide AttachedStart, FindFrom, Upsert, GapAfter, GapBefore, SameValues, Settled, PlainId, Join, UpdatedTop, NewTable;
    if n == 1 {
      before, top, child, after := UpsertSettles(lines, a);
      assert Runs(lines, a, 0) == lines;
    } else {
      var b, t, c, r := RunsSettled(lines, a, n - 1);
      before, top, child, after := NextSettled(b, t, c, r, a);
    }
  }

  /**
   How the text grows from the first run on: by one line on the second run if no
   blank line precedes the attached comments, and by one line on every run
   exactly if a table follows the block.
   */
  lemma TextGrows(lines: seq<string>, a: Agent, n: nat)
    requires (PlainId(a.id) || Find(lines, a.id).Some?) && n >= 1
    ensures |Runs(lines, a, n + 1)|
         == |Runs(lines, a, n)| + (if GapMissing(Runs(lines, a, n), a.id) then 1 else 0)
                                + (if TableFollows(lines, a.id) then 1 else 0)
    ensures n >= 2 ==> !GapMissing(Runs(lines, a, n), a.id)
  {
    hide AttachedStart, FindFrom, Upsert, SameValues, Settled, PlainId, Join, TableFollows, GapMissing, IsBlank;
    var before, top, child, after := RunsSettled(lines, a, n);
    SettledSigns(before, top, child, after, a);
    var b, t, c, r := NextSettled(before, top, child, after, a);
    if after != [] {
      SettledGap(before, top, child, after, a);
    }
  }

  lemma SettledGap(before: seq<string>, top: seq<string>, child: seq<string>, after: seq<string>, a: Agent)
    requires Settled(before, top, child, after, a) && after != []
    ensures GapBefore(after) == [""]
  {
    hide AttachedStart, AnyManaged, UpToDate, Finished, HasAgent, TopShape, IdIn, ChildShape, AfterShape;
    VisibleHeader(after);
  }

  /** In all: `n` runs. */
  lemma {:induction false} LinesAfterRuns(lines: seq<string>, a: Agent, n: nat)
    requires (PlainId(a.id) || Find(lines, a.id).Some?) && n >= 2
    ensures |Runs(lines, a, n)| == |Runs(lines, a, 2)| + if TableFollows(lines, a.id) then n - 2 else 0
  {
    hide FindFrom, Upsert, PlainId, TableFollows, GapMissing, Runs;
    if n > 2 {
      LinesAfterRuns(lines, a, n - 1);
      TextGrows(lines, a, n - 1);
    }
  }

  /** With two agents in a file, updating the first one makes the file longer on every run. */
  lemma TwoAgentsGrow(a: Agent, b: Agent, n: nat)
    requires PlainId(a.id) && n >= 2
    ensures var lines := NewTable(a) + NewTable(b);
            |Runs(lines, a, n + 1)| == |Runs(lines, a, n)| + 1
  {
    hide PlainId, NewTable, HasAgent, TopShape, IdIn, NoHeaders, IdAhead, Quoted, Quote, AttachedStart, FindFrom, Runs, HeaderKind, IsAgentTable;
    var top, after := NewTable(a), NewTable(b);
    NewTableId(a);
    QuotedIdReadsBack(a.id);
    TableStarts(b);
    NothingHasNoAgent(a.id);
    ShapeFound([], top, [], after, a.id);
    assert Join([], top, [], after) == top + after;
    TextGrows(top + after, a, n);
  }

  lemma TableStarts(a: Agent)
    ensures NewTable(a) != [] && IsBlockHeader(NewTable(a)[0])
  {
    hide IsAgentTable, HeaderKind;
    NewTableId(a);
    AgentTableIsHeader(NewTable(a)[0]);
  }

  lemma NothingHasNoAgent(id: string)
    ensures !HasAgent([], id)
  {
  }

  const HERMES := Agent("hermes", "openai", "http://127.0.0.1:8000", 1000, [], "", false, "")
  const IRONCLAW := Agent("ironclaw", "openai", "http://127.0.0.1:9000", 1000, [], "", false, "")

  /** A file that grows on every run. */
  lemma HermesGrows(n: nat)
    requires n >= 2
    ensures var lines := NewTable(HERMES) + NewTable(IRONCLAW);
            |Runs(lines, HERMES, n + 1)| == |Runs(lines, HERMES, n)| + 1
  {
    hide Runs, NewTable;
    assert PlainId(HERMES.id);
    TwoAgentsGrow(HERMES, IRONCLAW, n);
  }

  // ----- ids that are lost -----

  /** An id that is not plain is never found: every run adds another block. */
  lemma {:induction false} BlocksPileUp(lines: seq<string>, a: Agent, n: nat)
    requires Find(lines, a.id).None? && !PlainId(a.id)
    ensures Find(Runs(lines, a, n), a.id).None?
    ensures var block := Visible([ManagedComment(a)] + NewTable(a));
            |Visible(Runs(lines, a, n))| == |Visible(lines)| + n * |block|
  {
    hide PlainId, FindFrom, Upsert, Visible, NewTable, ManagedComment;
    if n > 0 {
      BlocksPileUp(lines, a, n - 1);
      var before := Runs(lines, a, n - 1);
      AddedIsFound(before, a);
      AddChangesNothingElse(before, a);
      var block := |Visible([ManagedComment(a)] + NewTable(a))|;
      assert n * block == (n - 1) * block + block;
    } else {
      assert 0 * |Visible([ManagedComment(a)] + NewTable(a))| == 0;
    }
  }

  const BOB := Agent("bob's", "openai", "http://127.0.0.1:8000", 1000, [], "", false, "")

  /** Such an id, in the file the helper makes itself. */
  lemma BobIsLost(n: nat)
    ensures Find(Runs(Loaded(None), BOB, n), BOB.id).None?
    ensures |Visible(Runs(Loaded(None), BOB, n))|
         == |Visible(Loaded(None))| + n * |Visible([ManagedComment(BOB)] + NewTable(BOB))|
  {
    hide Runs, Visible, NewTable, ManagedComment, IdIn;
    assert BOB.id[3] == '\'';
    assert !PlainId(BOB.id);
    var lines := Loaded(None);
    assert lines == ["[calciforge]", "version = 2"];
    NoTable(lines[0]);
    NoTable(lines[1]);
    assert FindFrom(lines, BOB.id, 2).None?;
    assert FindFrom(lines, BOB.id, 1).None?;
    BlocksPileUp(lines, BOB, n);
  }

  lemma NoTable(line: string)
    requires line != "" && !IsSpace(line[0]) && !IsSpace(line[|line| - 1]) && line != "[[agents]]"
    ensures !IsAgentTable(line)
  {
    TrimOf("", line, "");
    assert "" + line + "" == line;
  }
}

/**
 How the lines of a file split at an agent's block, and that looking for the
 agent finds exactly such a split.
 */
module AgentBlocks {
  import opened Results
  import opened TomlText
  import opened JsonText
  import opened AgentUpsert

  // ----- tables and ids, seen from the front of the lines -----

  predicate IsBlockHeader(line: string) {
    HeaderKind(line) == Agents || HeaderKind(line) == OtherHeader
  }

  predicate NoHeaders(lines: seq<string>) {
    forall i :: 0 <= i < |lines| ==> HeaderKind(lines[i]) == NoHeader
  }

  predicate NoBlockHeaders(lines: seq<string>) {
    forall i :: 0 <= i < |lines| ==> !IsBlockHeader(lines[i])
  }

  /** Lines that neither start a table nor give an id. */
  predicate Quiet(lines: seq<string>) {
    NoHeaders(lines) && forall i :: 0 <= i < |lines| ==> IdOf(lines[i]) == None
  }

  /** The first id before the next header. */
  function IdAhead(lines: seq<string>): Option<string> {
    if lines == [] || HeaderKind(lines[0]) != NoHeader then None
    else if IdOf(lines[0]).Some? then IdOf(lines[0])
    else IdAhead(lines[1..])
  }

  /** Some agent table among the lines has this id. */
  predicate HasAgent(lines: seq<string>, id: string) {
    && lines != []
    && ((IsAgentTable(lines[0]) && IdAhead(lines[1..]) == Some(id)) || HasAgent(lines[1..], id))
  }

  lemma {:induction false} IdAheadConcat(a: seq<string>, b: seq<string>)
    ensures b == [] || HeaderKind(b[0]) != NoHeader ==> IdAhead(a + b) == IdAhead(a)
    ensures Quiet(b) ==> IdAhead(a + b) == IdAhead(a)
  {
    hide HeaderKind, IdOf;
    if a == [] {
      assert a + b == b;
      if Quiet(b) {
        QuietHasNoId(b);
      }
    } else {
      assert (a + b)[1..] == a[1..] + b;
      IdAheadConcat(a[1..], b);
    }
  }

  lemma {:induction false} QuietHasNoId(lines: seq<string>)
    requires Quiet(lines)
    ensures IdAhead(lines) == None && IdIn(lines) == None
  {
    hide HeaderKind, IdOf;
    if lines != [] {
      QuietHasNoId(lines[1..]);
    }
  }

  lemma {:induction false} HasAgentConcat(a: seq<string>, b: seq<string>, id: string)
    requires b == [] || HeaderKind(b[0]) != NoHeader || Quiet(b)
    ensures HasAgent(a + b, id) <==> HasAgent(a, id) || HasAgent(b, id)
    ensures Quiet(b) ==> !HasAgent(b, id)
  {
    hide HeaderKind, IdOf, IsAgentTable;
    if Quiet(b) {
      QuietHasNoAgent(b, id);
    }
    if a == [] {
      assert a + b == b;
    } else {
      assert (a + b)[1..] == a[1..] + b;
      IdAheadConcat(a[1..], b);
      HasAgentConcat(a[1..], b, id);
    }
  }

  lemma {:induction false} QuietHasNoAgent(lines: seq<string>, id: string)
    requires Quiet(lines)
    ensures !HasAgent(lines, id)
  {
    hide HeaderKind, IdOf, IsAgentTable;
    if lines != [] {
      if IsAgentTable(lines[0]) {
        AgentTableIsHeader(lines[0]);
      }
      QuietHasNoAgent(lines[1..], id);
    }
  }

  lemma {:induction false} IdInIsIdAhead(lines: seq<string>)
    requires NoHeaders(lines)
    ensures IdIn(lines) == IdAhead(lines)
  {
    hide HeaderKind, IdOf;
    if lines != [] {
      IdInIsIdAhead(lines[1..]);
    }
  }

  // ----- the blocks of a file -----

  /** A file split at an agent's block: before, top part, child tables, after. */
  ghost predicate Shape(before: seq<string>, top: seq<string>, child: seq<string>, after: seq<string>, id: string) {
    && !HasAgent(before, id)
    && TopShape(top) && IdIn(top) == Some(id)
    && ChildShape(child)
    && AfterShape(after)
  }

  ghost predicate ChildShape(child: seq<string>) {
    NoBlockHeaders(child) && (child == [] || HeaderKind(child[0]) == AgentsChild)
  }

  ghost predicate AfterShape(after: seq<string>) {
    after == [] || IsBlockHeader(after[0])
  }

  ghost predicate TopShape(top: seq<string>) {
    top != [] && IsAgentTable(top[0]) && NoHeaders(top[1..])
  }

  /** How many lines come before the next block header; before any header. */
  function BlockLen(lines: seq<string>): (n: nat)
    ensures n <= |lines|
  {
    if lines == [] || IsBlockHeader(lines[0]) then 0 else 1 + BlockLen(lines[1..])
  }

  function TopLen(lines: seq<string>): (n: nat)
    ensures n <= |lines|
  {
    if lines == [] || HeaderKind(lines[0]) != NoHeader then 0 else 1 + TopLen(lines[1..])
  }

  lemma {:induction false} BlockEndIsLen(lines: seq<string>, i: nat)
    requires i <= |lines|
    ensures BlockEnd(lines, i) == i + BlockLen(lines[i..])
    decreases |lines| - i
  {
    hide HeaderKind;
    if i < |lines| {
      BlockEndIsLen(lines, i + 1);
      assert lines[i..][1..] == lines[i + 1..];
    }
  }

  lemma {:induction false} TopEndIsLen(lines: seq<string>, i: nat)
    requires i <= |lines|
    ensures TopEnd(lines, i, BlockEnd(lines, i)) == i + TopLen(lines[i..])
    decreases |lines| - i
  {
    hide HeaderKind;
    if i < |lines| {
      TopEndIsLen(lines, i + 1);
      EndsInRange(lines, i + 1);
      assert lines[i..][1..] == lines[i + 1..];
    }
  }

  lemma {:induction false} BlockLenConcat(a: seq<string>, b: seq<string>)
    requires NoBlockHeaders(a)
    ensures BlockLen(a + b) == |a| + BlockLen(b)
  {
    hide HeaderKind;
    if a == [] {
      assert a + b == b;
    } else {
      assert (a + b)[1..] == a[1..] + b;
      BlockLenConcat(a[1..], b);
    }
  }

  lemma {:induction false} TopLenConcat(a: seq<string>, b: seq<string>)
    requires NoHeaders(a)
    ensures TopLen(a + b) == |a| + TopLen(b)
  {
    hide HeaderKind;
    if a == [] {
      assert a + b == b;
    } else {
      assert (a + b)[1..] == a[1..] + b;
      TopLenConcat(a[1..], b);
    }
  }

  lemma {:induction false} BlockLenSplits(lines: seq<string>)
    ensures var n := BlockLen(lines);
            NoBlockHeaders(lines[..n]) && (n == |lines| || IsBlockHeader(lines[n]))
  {
    hide HeaderKind;
    if lines != [] && !IsBlockHeader(lines[0]) {
      BlockLenSplits(lines[1..]);
      assert lines[..BlockLen(lines)] == [lines[0]] + lines[1..][..BlockLen(lines[1..])];
    }
  }

  lemma {:induction false} TopLenSplits(lines: seq<string>)
    ensures var n := TopLen(lines);
            NoHeaders(lines[..n]) && (n == |lines| || HeaderKind(lines[n]) != NoHeader) && n <= BlockLen(lines)
    ensures IdIn(lines[..TopLen(lines)]) == IdAhead(lines)
  {
    hide HeaderKind, IdOf;
    if lines != [] && HeaderKind(lines[0]) == NoHeader {
      TopLenSplits(lines[1..]);
      assert lines[..TopLen(lines)] == [lines[0]] + lines[1..][..TopLen(lines[1..])];
    }
  }

  lemma AgentTableHasNoId(line: string)
    requires IsAgentTable(line)
    ensures IdOf(line) == None && HeaderKind(line) == Agents
  {
    hide KeyOf, IsAgentTable, HeaderKind;
    AgentTableIsHeader(line);
  }

  lemma TopOfIsLen(lines: seq<string>, t: nat)
    requires t < |lines|
    ensures TopOf(lines, t) == [lines[t]] + lines[t + 1..][..TopLen(lines[t + 1..])]
  {
    hide HeaderKind, BlockEnd, TopEnd, TopLen;
    TopEndIsLen(lines, t + 1);
  }

  /** A table matches when the first id of its top part is the one looked for. */
  lemma MatchesIsIdAhead(lines: seq<string>, id: string, t: nat)
    requires t < |lines|
    ensures Matches(lines, id, t) <==> IsAgentTable(lines[t]) && IdAhead(lines[t + 1..]) == Some(id)
  {
    if IsAgentTable(lines[t]) {
      AgentTableHasNoId(lines[t]);
      TopOfIsLen(lines, t);
      TopLenSplits(lines[t + 1..]);
      IdInAfter(lines[t], lines[t + 1..][..TopLen(lines[t + 1..])]);
      hide HeaderKind, IdOf, IsAgentTable, TopOf, TopLen, IdAhead, IdIn;
    }
  }

  lemma IdInAfter(line: string, lines: seq<string>)
    requires IdOf(line) == None
    ensures IdIn([line] + lines) == IdIn(lines)
  {
    hide IdOf;
    assert ([line] + lines)[1..] == lines;
  }

  lemma {:induction false} NoMatchNoAgent(lines: seq<string>, id: string, t: nat)
    requires t <= |lines|
    ensures HasAgent(lines[t..], id) <==> exists u :: t <= u < |lines| && Matches(lines, id, u)
    decreases |lines| - t
  {
    if t < |lines| {
      NoMatchNoAgent(lines, id, t + 1);
      MatchesIsIdAhead(lines, id, t);
      hide Matches, IsAgentTable, IdAhead;
      assert lines[t..][0] == lines[t] && lines[t..][1..] == lines[t + 1..];
    }
  }

  /** A match in a prefix that ends before a header is a match in the whole. */
  lemma PrefixMatches(before: seq<string>, rest: seq<string>, id: string, t: nat)
    requires t < |before| && (rest == [] || HeaderKind(rest[0]) != NoHeader)
    ensures Matches(before + rest, id, t) <==> Matches(before, id, t)
  {
    hide Matches, IsAgentTable, HeaderKind;
    MatchesIsIdAhead(before + rest, id, t);
    MatchesIsIdAhead(before, id, t);
    assert (before + rest)[t + 1..] == before[t + 1..] + rest;
    IdAheadConcat(before[t + 1..], rest);
  }

  lemma IdInOfTop(top: seq<string>)
    requires TopShape(top)
    ensures IdIn(top) == IdIn(top[1..]) == IdAhead(top[1..])
  {
    hide IdOf, HeaderKind, IsAgentTable;
    AgentTableHasNoId(top[0]);
    IdInIsIdAhead(top[1..]);
  }

  function Join(before: seq<string>, top: seq<string>, child: seq<string>, after: seq<string>): seq<string> {
    before + (top + (child + after))
  }

  /** What is ahead of the table line, and what follows the top part. */
  lemma JoinAhead(before: seq<string>, top: seq<string>, rest: seq<string>)
    requires top != []
    ensures (before + (top + rest))[..|before|] == before
    ensures (before + (top + rest))[|before|] == top[0]
    ensures (before + (top + rest))[|before| + 1..] == top[1..] + rest
  {
  }

  lemma RestIsHeaded(child: seq<string>, after: seq<string>)
    requires child == [] || HeaderKind(child[0]) == AgentsChild
    requires after == [] || IsBlockHeader(after[0])
    ensures child + after == [] || HeaderKind((child + after)[0]) != NoHeader
  {
    hide HeaderKind;
    if child == [] {
      assert child + after == after;
    }
  }

  lemma ShapeMatches(before: seq<string>, top: seq<string>, child: seq<string>, after: seq<string>, id: string)
    requires Shape(before, top, child, after, id)
    ensures Matches(Join(before, top, child, after), id, |before|)
  {
    hide Matches, HeaderKind, IsAgentTable, HasAgent, NoBlockHeaders, IdAhead, IdIn;
    var rest := child + after;
    MatchesIsIdAhead(before + (top + rest), id, |before|);
    JoinAhead(before, top, rest);
    RestIsHeaded(child, after);
    IdInOfTop(top);
    IdAheadConcat(top[1..], rest);
  }

  /** The first match of a file of this shape is the block's table. */
  lemma ShapeFirst(before: seq<string>, top: seq<string>, child: seq<string>, after: seq<string>, id: string, t: nat)
    requires Shape(before, top, child, after, id) && t < |before|
    ensures !Matches(Join(before, top, child, after), id, t)
  {
    hide Matches, HeaderKind, IsAgentTable, HasAgent, NoBlockHeaders, IdIn;
    var rest := top + (child + after);
    AgentTableHasNoId(top[0]);
    NoMatchNoAgent(before, id, 0);
    assert before[0..] == before;
    assert rest[0] == top[0];
    PrefixMatches(before, rest, id, t);
  }

  lemma ShapeEnds(before: seq<string>, top: seq<string>, child: seq<string>, after: seq<string>)
    requires TopShape(top) && NoBlockHeaders(child) && (child == [] || HeaderKind(child[0]) == AgentsChild)
    requires after == [] || IsBlockHeader(after[0])
    ensures FoundAt(Join(before, top, child, after), |before|)
         == Found(AttachedStart(before), |before|, |before| + |top|, |before| + |top| + |child|)
  {
    hide HeaderKind, IsAgentTable, BlockEnd, TopEnd, AttachedStart, NoHeaders, NoBlockHeaders;
    var rest := child + after;
    var lines := before + (top + rest);
    JoinAhead(before, top, rest);
    RestIsHeaded(child, after);
    BlockEndIsLen(lines, |before| + 1);
    TopEndIsLen(lines, |before| + 1);
    NoHeadersNoBlocks(top[1..]);
    BlockLenConcat(top[1..], rest);
    BlockLenConcat(child, after);
    TopLenConcat(top[1..], rest);
  }

  lemma NoHeadersNoBlocks(lines: seq<string>)
    requires NoHeaders(lines)
    ensures NoBlockHeaders(lines)
  {
    hide HeaderKind;
  }

  /** A file of this shape is found at the block. */
  lemma ShapeFound(before: seq<string>, top: seq<string>, child: seq<string>, after: seq<string>, id: string)
    requires Shape(before, top, child, after, id)
    ensures Find(Join(before, top, child, after), id)
         == Some(Found(AttachedStart(before), |before|, |before| + |top|, |before| + |top| + |child|))
  {
    hide Matches, FindFrom, FoundAt, HasAgent, IsAgentTable, IdIn, HeaderKind;
    var lines := Join(before, top, child, after);
    ShapeMatches(before, top, child, after, id);
    forall t | 0 <= t < |before|
      ensures !Matches(lines, id, t)
    {
      ShapeFirst(before, top, child, after, id, t);
    }
    FoundInRange(lines, id, 0);
    ShapeEnds(before, top, child, after);
  }

  /** And a found block splits the file in this shape. */
  lemma FoundShape(lines: seq<string>, id: string)
    requires Find(lines, id).Some?
    ensures var f := Find(lines, id).value;
            && InRange(f, lines) && f.start == AttachedStart(lines[..f.table])
            && lines == Join(lines[..f.table], lines[f.table..f.topEnd], lines[f.topEnd..f.blockEnd], lines[f.blockEnd..])
            && Shape(lines[..f.table], lines[f.table..f.topEnd], lines[f.topEnd..f.blockEnd], lines[f.blockEnd..], id)
  {
    hide FindFrom, AttachedStart, BlockEnd, TopEnd, HasAgent, IsAgentTable, IdIn, HeaderKind, TopOf, TopShape, NoBlockHeaders;
    FoundInRange(lines, id, 0);
    var f := Find(lines, id).value;
    BeforeHasNoAgent(lines, id, f.table);
    TableSplits(lines, id, f.table);
    SplitInFour(lines, f.table, f.topEnd, f.blockEnd);
  }

  lemma SplitInFour(lines: seq<string>, a: nat, b: nat, c: nat)
    requires a <= b <= c <= |lines|
    ensures lines == Join(lines[..a], lines[a..b], lines[b..c], lines[c..])
  {
  }

  lemma BeforeHasNoAgent(lines: seq<string>, id: string, t: nat)
    requires t < |lines| && IsAgentTable(lines[t])
    requires forall u :: 0 <= u < t ==> !Matches(lines, id, u)
    ensures !HasAgent(lines[..t], id)
  {
    hide HasAgent, IsAgentTable, HeaderKind, Matches;
    var before, rest := lines[..t], lines[t..];
    AgentTableHasNoId(lines[t]);
    assert lines == before + rest && rest[0] == lines[t];
    forall u | 0 <= u < t
      ensures !Matches(before, id, u)
    {
      PrefixMatches(before, rest, id, u);
    }
    NoMatchNoAgent(before, id, 0);
    assert before[0..] == before;
  }

  lemma TableSplits(lines: seq<string>, id: string, t: nat)
    requires t < |lines| && Matches(lines, id, t)
    ensures var f := FoundAt(lines, t);
            && t < f.topEnd <= f.blockEnd <= |lines|
            && TopShape(lines[t..f.topEnd]) && IdIn(lines[t..f.topEnd]) == Some(id)
            && ChildShape(lines[f.topEnd..f.blockEnd])
            && AfterShape(lines[f.blockEnd..])
  {
    hide HeaderKind, IsAgentTable, BlockLen, TopLen, IdIn, FoundAt, TopShape, ChildShape, AfterShape, TopOf;
    FoundAtIsLen(lines, t);
    TopSplits(lines, t, TopLen(lines[t + 1..]));
    var rest := lines[t + 1..];
    ChildSplits(rest);
    assert rest[TopLen(rest)..BlockLen(rest)] == lines[t + 1 + TopLen(rest)..t + 1 + BlockLen(rest)];
    assert rest[BlockLen(rest)..] == lines[t + 1 + BlockLen(rest)..];
  }

  lemma TopSplits(lines: seq<string>, t: nat, n: nat)
    requires t < |lines| && IsAgentTable(lines[t]) && n == TopLen(lines[t + 1..])
    ensures TopShape(lines[t..t + 1 + n])
  {
    hide HeaderKind, IsAgentTable, TopLen;
    TopLenSplits(lines[t + 1..]);
    assert lines[t..t + 1 + n][1..] == lines[t + 1..][..n];
  }

  lemma ChildSplits(rest: seq<string>)
    requires TopLen(rest) <= BlockLen(rest)
    ensures ChildShape(rest[TopLen(rest)..BlockLen(rest)]) && AfterShape(rest[BlockLen(rest)..])
  {
    hide HeaderKind, TopLen, BlockLen;
    TopLenSplits(rest);
    BlockLenSplits(rest);
    var n, m := TopLen(rest), BlockLen(rest);
    var child := rest[n..m];
    forall i | 0 <= i < |child|
      ensures !IsBlockHeader(child[i])
    {
      assert child[i] == rest[..m][n + i];
    }
  }

  lemma FoundAtIsLen(lines: seq<string>, t: nat)
    requires t < |lines|
    ensures var f, rest := FoundAt(lines, t), lines[t + 1..];
            && f.topEnd == t + 1 + TopLen(rest) && f.blockEnd == t + 1 + BlockLen(rest)
            && f.topEnd <= f.blockEnd <= |lines| && TopOf(lines, t) == lines[t..f.topEnd]
  {
    hide HeaderKind, BlockEnd, TopEnd, BlockLen, TopLen, AttachedStart;
    BlockEndIsLen(lines, t + 1);
    TopEndIsLen(lines, t + 1);
    EndsInRange(lines, t + 1);
  }
}

/**
 What editing the lines of a block preserves: setting keys, the attached
 comment, and the final strip of the text.
 */
module AgentEdits {
  import opened Results
  import opened TomlText
  import opened JsonText
  import opened AgentUpsert
  import opened AgentBlocks

  // ----- keys -----

  lemma {:induction false} FirstLineConcat(a: seq<string>, b: seq<string>, key: string)
    ensures FirstLine(a + b, key) == if FirstLine(a, key).Some? then FirstLine(a, key) else FirstLine(b, key)
  {
    hide KeyOf;
    if a == [] {
      assert a + b == b;
    } else {
      assert (a + b)[1..] == a[1..] + b;
      FirstLineConcat(a[1..], b, key);
    }
  }

  lemma {:induction false} IdInConcat(a: seq<string>, b: seq<string>)
    ensures IdIn(a + b) == if IdIn(a).Some? then IdIn(a) else IdIn(b)
  {
    hide IdOf;
    if a == [] {
      assert a + b == b;
    } else {
      assert (a + b)[1..] == a[1..] + b;
      IdInConcat(a[1..], b);
    }
  }

  lemma {:induction false} FirstLineHasKey(lines: seq<string>, key: string)
    ensures FirstLine(lines, key).Some? ==> KeyOf(FirstLine(lines, key).value) == Some(key)
  {
    hide KeyOf;
    if lines != [] {
      FirstLineHasKey(lines[1..], key);
    }
  }

  /** A line that assigns a key of ours, other than `id`, is quiet. */
  lemma KeyLineIsQuiet(line: string, k: Key)
    requires KeyOf(line) == Some(Name(k)) && k != IdKey
    ensures HeaderKind(line) == NoHeader && IdOf(line) == None && !IsAgentTable(line)
  {
    hide KeyOf, HeaderKind, IsAgentTable;
    KeyIsNoHeader(line);
    NamesDiffer(k, IdKey);
  }

  lemma NamesDiffer(k: Key, k': Key)
    requires k != k'
    ensures Name(k) != Name(k')
  {
    assert forall x: Key :: |Name(x)| == NameLength(x);
    if NameLength(k) == NameLength(k') {
      assert Name(EndpointKey)[0] == 'e' && Name(RegistryKey)[0] == 'r';
    }
  }

  function NameLength(k: Key): nat {
    match k
    case IdKey => 2
    case KindKey => 4
    case ModelKey => 5
    case AliasesKey => 7
    case EndpointKey => 8
    case RegistryKey => 8
    case TimeoutKey => 10
    case ApiKeyFileKey => 12
    case OverrideKey => 20
  }

  /** Two lines that neither start a table nor give an id, in the same place. */
  ghost predicate SameOutline(a: seq<string>, b: seq<string>) {
    && |a| == |b|
    && forall i :: 0 <= i < |a| ==>
         HeaderKind(a[i]) == HeaderKind(b[i]) && IdOf(a[i]) == IdOf(b[i]) && IsAgentTable(a[i]) == IsAgentTable(b[i])
  }

  lemma {:induction false} SameOutlineSameId(a: seq<string>, b: seq<string>)
    requires SameOutline(a, b)
    ensures IdIn(a) == IdIn(b)
  {
    hide IdOf, HeaderKind, IsAgentTable;
    if a != [] {
      SameOutlineSameId(a[1..], b[1..]);
    }
  }

  /** Replacing the value of a key changes that line only. */
  lemma {:induction false} ReplaceKeeps(lines: seq<string>, k: Key, value: string)
    requires k != IdKey && IsValue(value)
    ensures SameOutline(ReplaceFirst(lines, Name(k), value), lines)
    ensures FirstLine(lines, Name(k)).Some? ==>
              FirstLine(ReplaceFirst(lines, Name(k), value), Name(k)) == Some(SetValue(FirstLine(lines, Name(k)).value, value))
  {
    hide KeyOf, SetValue, IdOf, HeaderKind, IsAgentTable, ValueOf, Name;
    if lines != [] {
      ReplaceKeeps(lines[1..], k, value);
      if KeyOf(lines[0]) == Some(Name(k)) {
        ReadSetValue(lines[0], value);
        KeyLineIsQuiet(lines[0], k);
        KeyLineIsQuiet(SetValue(lines[0], value), k);
      }
    }
  }

  lemma {:induction false} ReplaceKeepsOthers(lines: seq<string>, k: Key, value: string, other: string)
    requires other != Name(k) && IsValue(value)
    ensures FirstLine(ReplaceFirst(lines, Name(k), value), other) == FirstLine(lines, other)
  {
    hide KeyOf, SetValue, ValueOf, Name;
    if lines != [] {
      ReplaceKeepsOthers(lines[1..], k, value, other);
      if KeyOf(lines[0]) == Some(Name(k)) {
        ReadSetValue(lines[0], value);
      }
    }
  }

  /** Nothing is replaced when the value is already there. */
  lemma {:induction false} ReplaceSame(lines: seq<string>, key: string, value: string)
    requires IsValue(value)
    requires FirstLine(lines, key).Some? && ValueOf(FirstLine(lines, key).value) == value
    ensures ReplaceFirst(lines, key, value) == lines
  {
    hide KeyOf, SetValue, ValueOf, IsValue;
    if KeyOf(lines[0]) == Some(key) {
      ReadSetValue(lines[0], value);
      assert lines == [lines[0]] + lines[1..];
    } else {
      ReplaceSame(lines[1..], key, value);
    }
  }

  lemma {:induction false} InsertBehind(lines: seq<string>)
    requires lines != [] && !IsBlank(lines[0])
    ensures InsertAt(lines) >= 1
  {
    hide IsBlank;
    if IsBlank(lines[|lines| - 1]) {
      InsertBehind(lines[..|lines| - 1]);
    }
  }

  /** An inserted key line is quiet and disturbs no other key. */
  lemma InsertKeeps(lines: seq<string>, at: nat, k: Key, value: string)
    requires at <= |lines| && k != IdKey && IsValue(value)
    ensures var line := KeyLine(Name(k), value);
            var r := lines[..at] + [line] + lines[at..];
            && KeyOf(line) == Some(Name(k)) && ValueOf(line) == value
            && HeaderKind(line) == NoHeader
            && IdIn(r) == IdIn(lines)
  {
    hide KeyOf, ValueOf, IdOf, HeaderKind, IsAgentTable, KeyLine, Name, IsValue;
    var line := KeyLine(Name(k), value);
    var a, b := lines[..at], lines[at..];
    ReadKeyLine(Name(k), value);
    KeyLineIsQuiet(line, k);
    assert lines == a + b;
    IdInConcat(a, b);
    IdInConcat(a + [line], b);
    IdInConcat(a, [line]);
  }

  lemma InsertNoHeaders(lines: seq<string>, at: nat, line: string)
    requires 1 <= at <= |lines| && NoHeaders(lines[1..]) && HeaderKind(line) == NoHeader
    ensures NoHeaders((lines[..at] + [line] + lines[at..])[1..])
  {
    hide HeaderKind;
    var r := lines[..at] + [line] + lines[at..];
    forall i | 0 <= i < |r[1..]|
      ensures HeaderKind(r[1..][i]) == NoHeader
    {
      if i + 1 < at {
        assert r[1..][i] == lines[1..][i];
      } else if i + 1 > at {
        assert r[1..][i] == lines[1..][i - 1];
      }
    }
  }

  lemma InsertKeepsOthers(lines: seq<string>, at: nat, line: string, key: string)
    requires at <= |lines|
    ensures KeyOf(line) != Some(key) ==> FirstLine(lines[..at] + [line] + lines[at..], key) == FirstLine(lines, key)
    ensures KeyOf(line) == Some(key) && FirstLine(lines, key).None? ==>
              FirstLine(lines[..at] + [line] + lines[at..], key) == Some(line)
  {
    hide KeyOf;
    var a, b := lines[..at], lines[at..];
    assert lines == a + b;
    FirstLineConcat(a, b, key);
    FirstLineConcat(a + [line], b, key);
    FirstLineConcat(a, [line], key);
  }

  /** The key is there, and has the value if that was to be overwritten. */
  ghost predicate Current(top: seq<string>, u: Update) {
    var line := FirstLine(top, Name(u.key));
    line.Some? && (u.overwrite ==> ValueOf(line.value) == u.value)
  }

  /** One update of a block's top part. */
  lemma UpsertKeyKeeps(top: seq<string>, u: Update)
    requires TopShape(top) && u.key != IdKey && IsValue(u.value)
    ensures var top' := UpsertKey(top, Name(u.key), u.value, u.overwrite);
            && TopShape(top') && IdIn(top') == IdIn(top)
            && Current(top', u)
            && (FirstLine(top, Name(u.key)).None? ==> ValueOf(FirstLine(top', Name(u.key)).value) == u.value)
  {
    hide KeyOf, SetValue, ValueOf, IdOf, HeaderKind, IsAgentTable, KeyLine, Name, IsValue, IsBlank;
    var key := Name(u.key);
    FirstLineHasKey(top, key);
    if FirstLine(top, key).Some? {
      if u.overwrite {
        ReplaceKeeps(top, u.key, u.value);
        SameOutlineSameId(ReplaceFirst(top, key, u.value), top);
        ReadSetValue(FirstLine(top, key).value, u.value);
        OutlineTop(top, ReplaceFirst(top, key, u.value));
      }
    } else {
      AgentTableIsHeader(top[0]);
      InsertBehind(top);
      InsertKeeps(top, InsertAt(top), u.key, u.value);
      InsertKeepsOthers(top, InsertAt(top), KeyLine(key, u.value), key);
      InsertNoHeaders(top, InsertAt(top), KeyLine(key, u.value));
    }
  }

  lemma OutlineTop(a: seq<string>, b: seq<string>)
    requires SameOutline(b, a) && TopShape(a)
    ensures TopShape(b)
  {
    hide HeaderKind, IdOf, IsAgentTable;
    forall i | 0 <= i < |b[1..]|
      ensures HeaderKind(b[1..][i]) == NoHeader
    {
      assert b[1..][i] == b[i + 1] && a[1..][i] == a[i + 1];
    }
  }

  lemma UpsertKeyKeepsOthers(top: seq<string>, u: Update, other: string)
    requires other != Name(u.key) && IsValue(u.value)
    ensures FirstLine(UpsertKey(top, Name(u.key), u.value, u.overwrite), other) == FirstLine(top, other)
  {
    hide KeyOf, ValueOf, KeyLine, Name, IsValue;
    ReplaceKeepsOthers(top, u.key, u.value, other);
    ReadKeyLine(Name(u.key), u.value);
    InsertKeepsOthers(top, InsertAt(top), KeyLine(Name(u.key), u.value), other);
  }

  /** An update that is current changes nothing. */
  lemma CurrentStays(top: seq<string>, u: Update)
    requires Current(top, u) && IsValue(u.value)
    ensures UpsertKey(top, Name(u.key), u.value, u.overwrite) == top
  {
    hide KeyOf, ValueOf, Name, IsValue;
    if u.overwrite {
      ReplaceSame(top, Name(u.key), u.value);
    }
  }

  // ----- all updates -----

  ghost predicate Proper(updates: seq<Update>) {
    && (forall i :: 0 <= i < |updates| ==> updates[i].key != IdKey && updates[i].key != RegistryKey && IsValue(updates[i].value))
    && forall i, j :: 0 <= i < j < |updates| ==> updates[i].key != updates[j].key
  }

  lemma {:induction false} ChosenFrom<T>(options: seq<(bool, T)>, x: T)
    ensures x in Chosen(options) <==> exists i :: 0 <= i < |options| && options[i] == (true, x)
  {
    if options != [] {
      ChosenFrom(options[1..], x);
      if exists i :: 0 <= i < |options| && options[i] == (true, x) {
        var i :| 0 <= i < |options| && options[i] == (true, x);
        if i > 0 {
          assert options[1..][i - 1] == (true, x);
        }
      }
    }
  }

  ghost predicate ProperOptions(options: seq<(bool, Update)>) {
    && (forall i :: 0 <= i < |options| ==>
          options[i].1.key != IdKey && options[i].1.key != RegistryKey && IsValue(options[i].1.value))
    && forall i, j :: 0 <= i < j < |options| ==> options[i].1.key != options[j].1.key
  }

  lemma {:induction false} ChosenAreProper(options: seq<(bool, Update)>)
    requires ProperOptions(options)
    ensures Proper(Chosen(options))
  {
    hide IsValue;
    if options != [] {
      var rest := Chosen(options[1..]);
      ChosenAreProper(options[1..]);
      forall i | 0 <= i < |rest|
        ensures rest[i].key != options[0].1.key
      {
        ChosenFrom(options[1..], rest[i]);
        var k :| 0 <= k < |options[1..]| && options[1..][k] == (true, rest[i]);
        assert options[k + 1].1 == rest[i];
      }
    }
  }

  lemma UpdatesAreProper(a: Agent)
    ensures Proper(Updates(a))
  {
    hide IsBlank, Quote, QuoteList, IntText;
    ChosenAreProper(UpdateOptions(a));
  }

  lemma {:induction false} UpsertAllKeeps(top: seq<string>, updates: seq<Update>)
    requires TopShape(top) && Proper(updates)
    ensures var top' := UpsertAll(top, updates);
            TopShape(top') && IdIn(top') == IdIn(top) && forall u :: u in updates ==> Current(top', u)
  {
    hide ValueOf, Name, IsValue, TopShape, IdIn, UpsertKey, FirstLine;
    if updates != [] {
      var front, last := updates[..|updates| - 1], updates[|updates| - 1];
      UpsertAllKeeps(top, front);
      var mid := UpsertAll(top, front);
      UpsertKeyKeeps(mid, last);
      forall u | u in updates
        ensures Current(UpsertAll(top, updates), u)
      {
        if u != last {
          var i :| 0 <= i < |updates| && updates[i] == u;
          assert u in front && u.key != last.key by {
            assert front[i] == u;
          }
          NamesDiffer(u.key, last.key);
          UpsertKeyKeepsOthers(mid, last, Name(u.key));
        }
      }
    }
  }

  lemma {:induction false} AllCurrentStay(top: seq<string>, updates: seq<Update>)
    requires Proper(updates) && forall u :: u in updates ==> Current(top, u)
    ensures UpsertAll(top, updates) == top
  {
    hide Current, UpsertKey, Name, IsValue;
    if updates != [] {
      var front, last := updates[..|updates| - 1], updates[|updates| - 1];
      assert forall u :: u in front ==> u in updates;
      AllCurrentStay(top, front);
      CurrentStays(top, last);
    }
  }

  /** A key that is there and not to be overwritten keeps its line; a missing one gets the value asked for. */
  lemma {:induction false} UpsertAllValue(top: seq<string>, updates: seq<Update>, u: Update)
    requires TopShape(top) && Proper(updates) && u in updates
    ensures var line := FirstLine(UpsertAll(top, updates), Name(u.key));
            && line.Some?
            && (FirstLine(top, Name(u.key)).None? || u.overwrite ==> ValueOf(line.value) == u.value)
            && (FirstLine(top, Name(u.key)).Some? && !u.overwrite ==> line == FirstLine(top, Name(u.key)))
  {
    hide ValueOf, Name, IsValue, TopShape, IdIn, FirstLine;
    var front, last := updates[..|updates| - 1], updates[|updates| - 1];
    UpsertAllKeeps(top, front);
    var mid := UpsertAll(top, front);
    UpsertKeyKeeps(mid, last);
    var i :| 0 <= i < |updates| && updates[i] == u;
    if i == |updates| - 1 {
      forall j | 0 <= j < |front|
        ensures Name(front[j].key) != Name(u.key)
      {
        NamesDiffer(front[j].key, u.key);
      }
      UntouchedKey(top, front, Name(u.key));
    } else {
      assert front[i] == u;
      UpsertAllValue(top, front, u);
      NamesDiffer(u.key, last.key);
      UpsertKeyKeepsOthers(mid, last, Name(u.key));
    }
  }

  lemma {:induction false} UntouchedKey(top: seq<string>, updates: seq<Update>, key: string)
    requires Proper(updates) && forall i :: 0 <= i < |updates| ==> Name(updates[i].key) != key
    ensures FirstLine(UpsertAll(top, updates), key) == FirstLine(top, key)
  {
    hide Name, IsValue, FirstLine, UpsertKey;
    if updates != [] {
      var front, last := updates[..|updates| - 1], updates[|updates| - 1];
      UntouchedKey(top, front, key);
      UpsertKeyKeepsOthers(UpsertAll(top, front), last, key);
    }
  }

  // ----- the final strip -----

  ghost predicate AllBlank(lines: seq<string>) {
    forall i :: 0 <= i < |lines| ==> IsBlank(lines[i])
  }

  /** The final strip keeps a prefix of the lines, strips the last of them, and drops blank ones only. */
  lemma {:induction false} FinishIs(lines: seq<string>)
    ensures var n := |Finish(lines)|;
            && n <= |lines| && AllBlank(lines[n..])
            && (n > 0 ==> !IsBlank(lines[n - 1]) && Finish(lines) == lines[..n - 1] + [RStrip(lines[n - 1])])
  {
    hide IsBlank, RStrip;
    if lines != [] && IsBlank(lines[|lines| - 1]) {
      var front := lines[..|lines| - 1];
      FinishIs(front);
      var n := |Finish(front)|;
      assert lines[n..] == front[n..] + [lines[|lines| - 1]];
      if n > 0 {
        assert front[..n - 1] == lines[..n - 1];
      }
    }
  }

  /** A visible line is not dropped. */
  lemma {:induction false} VisibleIsKept(lines: seq<string>, i: nat)
    requires i < |lines| && !IsBlank(lines[i])
    ensures i < |Finish(lines)|
  {
    hide IsBlank, RStrip;
    if IsBlank(lines[|lines| - 1]) {
      VisibleIsKept(lines[..|lines| - 1], i);
    }
  }

  lemma StripSameOutline(line: string)
    ensures HeaderKind(RStrip(line)) == HeaderKind(line) && IdOf(RStrip(line)) == IdOf(line)
    ensures IsAgentTable(RStrip(line)) == IsAgentTable(line)
  {
    hide RStrip, IdOf, KindOf, Trim;
    StripKeepsTrim(line);
    StripKeepsId(line);
  }

  lemma FinishOutline(lines: seq<string>)
    ensures |Finish(lines)| <= |lines| && SameOutline(Finish(lines), lines[..|Finish(lines)|])
    ensures Quiet(lines[|Finish(lines)|..]) && AllBlank(lines[|Finish(lines)|..])
  {
    hide RStrip, IdOf, HeaderKind, IsAgentTable, IsBlank, Finish;
    FinishIs(lines);
    var n := |Finish(lines)|;
    if n > 0 {
      StripSameOutline(lines[n - 1]);
    }
    BlankIsQuiet(lines[n..]);
  }

  lemma BlankIsQuiet(lines: seq<string>)
    requires forall i :: 0 <= i < |lines| ==> IsComment(lines[i]) || IsBlank(lines[i])
    ensures Quiet(lines)
  {
    hide IdOf, HeaderKind, IsBlank, IsComment;
    forall i | 0 <= i < |lines|
      ensures HeaderKind(lines[i]) == NoHeader && IdOf(lines[i]) == None
    {
      CommentIsQuiet(lines[i]);
    }
  }

  lemma FinishKeepsId(lines: seq<string>)
    ensures IdIn(Finish(lines)) == IdIn(lines)
  {
    hide IdOf, HeaderKind, IsAgentTable, IsBlank, Finish, IdIn;
    var n := |Finish(lines)|;
    FinishOutline(lines);
    assert lines == lines[..n] + lines[n..];
    IdInConcat(lines[..n], lines[n..]);
    QuietHasNoId(lines[n..]);
    SameOutlineSameId(Finish(lines), lines[..n]);
  }

  lemma {:induction false} SameOutlineSameAgents(a: seq<string>, b: seq<string>, id: string)
    requires SameOutline(a, b)
    ensures HasAgent(a, id) == HasAgent(b, id) && IdAhead(a) == IdAhead(b)
  {
    hide IdOf, HeaderKind, IsAgentTable;
    if a != [] {
      SameOutlineSameAgents(a[1..], b[1..], id);
    }
  }

  lemma FinishKeepsAgents(lines: seq<string>, id: string)
    ensures HasAgent(Finish(lines), id) == HasAgent(lines, id)
  {
    hide IdOf, HeaderKind, IsAgentTable, IsBlank, Finish, HasAgent;
    var n := |Finish(lines)|;
    FinishOutline(lines);
    assert lines == lines[..n] + lines[n..];
    HasAgentConcat(lines[..n], lines[n..], id);
    SameOutlineSameAgents(Finish(lines), lines[..n], id);
  }

  /** A key line that is stripped keeps its key, and its value if that ends visibly. */
  lemma FinishKeepsKey(lines: seq<string>, key: string)
    ensures FirstLine(Finish(lines), key).Some? <==> FirstLine(lines, key).Some?
    ensures FirstLine(lines, key).Some? ==>
              ValueOf(FirstLine(Finish(lines), key).value) == ValueOf(FirstLine(lines, key).value)
              || ValueOf(FirstLine(Finish(lines), key).value) == RStrip(ValueOf(FirstLine(lines, key).value))
  {
    hide KeyOf, ValueOf, RStrip, IsBlank, Finish;
    var n := |Finish(lines)|;
    FinishIs(lines);
    assert lines == lines[..n] + lines[n..];
    FirstLineConcat(lines[..n], lines[n..], key);
    BlankHasNoKey(lines[n..], key);
    if n > 0 {
      var front, last := lines[..n - 1], lines[n - 1];
      assert lines[..n] == front + [last];
      FirstLineConcat(front, [last], key);
      FirstLineConcat(front, [RStrip(last)], key);
      StripReading(last);
    }
  }

  lemma {:induction false} BlankHasNoKey(lines: seq<string>, key: string)
    requires AllBlank(lines)
    ensures FirstLine(lines, key) == None
  {
    hide KeyOf, IsBlank;
    if lines != [] {
      BlankIsNoKeyLine(lines[0]);
      BlankHasNoKey(lines[1..], key);
    }
  }

  lemma BlankIsNoKeyLine(line: string)
    requires IsBlank(line)
    ensures KeyOf(line) == None
  {
    hide KeyOf, Trim, RStrip;
    BlankTrims(line);
    if KeyOf(line).Some? {
      FirstOfReading(line);
    }
  }

  lemma {:induction false} FinishTail(front: seq<string>, tail: seq<string>)
    requires !AllBlank(tail)
    ensures Finish(front + tail) == front + Finish(tail) && Finish(tail) != []
  {
    hide IsBlank, RStrip;
    assert (front + tail)[..|front + tail| - 1] == front + tail[..|tail| - 1];
    if IsBlank(tail[|tail| - 1]) {
      assert !AllBlank(tail[..|tail| - 1]) by {
        var i :| 0 <= i < |tail| && !IsBlank(tail[i]);
        assert tail[..|tail| - 1][i] == tail[i];
      }
      FinishTail(front, tail[..|tail| - 1]);
    }
  }

  /** The text needs no final strip. */
  ghost predicate Finished(lines: seq<string>) {
    lines != [] && !IsBlank(lines[|lines| - 1]) && NoTail(lines[|lines| - 1])
  }

  lemma FinishedStays(lines: seq<string>)
    requires Finished(lines)
    ensures Finish(lines) == lines
  {
    hide IsBlank, NoTail, RStrip;
    RStripIsDone(lines[|lines| - 1]);
    assert lines == lines[..|lines| - 1] + [lines[|lines| - 1]];
  }

  lemma FinishFinishes(lines: seq<string>)
    requires Finish(lines) != []
    ensures Finished(Finish(lines))
  {
    hide IsBlank, NoTail, RStrip, Finish;
    FinishIs(lines);
    var last := lines[|Finish(lines)| - 1];
    EndSplits(last);
    BlankTrims(last);
    BlankTrims(RStrip(last));
    RStripTwice(last);
  }

  // ----- the attached comment -----

  predicate CommentOrBlank(line: string) {
    IsComment(line) || IsBlank(line)
  }

  ghost predicate OnlyComments(lines: seq<string>) {
    forall i :: 0 <= i < |lines| ==> CommentOrBlank(lines[i])
  }

  lemma {:induction false} CommentTopRuns(before: seq<string>, i: nat, start: nat)
    requires i <= start <= |before| && forall j :: i <= j < |before| ==> CommentOrBlank(before[j])
    ensures CommentTop(before, i, start) <= start
    ensures forall j :: CommentTop(before, i, start) <= j < |before| ==> CommentOrBlank(before[j])
  {
    hide IsBlank, IsComment;
    if i > 0 && CommentOrBlank(before[i - 1]) {
      CommentTopRuns(before, i - 1, if IsComment(before[i - 1]) then i - 1 else start);
    }
  }

  lemma {:induction false} CommentTopReaches(before: seq<string>, i: nat, start: nat, k: nat)
    requires k < i <= start <= |before| && IsComment(before[k])
    requires forall j :: k <= j < |before| ==> CommentOrBlank(before[j])
    ensures CommentTop(before, i, start) <= k
  {
    hide IsBlank, IsComment;
    var start' := if IsComment(before[i - 1]) then i - 1 else start;
    assert CommentOrBlank(before[i - 1]);
    if k == i - 1 {
      CommentTopRuns(before, k, start');
    } else {
      CommentTopReaches(before, i - 1, start', k);
    }
  }

  /** What is attached to a table is comments and blank lines. */
  lemma AttachedIsComments(before: seq<string>)
    ensures OnlyComments(before[AttachedStart(before)..])
  {
    hide IsBlank, IsComment, AnyManaged, CommentTop;
    CommentTopRuns(before, |before|, |before|);
  }

  /** A managed comment right before the table is found again. */
  lemma ManagedIsAttached(front: seq<string>, comments: seq<string>)
    requires OnlyComments(comments) && AnyManaged(comments)
    ensures var before := front + comments;
            AnyManaged(before[AttachedStart(before)..])
  {
    hide IsBlank, IsComment, Mentions, CommentTop;
    var before := front + comments;
    var k :| 0 <= k < |comments| && Mentions(comments[k], MANAGED);
    MentionIsVisible(comments[k]);
    assert CommentOrBlank(comments[k]);
    var j := |front| + k;
    assert before[j] == comments[k];
    forall i | j <= i < |before|
      ensures CommentOrBlank(before[i])
    {
      assert before[i] == comments[i - |front|];
    }
    CommentTopReaches(before, |before|, |before|, j);
    var start := CommentTop(before, |before|, |before|);
    assert before[start..][j - start] == comments[k];
  }

  lemma MentionIsVisible(line: string)
    requires Mentions(line, MANAGED)
    ensures !IsBlank(line)
  {
    var i :| 0 <= i <= |line| - |MANAGED| && MentionsAt(line, MANAGED, i);
    assert line[i..i + |MANAGED|][0] == 'M';
    assert line[i] == 'M';
  }

  lemma ManagedCommentIsManaged(a: Agent)
    ensures OnlyComments([ManagedComment(a)]) && AnyManaged([ManagedComment(a)])
  {
    hide IsBlank;
    var line := ManagedComment(a);
    assert line == "# " + (MANAGED + (" " + a.id + "."));
    assert line[2..2 + |MANAGED|] == MANAGED;
    assert MentionsAt(line, MANAGED, 2);
    assert Mentions([line][0], MANAGED);
    assert line[0] == '#';
  }
}

/**
 Lines of a TOML file as the installer's helper reads them: with regular
 expressions, one line at a time.  A line holds no line break.
 */
module TomlText {
  import opened Results

  // ----- white space -----

  /** The ASCII white space of the script's `\s` and `strip`. */
  predicate IsSpace(c: char) {
    c == ' ' || '\t' <= c <= '\r' || '\U{1c}' <= c <= '\U{1f}'
  }

  predicate IsBlank(s: string) {
    forall i :: 0 <= i < |s| ==> IsSpace(s[i])
  }

  /** No white space at the beginning; none at the end. */
  predicate NoLead(s: string) {
    s == "" || !IsSpace(s[0])
  }

  predicate NoTail(s: string) {
    s == "" || !IsSpace(s[|s| - 1])
  }

  /** How many white-space characters the text starts with. */
  function SpaceLen(s: string): (n: nat)
    ensures n <= |s|
  {
    if s != "" && IsSpace(s[0]) then 1 + SpaceLen(s[1..]) else 0
  }

  /** How long the text is without trailing white space. */
  function EndLen(s: string): (n: nat)
    ensures n <= |s|
  {
    if s != "" && IsSpace(s[|s| - 1]) then EndLen(s[..|s| - 1]) else |s|
  }

  /** Trailing white space starts behind anything visible. */
  lemma {:induction false} EndLenBehind(s: string, i: nat)
    requires i < |s| && !IsSpace(s[i])
    ensures i < EndLen(s)
  {
    if IsSpace(s[|s| - 1]) {
      EndLenBehind(s[..|s| - 1], i);
    }
  }

  function RStrip(s: string): string {
    s[..EndLen(s)]
  }

  function Trim(s: string): string {
    RStrip(s[SpaceLen(s)..])
  }

  lemma {:induction false} SpaceLenOf(w: string, s: string)
    requires IsBlank(w) && NoLead(s)
    ensures SpaceLen(w + s) == |w|
  {
    if w == "" {
      assert w + s == s;
    } else {
      assert (w + s)[1..] == w[1..] + s;
      SpaceLenOf(w[1..], s);
    }
  }

  lemma {:induction false} SpaceSplits(s: string)
    ensures IsBlank(s[..SpaceLen(s)]) && NoLead(s[SpaceLen(s)..])
  {
    if s != "" && IsSpace(s[0]) {
      SpaceSplits(s[1..]);
      assert s[..SpaceLen(s)] == [s[0]] + s[1..][..SpaceLen(s[1..])];
      assert s[SpaceLen(s)..] == s[1..][SpaceLen(s[1..])..];
    }
  }

  lemma {:induction false} EndLenOf(s: string, w: string)
    requires IsBlank(w) && NoTail(s)
    ensures EndLen(s + w) == |s|
  {
    if w == "" {
      assert s + w == s;
    } else {
      assert (s + w)[..|s + w| - 1] == s + w[..|w| - 1];
      EndLenOf(s, w[..|w| - 1]);
    }
  }

  lemma {:induction false} EndSplits(s: string)
    ensures NoTail(RStrip(s)) && IsBlank(s[EndLen(s)..])
  {
    if s != "" && IsSpace(s[|s| - 1]) {
      var front := s[..|s| - 1];
      EndSplits(front);
      assert RStrip(s) == RStrip(front);
      assert s[EndLen(s)..] == front[EndLen(front)..] + [s[|s| - 1]];
    }
  }

  lemma RStripOf(s: string, w: string)
    requires IsBlank(w) && NoTail(s)
    ensures RStrip(s + w) == s
  {
    EndLenOf(s, w);
  }

  lemma RStripIsDone(s: string)
    requires NoTail(s)
    ensures RStrip(s) == s
  {
    RStripOf(s, "");
    assert s + "" == s;
  }

  lemma RStripTwice(s: string)
    ensures RStrip(RStrip(s)) == RStrip(s)
  {
    EndSplits(s);
    RStripIsDone(RStrip(s));
  }

  /** A trimmed text between white space is what trimming finds. */
  lemma TrimOf(lead: string, core: string, tail: string)
    requires IsBlank(lead) && IsBlank(tail) && NoLead(core) && NoTail(core)
    ensures Trim(lead + core + tail) == core
  {
    var s := lead + core + tail;
    if core == "" {
      SpaceLenOf(lead + tail, "");
      assert s == (lead + tail) + "";
      assert s[SpaceLen(s)..] == "";
    } else {
      assert s == lead + (core + tail);
      SpaceLenOf(lead, core + tail);
      assert s[|lead|..] == core + tail;
      RStripOf(core, tail);
    }
  }

  lemma TrimSplits(s: string) returns (lead: string, tail: string)
    ensures IsBlank(lead) && IsBlank(tail) && NoLead(Trim(s)) && NoTail(Trim(s))
    ensures s == lead + Trim(s) + tail
  {
    hide SpaceLen, EndLen, IsSpace;
    var t := s[SpaceLen(s)..];
    lead, tail := s[..SpaceLen(s)], t[EndLen(t)..];
    SpaceSplits(s);
    EndSplits(t);
    assert t == RStrip(t) + tail;
    assert s == lead + t;
  }

  lemma BlankTrims(s: string)
    ensures IsBlank(s) <==> Trim(s) == ""
    ensures IsBlank(s) <==> RStrip(s) == ""
  {
    var lead, tail := TrimSplits(s);
    if IsBlank(s) {
      TrimOf(s, "", "");
      assert s + "" + "" == s;
      RStripOf("", s);
      assert "" + s == s;
    }
    if RStrip(s) == "" {
      EndSplits(s);
    }
  }

  lemma StripKeepsTrim(s: string)
    ensures Trim(RStrip(s)) == Trim(s)
  {
    var lead, tail := TrimSplits(s);
    var core := Trim(s);
    if core == "" {
      BlankTrims(s);
    } else {
      assert s == (lead + core) + tail;
      RStripOf(lead + core, tail);
      TrimOf(lead, core, "");
      assert lead + core + "" == lead + core;
    }
  }

  // ----- key lines -----

  predicate IsTokenChar(c: char) {
    !IsSpace(c) && c != '='
  }

  predicate IsToken(s: string) {
    s != "" && forall i :: 0 <= i < |s| ==> IsTokenChar(s[i])
  }

  function TokenLen(s: string): (n: nat)
    ensures n <= |s|
  {
    if s != "" && IsTokenChar(s[0]) then 1 + TokenLen(s[1..]) else 0
  }

  lemma {:induction false} TokenLenOf(token: string, rest: string)
    requires IsToken(token) && (rest == "" || !IsTokenChar(rest[0]))
    ensures TokenLen(token + rest) == |token|
  {
    assert (token + rest)[1..] == token[1..] + rest;
    if |token| == 1 {
      assert token[1..] + rest == rest;
    } else {
      TokenLenOf(token[1..], rest);
    }
  }

  lemma {:induction false} TokenSplits(s: string)
    ensures TokenLen(s) > 0 ==> IsToken(s[..TokenLen(s)])
  {
    if s != "" && IsTokenChar(s[0]) {
      TokenSplits(s[1..]);
      assert s[..TokenLen(s)] == [s[0]] + s[1..][..TokenLen(s[1..])];
    }
  }

  /** How the pattern `^\s*key\s*=\s*` reads a line: for one key, or for none. */
  datatype Reading =
    | Assignment(lead: string, key: string, gap: string, space: string, value: string)
    | Unassigned

  function Read(line: string): Reading {
    var a := SpaceLen(line);
    var t := line[a..];
    var b := TokenLen(t);
    var u := t[b..];
    var c := SpaceLen(u);
    var v := u[c..];
    if b == 0 || v == "" || v[0] != '=' then Unassigned
    else
      var w := v[1..];
      var d := SpaceLen(w);
      Assignment(line[..a], t[..b], u[..c], w[..d], w[d..])
  }

  function Text(r: Reading): string
    requires r.Assignment?
  {
    r.lead + (r.key + (r.gap + ("=" + (r.space + r.value))))
  }

  predicate Proper(r: Reading) {
    r.Assignment? && IsBlank(r.lead) && IsToken(r.key) && IsBlank(r.gap) && IsBlank(r.space) && NoLead(r.value)
  }

  /** Reading a line finds its parts. */
  lemma ReadFinds(r: Reading)
    requires Proper(r)
    ensures Read(Text(r)) == r
  {
    var w := r.space + r.value;
    var v := "=" + w;
    var u := r.gap + v;
    var t := r.key + u;
    var line := r.lead + t;
    SpaceLenOf(r.lead, t);
    assert line[|r.lead|..] == t;
    TokenLenOf(r.key, u);
    assert t[|r.key|..] == u;
    SpaceLenOf(r.gap, v);
    assert u[|r.gap|..] == v;
    assert v[1..] == w;
    SpaceLenOf(r.space, r.value);
    assert w[|r.space|..] == r.value;
  }

  /** And nothing but its parts. */
  lemma ReadSplits(line: string)
    requires Read(line).Assignment?
    ensures Proper(Read(line)) && Text(Read(line)) == line
  {
    hide SpaceLen, TokenLen;
    var r := Read(line);
    var a := SpaceLen(line);
    var t := line[a..];
    var b := TokenLen(t);
    var u := t[b..];
    var c := SpaceLen(u);
    var v := u[c..];
    var w := v[1..];
    SpaceSplits(line);
    TokenSplits(t);
    SpaceSplits(u);
    SpaceSplits(v[1..]);
    Reassembled(line, a, b, c, SpaceLen(v[1..]));
    hide SpaceLen, TokenLen;
  }

  lemma Reassembled(line: string, a: nat, b: nat, c: nat, d: nat)
    requires a + b + c < |line| && a + b + c + 1 + d <= |line|
    requires line[a..][b..][c..][0] == '='
    ensures var t := line[a..];
            var u := t[b..];
            var w := u[c..][1..];
            line[..a] + (t[..b] + (u[..c] + ("=" + (w[..d] + w[d..])))) == line
  {
    var t := line[a..];
    var u := t[b..];
    var v := u[c..];
    var w := v[1..];
    assert w[..d] + w[d..] == w;
    assert "=" + w == v;
    assert u[..c] + v == u;
    assert t[..b] + u == t;
    assert line[..a] + t == line;
  }

  function KeyOf(line: string): Option<string> {
    var r := Read(line);
    if r.Assignment? then Some(r.key) else None
  }

  /** The text after the equals sign and the space behind it. */
  function ValueOf(line: string): string {
    var r := Read(line);
    if r.Assignment? then r.value else ""
  }

  /** The line with another value; everything up to the value stays. */
  function SetValue(line: string, value: string): string {
    var r := Read(line);
    if r.Assignment? then Text(r.(value := value)) else line
  }

  function KeyLine(key: string, value: string): string {
    key + " = " + value
  }

  /** A text that can be written as a value: it starts and ends with something visible. */
  predicate IsValue(s: string) {
    s != "" && NoLead(s) && NoTail(s)
  }

  lemma ReadKeyLine(key: string, value: string)
    requires IsToken(key) && IsValue(value)
    ensures KeyOf(KeyLine(key, value)) == Some(key) && ValueOf(KeyLine(key, value)) == value
  {
    hide Read;
    var r := Assignment("", key, " ", " ", value);
    ReadFinds(r);
    assert Text(r) == KeyLine(key, value);
  }

  /** Setting a value keeps the key, and sets the value; setting the value a line has changes nothing. */
  lemma ReadSetValue(line: string, value: string)
    requires KeyOf(line).Some? && IsValue(value)
    ensures KeyOf(SetValue(line, value)) == KeyOf(line) && ValueOf(SetValue(line, value)) == value
    ensures ValueOf(line) == value ==> SetValue(line, value) == line
  {
    hide Read;
    ReadSplits(line);
    ReadFinds(Read(line).(value := value));
  }

  /** All the text up to the value stays. */
  lemma SetValueIs(r: Reading, value: string)
    requires Proper(r)
    ensures SetValue(Text(r), value) == r.lead + r.key + r.gap + "=" + r.space + value
  {
    hide Read;
    ReadFinds(r);
    assert r.gap + ("=" + (r.space + value)) == r.gap + "=" + r.space + value;
    assert r.lead + (r.key + (r.gap + "=" + r.space + value)) == r.lead + r.key + r.gap + "=" + r.space + value;
  }

  /** Stripping a line keeps its key and strips its value. */
  lemma StripReading(line: string)
    ensures KeyOf(RStrip(line)) == KeyOf(line)
    ensures KeyOf(line).Some? ==> ValueOf(RStrip(line)) == RStrip(ValueOf(line))
  {
    hide Read;
    if Read(line).Assignment? {
      StripAssignment(line);
    } else if Read(RStrip(line)).Assignment? {
      EndSplits(line);
      var s, w := RStrip(line), line[EndLen(line)..];
      assert line == s + w;
      ReadSplits(s);
      LongerAssignment(Read(s), w);
    }
  }

  lemma LongerAssignment(r: Reading, w: string)
    requires Proper(r) && IsBlank(w)
    ensures Read(Text(r) + w).Assignment?
  {
    hide Read;
    if r.value == "" {
      var more := r.(space := r.space + w);
      ReadFinds(more);
      assert Text(more) == Text(r) + w;
    } else {
      var more := r.(value := r.value + w);
      ReadFinds(more);
      assert Text(more) == Text(r) + w;
    }
  }

  lemma StripAssignment(line: string)
    requires Read(line).Assignment?
    ensures Read(RStrip(line)).Assignment? && Read(RStrip(line)).key == Read(line).key
    ensures Read(RStrip(line)).value == RStrip(Read(line).value)
  {
    hide Read;
    ReadSplits(line);
    var r := Read(line);
    var s := if r.value == "" then r.(space := "") else r.(value := RStrip(r.value));
    var w := if r.value == "" then r.space else r.value[EndLen(r.value)..];
    EndSplits(r.value);
    if r.value != "" {
      BlankTrims(r.value);
      assert IsSpace(r.value[0]) <==> IsSpace(RStrip(r.value)[0]);
    }
    assert Text(r) == Text(s) + w;
    LastOfText(s);
    RStripOf(Text(s), w);
    ReadFinds(s);
  }

  lemma LastOfText(r: Reading)
    requires r.Assignment? && NoTail(r.value) && (r.value == "" ==> r.space == "")
    ensures NoTail(Text(r))
  {
    var t := "=" + (r.space + r.value);
    assert Text(r) == (r.lead + (r.key + r.gap)) + t;
    assert t[|t| - 1] == if r.value == "" then '=' else r.value[|r.value| - 1];
  }

  // ----- ids -----

  predicate IsQuote(c: char) {
    c == '"' || c == '\''
  }

  /** How long the text is up to its first quote. */
  function QuoteLen(s: string): (n: nat)
    ensures n <= |s|
    ensures n < |s| ==> IsQuote(s[n])
  {
    if s != "" && !IsQuote(s[0]) then 1 + QuoteLen(s[1..]) else 0
  }

  lemma {:induction false} QuoteLenOf(body: string, rest: string)
    requires forall i :: 0 <= i < |body| ==> !IsQuote(body[i])
    requires rest == "" || IsQuote(rest[0])
    ensures QuoteLen(body + rest) == |body|
  {
    if body == "" {
      assert body + rest == rest;
    } else {
      assert (body + rest)[1..] == body[1..] + rest;
      QuoteLenOf(body[1..], rest);
    }
  }

  lemma {:induction false} QuoteSplits(s: string)
    ensures forall i :: 0 <= i < QuoteLen(s) ==> !IsQuote(s[i])
  {
    if s != "" && !IsQuote(s[0]) {
      QuoteSplits(s[1..]);
    }
  }

  /** The text between the first two quotes of a value that starts with one. */
  function Quoted(value: string): Option<string> {
    if value == "" || !IsQuote(value[0]) then None
    else
      var n := QuoteLen(value[1..]);
      if n == 0 || n + 1 == |value| then None else Some(value[1..n + 1])
  }

  /** A quote, an id without quotes, and a quote again. */
  predicate QuotesAt(value: string, id: string) {
    && id != "" && |value| >= |id| + 2
    && (value[0] == '"' || value[0] == '\'') && value[1..|id| + 1] == id
    && (value[|id| + 1] == '"' || value[|id| + 1] == '\'')
    && forall i :: 0 <= i < |id| ==> id[i] != '"' && id[i] != '\''
  }

  /** Which id a value gives. */
  lemma QuotedIs(value: string, id: string)
    ensures Quoted(value) == Some(id) <==> QuotesAt(value, id)
  {
    if value != "" && IsQuote(value[0]) {
      var rest := value[1..];
      QuoteSplits(rest);
      if QuotesAt(value, id) {
        assert rest == id + rest[|id|..];
        assert rest[|id|..][0] == value[|id| + 1];
        QuoteLenOf(id, rest[|id|..]);
      }
    }
  }

  lemma {:induction false} QuoteLenGrows(s: string, w: string)
    requires IsBlank(w)
    ensures QuoteLen(s + w) == if QuoteLen(s) < |s| then QuoteLen(s) else |s + w|
  {
    if s == "" {
      QuoteLenOf(w, "");
      assert s + w == w + "";
    } else {
      assert (s + w)[1..] == s[1..] + w;
      QuoteLenGrows(s[1..], w);
    }
  }

  lemma StripKeepsQuoted(value: string)
    ensures Quoted(RStrip(value)) == Quoted(value)
  {
    EndSplits(value);
    var r, w := RStrip(value), value[EndLen(value)..];
    hide EndLen, RStrip, QuoteLen;
    assert value == r + w;
    if r == "" {
      assert value == "" || IsSpace(value[0]);
    } else {
      assert r[0] == value[0] && value[1..] == r[1..] + w;
      QuoteLenGrows(r[1..], w);
      var n := QuoteLen(r[1..]);
      assert n < |r| && r[1..n + 1] == value[1..n + 1];
    }
  }

  /** The id that the line gives, if it is an id line with a quoted value. */
  function IdOf(line: string): Option<string> {
    if KeyOf(line) == Some("id") then Quoted(ValueOf(line)) else None
  }

  lemma StripKeepsId(line: string)
    ensures IdOf(RStrip(line)) == IdOf(line)
  {
    StripReading(line);
    StripKeepsQuoted(ValueOf(line));
  }

  // ----- headers and comments -----

  datatype Kind = NoHeader | Agents | AgentsChild | OtherHeader

  /** How long the text is up to its first bracket. */
  function NameLen(s: string): (n: nat)
    ensures n <= |s|
  {
    if s != "" && s[0] != '[' && s[0] != ']' then 1 + NameLen(s[1..]) else 0
  }

  /** The kind of table header that a trimmed line is. */
  function KindOf(t: string): Kind {
    if t == "" || t[0] != '[' then NoHeader
    else
      var depth := if |t| > 1 && t[1] == '[' then 2 else 1;
      var n := NameLen(t[depth..]);
      var name := Trim(t[depth..depth + n]);
      if n == 0 || t[depth + n..] != (if depth == 2 then "]]" else "]") then NoHeader
      else if "agents." <= name then AgentsChild
      else if name == "agents" then Agents
      else OtherHeader
  }

  function HeaderKind(line: string): Kind {
    KindOf(Trim(line))
  }

  predicate IsAgentTable(line: string) {
    Trim(line) == "[[agents]]"
  }

  predicate IsRegistryTable(line: string) {
    var t := line[SpaceLen(line)..];
    "[agents.registry" <= t || "[[agents.registry" <= t
  }

  predicate IsComment(line: string) {
    line != "" && line[0] == '#'
  }

  const MANAGED: string := "Managed by calciforge install for"

  predicate Mentions(line: string, phrase: string) {
    exists i :: 0 <= i <= |line| - |phrase| && MentionsAt(line, phrase, i)
  }

  predicate MentionsAt(line: string, phrase: string, i: nat) {
    i + |phrase| <= |line| && line[i..i + |phrase|] == phrase
  }

  /** The first visible character of a line is found from either side. */
  lemma SameLead(line: string, lead: string, rest: string, lead': string, rest': string)
    requires line == lead + rest && line == lead' + rest'
    requires IsBlank(lead) && IsBlank(lead') && rest != "" && rest' != "" && NoLead(rest) && NoLead(rest')
    ensures rest == rest'
  {
    SpaceLenOf(lead, rest);
    SpaceLenOf(lead', rest');
    hide SpaceLen;
    assert rest == line[|lead|..] && rest' == line[|lead'|..];
  }

  lemma FirstOfParts(r: Reading, lead: string, core: string, tail: string)
    requires Proper(r) && IsBlank(lead) && NoLead(core) && core != ""
    requires Text(r) == lead + core + tail
    ensures core[0] == r.key[0]
  {
    var line := Text(r);
    var rest := r.key + (r.gap + ("=" + (r.space + r.value)));
    assert line == lead + (core + tail);
    SameLead(line, r.lead, rest, lead, core + tail);
    assert rest[0] == r.key[0] && (core + tail)[0] == core[0];
  }

  lemma ProperIsVisible(r: Reading)
    requires Proper(r)
    ensures !IsBlank(Text(r))
  {
    assert Text(r)[|r.lead|] == r.key[0];
  }

  lemma FirstOfReading(line: string)
    requires KeyOf(line).Some?
    ensures Trim(line) != "" && KeyOf(line).value != "" && Trim(line)[0] == KeyOf(line).value[0]
  {
    ReadSplits(line);
    var lead, tail := TrimSplits(line);
    BlankTrims(line);
    hide Read, Trim, RStrip, Text;
    ProperIsVisible(Read(line));
    FirstOfParts(Read(line), lead, Trim(line), tail);
  }

  /** A header starts with a bracket, so a line whose key does not is no header. */
  lemma KeyIsNoHeader(line: string)
    requires KeyOf(line).Some? && KeyOf(line).value != "" && KeyOf(line).value[0] != '['
    ensures HeaderKind(line) == NoHeader && !IsAgentTable(line)
  {
    FirstOfReading(line);
  }

  lemma CommentIsQuiet(line: string)
    requires IsComment(line) || IsBlank(line)
    ensures HeaderKind(line) == NoHeader && !IsAgentTable(line) && IdOf(line) == None
  {
    hide KindOf, Trim, Read, Quoted;
    if KeyOf(line).Some? {
      FirstOfReading(line);
    }
    CommentTrims(line);
    NoBracketNoHeader(Trim(line));
  }

  lemma CommentTrims(line: string)
    requires IsComment(line) || IsBlank(line)
    ensures Trim(line) == "" || Trim(line)[0] == '#'
  {
    BlankTrims(line);
    if !IsBlank(line) {
      var lead, tail := TrimSplits(line);
      hide Trim;
      assert line == lead + (Trim(line) + tail);
      SameLead(line, "", line, lead, Trim(line) + tail);
    }
  }

  lemma NoBracketNoHeader(t: string)
    requires t == "" || t[0] != '['
    ensures KindOf(t) == NoHeader && t != "[[agents]]"
  {
  }

  lemma AgentTableIsHeader(line: string)
    requires IsAgentTable(line)
    ensures HeaderKind(line) == Agents && !IsBlank(line) && !IsComment(line)
    ensures KeyOf(line).Some? ==> KeyOf(line).value != "" && KeyOf(line).value[0] == '['
  {
    KindOfAgents();
    BlankTrims(line);
    if KeyOf(line).Some? {
      FirstOfReading(line);
    }
    if IsComment(line) {
      CommentIsQuiet(line);
    }
  }

  lemma KindOfAgents()
    ensures KindOf("[[agents]]") == Agents
  {
    hide Trim, NameLen;
    var t := "[[agents]]";
    NameLenOf("agents", "]]");
    assert t[2..] == "agents" + "]]";
    TrimOf("", "agents", "");
    assert "" + "agents" + "" == "agents";
    assert t[2..8] == "agents";
  }

  lemma {:induction false} NameLenOf(name: string, rest: string)
    requires forall i :: 0 <= i < |name| ==> name[i] != '[' && name[i] != ']'
    requires rest == "" || rest[0] == '[' || rest[0] == ']'
    ensures NameLen(name + rest) == |name|
  {
    if name == "" {
      assert name + rest == rest;
    } else {
      assert (name + rest)[1..] == name[1..] + rest;
      NameLenOf(name[1..], rest);
    }
  }

  // ----- which lines are headers -----

  /** The text between the brackets of a header. */
  predicate IsInner(inner: string) {
    inner != "" && forall i :: 0 <= i < |inner| ==> inner[i] != '[' && inner[i] != ']'
  }

  predicate IsHeader(line: string, lead: string, inner: string, tail: string) {
    && IsBlank(lead) && IsInner(inner) && IsBlank(tail)
    && (line == lead + "[" + inner + "]" + tail || line == lead + "[[" + inner + "]]" + tail)
  }

  lemma {:induction false} NameLenSplits(s: string)
    ensures forall i :: 0 <= i < NameLen(s) ==> s[i] != '[' && s[i] != ']'
  {
    if s != "" && s[0] != '[' && s[0] != ']' {
      NameLenSplits(s[1..]);
      assert forall i :: 0 < i < |s| ==> s[i] == s[1..][i - 1];
    }
  }

  /** Trimmed text in one or two opening, and one or two closing, brackets. */
  lemma KindOfBrackets(inner: string, opening: string, closing: string)
    requires IsInner(inner) && (opening == "[" || opening == "[[") && (closing == "]" || closing == "]]")
    ensures var name := Trim(inner);
            KindOf(opening + inner + closing)
            == if |opening| != |closing| then NoHeader
               else if "agents." <= name then AgentsChild
               else if name == "agents" then Agents
               else OtherHeader
  {
    hide Trim, NameLen;
    var t, n := opening + inner + closing, |opening|;
    assert t[0] == '[' && (t[1] == '[' <==> n == 2);
    assert t[n..] == inner + closing;
    NameLenOf(inner, closing);
    assert t[n..n + |inner|] == inner && t[n + |inner|..] == closing;
  }

  lemma TrimOfBrackets(lead: string, opening: string, inner: string, closing: string, tail: string)
    requires IsBlank(lead) && IsBlank(tail)
    requires (opening == "[" || opening == "[[") && (closing == "]" || closing == "]]")
    ensures Trim(lead + opening + inner + closing + tail) == opening + inner + closing
  {
    var core := opening + inner + closing;
    TrimOf(lead, core, tail);
    assert lead + opening + inner + closing + tail == lead + core + tail;
  }

  /** The kind of a header by its inner text: a child of an agent, an agent, or another table. */
  lemma HeaderReads(line: string, lead: string, inner: string, tail: string)
    requires IsHeader(line, lead, inner, tail)
    ensures HeaderKind(line) == AgentsChild <==> "agents." <= Trim(inner)
    ensures HeaderKind(line) == Agents <==> Trim(inner) == "agents"
    ensures HeaderKind(line) == OtherHeader <==> !("agents." <= Trim(inner)) && Trim(inner) != "agents"
  {
    hide Trim, KindOf;
    if line == lead + "[" + inner + "]" + tail {
      TrimOfBrackets(lead, "[", inner, "]", tail);
      KindOfBrackets(inner, "[", "]");
    } else {
      TrimOfBrackets(lead, "[[", inner, "]]", tail);
      KindOfBrackets(inner, "[[", "]]");
    }
  }

  /** Brackets that do not match make no header. */
  lemma MismatchIsNoHeader(lead: string, inner: string, tail: string)
    requires IsBlank(lead) && IsInner(inner) && IsBlank(tail)
    ensures HeaderKind(lead + "[[" + inner + "]" + tail) == NoHeader
    ensures HeaderKind(lead + "[" + inner + "]]" + tail) == NoHeader
  {
    hide Trim, KindOf;
    TrimOfBrackets(lead, "[[", inner, "]", tail);
    KindOfBrackets(inner, "[[", "]");
    TrimOfBrackets(lead, "[", inner, "]]", tail);
    KindOfBrackets(inner, "[", "]]");
  }

  /** And nothing else is a header. */
  lemma HeaderHasForm(line: string) returns (lead: string, inner: string, tail: string)
    requires HeaderKind(line) != NoHeader
    ensures IsHeader(line, lead, inner, tail)
  {
    hide Trim, KindOf;
    lead, tail := TrimSplits(line);
    inner := FormOfKind(Trim(line));
    if Trim(line) == "[" + inner + "]" {
      assert line == lead + "[" + inner + "]" + tail;
    } else {
      assert line == lead + "[[" + inner + "]]" + tail;
    }
  }

  lemma FormOfKind(t: string) returns (inner: string)
    requires KindOf(t) != NoHeader
    ensures IsInner(inner) && (t == "[" + inner + "]" || t == "[[" + inner + "]]")
  {
    hide Trim, NameLen;
    var depth := if |t| > 1 && t[1] == '[' then 2 else 1;
    var rest := t[depth..];
    var n := NameLen(rest);
    inner := rest[..n];
    NameLenSplits(rest);
    assert t[depth..depth + n] == inner && t[depth + n..] == rest[n..];
    assert t == t[..depth] + inner + rest[n..];
    if depth == 2 {
      assert t[..2] == "[[";
    } else {
      assert t[..1] == "[";
    }
  }
}

/** JSON text of strings, as `json.dumps` writes it: ASCII only, everything else escaped. */
module JsonText {
  import opened Results
  import opened TomlText

  function HexDigit(n: nat): char
    requires n < 16
  {
    if n < 10 then ('0' as int + n) as char else ('a' as int + n - 10) as char
  }

  function Hex4(n: nat): (s: string)
    requires n < 0x1_0000
    ensures |s| == 4 && forall i :: 0 <= i < |s| ==> '0' <= s[i] <= '9' || 'a' <= s[i] <= 'f'
  {
    [HexDigit(n / 0x1000), HexDigit(n / 0x100 % 16), HexDigit(n / 16 % 16), HexDigit(n % 16)]
  }

  /** CharText as it is. */
  predicate IsDirect(c: char) {
    ' ' <= c <= '~' && c != '"' && c != '\\'
  }

  function Escaped(c: char): (s: string)
    ensures |s| >= 2 && s[0] == '\\'
    ensures forall i :: 0 <= i < |s| ==> ' ' < s[i] <= '~' && s[i] != '\''
    ensures c != '"' ==> '"' !in s
  {
    var n := c as int;
    if c == '"' then "\\\""
    else if c == '\\' then "\\\\"
    else if c == '\n' then "\\n"
    else if c == '\r' then "\\r"
    else if c == '\t' then "\\t"
    else if c == '\U{0c}' then "\\f"
    else if c == '\U{08}' then "\\b"
    else if n < 0x1_0000 then "\\u" + Hex4(n)
    else
      var m := n - 0x1_0000;
      "\\u" + Hex4(0xd800 + m / 0x400) + "\\u" + Hex4(0xdc00 + m % 0x400)
  }

  function JsonBody(s: string): string {
    if s == "" then "" else JsonBody(s[..|s| - 1]) + if IsDirect(s[|s| - 1]) then [s[|s| - 1]] else Escaped(s[|s| - 1])
  }

  /** A JSON string. */
  function Quote(s: string): (r: string)
    ensures IsValue(r) && |r| >= 2 && r[0] == r[|r| - 1] == '"'
  {
    "\"" + JsonBody(s) + "\""
  }

  function QuoteItems(items: seq<string>): string {
    if items == [] then ""
    else if |items| == 1 then Quote(items[0])
    else QuoteItems(items[..|items| - 1]) + ", " + Quote(items[|items| - 1])
  }

  /** A JSON array of strings. */
  function QuoteList(items: seq<string>): (r: string)
    ensures IsValue(r)
  {
    "[" + QuoteItems(items) + "]"
  }

  predicate NoQuotes(s: string) {
    forall i :: 0 <= i < |s| ==> !IsQuote(s[i])
  }

  predicate AllDirect(s: string) {
    forall i :: 0 <= i < |s| ==> IsDirect(s[i])
  }

  lemma {:induction false} BodyGrows(s: string)
    ensures if AllDirect(s) then JsonBody(s) == s else |JsonBody(s)| > |s|
  {
    hide AllDirect, IsDirect, Escaped;
    if s != "" {
      var front := s[..|s| - 1];
      BodyGrows(front);
      AllDirectLast(s);
      assert s == front + [s[|s| - 1]];
    } else {
      NothingDirect();
    }
  }

  lemma NothingDirect()
    ensures AllDirect("")
  {
  }

  lemma AllDirectLast(s: string)
    requires s != ""
    ensures AllDirect(s) <==> AllDirect(s[..|s| - 1]) && IsDirect(s[|s| - 1])
  {
    hide IsDirect;
    assert forall i :: 0 <= i < |s| - 1 ==> s[..|s| - 1][i] == s[i];
  }

  lemma {:induction false} BodyKeepsNoQuotes(s: string)
    requires NoQuotes(s)
    ensures NoQuotes(JsonBody(s))
  {
    if s != "" {
      BodyKeepsNoQuotes(s[..|s| - 1]);
    }
  }

  /** An id that survives being quoted: visible ASCII or spaces, no quotes, no backslash. */
  predicate PlainId(id: string) {
    id != "" && NoQuotes(id) && AllDirect(id)
  }

  /** Exactly the plain ids are read back from the id line written for them. */
  lemma QuotedIdReadsBack(id: string)
    ensures Quoted(Quote(id)) == Some(id) <==> PlainId(id)
  {
    var body := JsonBody(id);
    assert Quote(id)[1..] == body + "\"";
    BodyGrows(id);
    if NoQuotes(id) {
      BodyKeepsNoQuotes(id);
      QuoteLenOf(body, "\"");
      assert Quote(id)[1..|body| + 1] == body;
    } else {
      QuoteSplits(body + "\"");
      var n := QuoteLen(body + "\"");
      var found := Quote(id)[1..n + 1];
      assert found == (body + "\"")[..n];
      assert NoQuotes(found);
    }
  }

  // ----- reading JSON text -----

  function HexValue(c: char): Option<nat> {
    if '0' <= c <= '9' then Some(c as int - '0' as int)
    else if 'a' <= c <= 'f' then Some(c as int - 'a' as int + 10)
    else if 'A' <= c <= 'F' then Some(c as int - 'A' as int + 10)
    else None
  }

  /** The code unit that four hexadecimal digits give. */
  function Unit(s: string): (r: Option<nat>)
    ensures r.Some? ==> |s| >= 4 && r.value < 0x1_0000
  {
    if |s| < 4 then None
    else
      var a, b, c, d := HexValue(s[0]), HexValue(s[1]), HexValue(s[2]), HexValue(s[3]);
      if a.Some? && b.Some? && c.Some? && d.Some?
      then Some(((a.value * 16 + b.value) * 16 + c.value) * 16 + d.value) else None
  }

  /** The character that an escape behind a backslash stands for, and the length of that escape. */
  function ReadEscape(s: string): (r: Option<(char, nat)>)
    ensures r.Some? ==> 0 < r.value.1 <= |s|
  {
    if s == "" then None
    else if s[0] == '"' || s[0] == '\\' || s[0] == '/' then Some((s[0], 1))
    else if s[0] == 'n' then Some(('\n', 1))
    else if s[0] == 'r' then Some(('\r', 1))
    else if s[0] == 't' then Some(('\t', 1))
    else if s[0] == 'f' then Some(('\U{0c}', 1))
    else if s[0] == 'b' then Some(('\U{08}', 1))
    else if s[0] != 'u' then None
    else
      match Unit(s[1..])
      case None => None
      case Some(high) =>
        if high < 0xd800 || high >= 0xe000 then Some((high as char, 5))
        else if high >= 0xdc00 || |s| < 11 || s[5..7] != "\\u" then None
        else
          match Unit(s[7..])
          case None => None
          case Some(low) =>
            if 0xdc00 <= low < 0xe000
            then Some(((0x1_0000 + (high - 0xd800) * 0x400 + (low - 0xdc00)) as char, 11)) else None
  }

  /** Reads up to the closing quote: what the text stands for, and what follows the quote. */
  function ReadBody(s: string): (r: Option<(string, string)>)
    ensures r.Some? ==> |r.value.1| < |s|
    decreases |s|
  {
    if s == "" || s[0] < ' ' then None
    else if s[0] == '"' then Some(("", s[1..]))
    else if s[0] != '\\' then
      var rest := ReadBody(s[1..]);
      if rest.Some? then Some(([s[0]] + rest.value.0, rest.value.1)) else None
    else
      var escape := ReadEscape(s[1..]);
      if escape.None? then None
      else
        var rest := ReadBody(s[1 + escape.value.1..]);
        if rest.Some? then Some(([escape.value.0] + rest.value.0, rest.value.1)) else None
  }

  function ReadString(s: string): (r: Option<(string, string)>)
    ensures r.Some? ==> |r.value.1| < |s|
  {
    if s != "" && s[0] == '"' then ReadBody(s[1..]) else None
  }

  /** Strings with a comma and a space between them, up to a closing bracket that ends the text. */
  function ReadItems(s: string): Option<seq<string>>
    decreases |s|
  {
    var first := ReadString(s);
    if first.None? then None
    else
      var item, rest := first.value.0, first.value.1;
      if rest == "]" then Some([item])
      else if ", " <= rest then
        var others := ReadItems(rest[2..]);
        if others.Some? then Some([item] + others.value) else None
      else None
  }

  function ReadList(s: string): Option<seq<string>> {
    if s == "[]" then Some([]) else if s != "" && s[0] == '[' then ReadItems(s[1..]) else None
  }

  lemma HexReads(n: nat)
    requires n < 16
    ensures HexValue(HexDigit(n)) == Some(n)
  {
  }

  lemma UnitReads(n: nat, rest: string)
    requires n < 0x1_0000
    ensures Unit(Hex4(n) + rest) == Some(n)
  {
    hide HexDigit, HexValue;
    HexReads(n / 0x1000);
    HexReads(n / 0x100 % 16);
    HexReads(n / 16 % 16);
    HexReads(n % 16);
    assert n / 0x100 == n / 0x1000 * 16 + n / 0x100 % 16;
    assert n / 16 == n / 0x100 * 16 + n / 16 % 16;
    assert n == n / 16 * 16 + n % 16;
    var s := Hex4(n);
    assert (s + rest)[0] == s[0] && (s + rest)[1] == s[1] && (s + rest)[2] == s[2] && (s + rest)[3] == s[3];
  }

  /** An escape is read back as its character, whatever follows. */
  lemma EscapeReads(c: char, rest: string)
    requires !IsDirect(c)
    ensures ReadEscape((Escaped(c) + rest)[1..]) == Some((c, |Escaped(c)| - 1))
  {
    hide Hex4, Unit;
    var n, s := c as int, (Escaped(c) + rest)[1..];
    if Escaped(c)[1] == 'u' {
      if n < 0x1_0000 {
        UnitEscape(n, rest);
      } else {
        PairEscape(n - 0x1_0000, rest);
      }
    }
  }

  lemma UnitEscape(n: nat, rest: string)
    requires n < 0xd800 || 0xe000 <= n < 0x1_0000
    ensures ReadEscape(("\\u" + Hex4(n) + rest)[1..]) == Some((n as char, 5))
  {
    hide Hex4, Unit;
    var s := ("\\u" + Hex4(n) + rest)[1..];
    UnitReads(n, rest);
    assert s[1..] == Hex4(n) + rest && s[0] == 'u';
  }

  lemma PairEscape(m: nat, rest: string)
    requires m < 0x10_0000
    ensures ReadEscape(("\\u" + Hex4(0xd800 + m / 0x400) + "\\u" + Hex4(0xdc00 + m % 0x400) + rest)[1..])
         == Some(((0x1_0000 + m) as char, 11))
  {
    hide Hex4, Unit;
    var high, low := 0xd800 + m / 0x400, 0xdc00 + m % 0x400;
    var s := ("\\u" + Hex4(high) + "\\u" + Hex4(low) + rest)[1..];
    UnitReads(high, "\\u" + Hex4(low) + rest);
    UnitReads(low, rest);
    assert s[0] == 'u' && s[1..] == Hex4(high) + ("\\u" + Hex4(low) + rest);
    assert s == "u" + Hex4(high) + "\\u" + Hex4(low) + rest;
    assert s[5] == '\\' && s[6] == 'u';
    assert s[5..7] == "\\u";
    assert s[7..] == Hex4(low) + rest;
    assert m == m / 0x400 * 0x400 + m % 0x400;
  }

  /** What is written for one character. */
  function CharText(c: char): string {
    if IsDirect(c) then [c] else Escaped(c)
  }

  lemma CharReads(c: char, rest: string)
    requires ReadBody(rest).Some?
    ensures ReadBody(CharText(c) + rest) == Some(([c] + ReadBody(rest).value.0, ReadBody(rest).value.1))
  {
    hide Escaped, ReadEscape;
    var s := CharText(c) + rest;
    if IsDirect(c) {
      assert s[0] == c && s[1..] == rest;
    } else {
      EscapeReads(c, rest);
      assert s[0] == '\\' && s[|Escaped(c)|..] == rest;
    }
  }

  lemma {:induction false} BodyConcat(a: string, b: string)
    ensures JsonBody(a + b) == JsonBody(a) + JsonBody(b)
  {
    hide JsonBody, CharText;
    NothingWritten();
    if b == "" {
      assert a + b == a;
    } else {
      var front, c := b[..|b| - 1], b[|b| - 1];
      assert b == front + [c] && a + b == (a + front) + [c];
      BodyConcat(a, front);
      BodyLonger(a + front, c);
      BodyLonger(front, c);
    }
  }

  lemma NothingWritten()
    ensures JsonBody("") == ""
  {
  }

  lemma BodyLonger(s: string, c: char)
    ensures JsonBody(s + [c]) == JsonBody(s) + CharText(c)
  {
    hide IsDirect, Escaped;
    assert (s + [c])[..|s|] == s;
  }

  lemma QuoteEnds(rest: string)
    ensures ReadBody("\"" + rest) == Some(("", rest))
  {
    assert ("\"" + rest)[1..] == rest;
  }

  lemma {:induction false} BodyReads(s: string, rest: string)
    ensures ReadBody(JsonBody(s) + "\"" + rest) == Some((s, rest))
  {
    hide CharText, JsonBody, ReadBody;
    NothingWritten();
    if s == "" {
      QuoteEnds(rest);
      assert "" + "\"" + rest == "\"" + rest;
    } else {
      assert s == [s[0]] + s[1..];
      BodyConcat([s[0]], s[1..]);
      BodyLonger("", s[0]);
      assert "" + [s[0]] == [s[0]] && "" + CharText(s[0]) == CharText(s[0]);
      BodyReads(s[1..], rest);
      var more := JsonBody(s[1..]) + "\"" + rest;
      CharReads(s[0], more);
      assert JsonBody(s) + "\"" + rest == CharText(s[0]) + more;
    }
  }

  /** Every string is read back from its JSON text. */
  lemma QuoteReadsBack(s: string, rest: string)
    ensures ReadString(Quote(s) + rest) == Some((s, rest))
  {
    hide JsonBody, ReadBody;
    BodyReads(s, rest);
    assert (Quote(s) + rest)[1..] == JsonBody(s) + "\"" + rest;
  }

  lemma {:induction false} ItemsFromFront(items: seq<string>)
    requires |items| > 1
    ensures QuoteItems(items) == Quote(items[0]) + ", " + QuoteItems(items[1..])
  {
    hide Quote;
    var front, last := items[..|items| - 1], items[|items| - 1];
    if |items| > 2 {
      ItemsFromFront(front);
      assert front[1..] == items[1..][..|items[1..]| - 1];
      assert QuoteItems(items[1..]) == QuoteItems(front[1..]) + ", " + Quote(last);
    } else {
      assert items[1..] == [last] && front == [items[0]];
    }
  }

  lemma {:induction false} ItemsReadBack(items: seq<string>)
    requires items != []
    ensures ReadItems(QuoteItems(items) + "]") == Some(items)
  {
    hide Quote, ReadString;
    if |items| == 1 {
      QuoteReadsBack(items[0], "]");
      assert items == [items[0]];
    } else {
      ItemsFromFront(items);
      ItemsReadBack(items[1..]);
      var rest := ", " + (QuoteItems(items[1..]) + "]");
      QuoteReadsBack(items[0], rest);
      assert QuoteItems(items) + "]" == Quote(items[0]) + rest;
      assert rest[2..] == QuoteItems(items[1..]) + "]" && ", " <= rest;
      assert rest != "]";
      assert items == [items[0]] + items[1..];
    }
  }

  /** And every list of strings. */
  lemma ListReadsBack(items: seq<string>)
    ensures ReadList(QuoteList(items)) == Some(items)
  {
    hide ReadItems, Quote;
    if items != [] {
      ItemsReadBack(items);
      ItemsStart(items);
      assert QuoteList(items)[1..] == QuoteItems(items) + "]";
    }
  }

  lemma {:induction false} ItemsStart(items: seq<string>)
    requires items != []
    ensures |QuoteItems(items)| >= 2
  {
    if |items| > 1 {
      ItemsStart(items[..|items| - 1]);
    }
  }
}

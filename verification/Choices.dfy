/** Choice controls: how their options are printed, and how a reply is matched to one of them. */
module Choices {
  import opened Results
  import opened Decimal

  datatype ChoiceOption = ChoiceOption(caption: string, command: string)

  datatype ChoiceControl = ChoiceControl(title: string, options: seq<ChoiceOption>)

  /** A match names the option by its index. */
  datatype Match = One(index: nat) | OutOfRange | Ambiguous | NoMatch

  // ----- text -----

  predicate IsSpace(c: char) {
    c == ' ' || '\t' <= c <= '\r'
  }

  function TrimStart(s: string): (r: string)
    ensures |r| <= |s|
    ensures r == "" || !IsSpace(r[0])
  {
    if s != "" && IsSpace(s[0]) then TrimStart(s[1..]) else s
  }

  function TrimEnd(s: string): (r: string)
    ensures |r| <= |s| && r == s[..|r|]
    ensures r == "" || !IsSpace(r[|r| - 1])
  {
    if s != "" && IsSpace(s[|s| - 1]) then TrimEnd(s[..|s| - 1]) else s
  }

  function Trim(s: string): string {
    TrimEnd(TrimStart(s))
  }

  function WithoutHashes(s: string): string {
    if s != "" && s[0] == '#' then WithoutHashes(s[1..]) else s
  }

  predicate IsAlphanumeric(c: char) {
    'a' <= c <= 'z' || 'A' <= c <= 'Z' || '0' <= c <= '9'
  }

  function Lower(c: char): char {
    if 'A' <= c <= 'Z' then (c as int + 32) as char else c
  }

  /** Only letters, digits and white space. */
  function Kept(s: string): string {
    if s == "" then ""
    else Kept(s[..|s| - 1]) + if IsAlphanumeric(s[|s| - 1]) || IsSpace(s[|s| - 1]) then [s[|s| - 1]] else ""
  }

  /** The maximal runs without white space. */
  function Words(s: string): (ws: seq<string>)
    ensures s != "" && !IsSpace(s[|s| - 1]) ==> ws != []
  {
    if s == "" then []
    else
      var c, front := s[|s| - 1], s[..|s| - 1];
      if IsSpace(c) then Words(front)
      else if front == "" || IsSpace(front[|front| - 1]) then Words(front) + [[c]]
      else
        var ws := Words(front);
        ws[..|ws| - 1] + [ws[|ws| - 1] + [c]]
  }

  function JoinWords(ws: seq<string>): string {
    if ws == [] then ""
    else if |ws| == 1 then ws[0]
    else JoinWords(ws[..|ws| - 1]) + " " + ws[|ws| - 1]
  }

  function Lowered(s: string): (r: string)
    ensures |r| == |s| && forall i :: 0 <= i < |r| ==> r[i] == Lower(s[i])
  {
    if s == "" then "" else Lowered(s[..|s| - 1]) + [Lower(s[|s| - 1])]
  }

  /** The text in lower case, without punctuation, its words separated by one space. */
  function NormalizeForMatch(s: string): string {
    Lowered(JoinWords(Words(Kept(s))))
  }

  // ----- matching -----

  datatype Tier = Exact | Prefix | Substring

  predicate Contains(s: string, sub: string) {
    exists i :: 0 <= i <= |s| - |sub| && OccursAt(s, sub, i)
  }

  predicate OccursAt(s: string, sub: string, i: nat) {
    i + |sub| <= |s| && s[i..i + |sub|] == sub
  }

  /** Does a reply hit an option's caption in this tier?  Both are normalised. */
  predicate Hits(t: Tier, caption: string, reply: string) {
    match t
    case Exact => caption == reply
    case Prefix => reply <= caption
    case Substring => Contains(caption, reply)
  }

  /** The options hit in a tier, in order. */
  function HitList(t: Tier, options: seq<ChoiceOption>, reply: string): (hits: seq<nat>)
    ensures forall a :: 0 <= a < |hits| ==> hits[a] < |options|
    ensures forall a, b :: 0 <= a < b < |hits| ==> hits[a] < hits[b]
  {
    if options == [] then []
    else
      var last := |options| - 1;
      HitList(t, options[..last], reply)
      + if Hits(t, NormalizeForMatch(options[last].caption), reply) then [last] else []
  }

  /** Substrings count only from two characters on. */
  predicate Applies(t: Tier, reply: string) {
    t == Substring ==> |reply| >= 2
  }

  function MatchLabel(options: seq<ChoiceOption>, reply: string): (m: Match)
    ensures m.One? ==> m.index < |options|
    ensures !m.OutOfRange?
  {
    var exact := HitList(Exact, options, reply);
    if |exact| == 1 then One(exact[0])
    else if |exact| > 1 then Ambiguous
    else
      var prefix := HitList(Prefix, options, reply);
      if |prefix| == 1 then One(prefix[0])
      else if |prefix| > 1 then Ambiguous
      else if !Applies(Substring, reply) then NoMatch
      else
        var substr := HitList(Substring, options, reply);
        if |substr| == 1 then One(substr[0])
        else if |substr| > 1 then Ambiguous
        else NoMatch
  }

  function Trimmed(reply: string): string {
    Trim(WithoutHashes(Trim(reply)))
  }

  function MatchReply(control: ChoiceControl, reply: string): (m: Match)
    ensures m.One? ==> m.index < |control.options|
  {
    var trimmed := Trimmed(reply);
    if trimmed == "" then NoMatch
    else
      var number := ParseUsize(trimmed);
      if number.Some? then
        if 1 <= number.value <= |control.options| then One(number.value - 1) else OutOfRange
      else
        var reply' := NormalizeForMatch(trimmed);
        if reply' == "" then NoMatch else MatchLabel(control.options, reply')
  }

  // ----- what the tiers amount to -----

  predicate HitBy(t: Tier, options: seq<ChoiceOption>, reply: string, i: nat) {
    i < |options| && Hits(t, NormalizeForMatch(options[i].caption), reply)
  }

  /** Exact hits are prefix hits, and prefix hits are substring hits. */
  lemma TiersNest(options: seq<ChoiceOption>, reply: string, i: nat)
    ensures HitBy(Exact, options, reply, i) ==> HitBy(Prefix, options, reply, i)
    ensures HitBy(Prefix, options, reply, i) ==> HitBy(Substring, options, reply, i)
  {
    if HitBy(Prefix, options, reply, i) {
      assert OccursAt(NormalizeForMatch(options[i].caption), reply, 0);
    }
  }

  lemma {:induction false} HitListIs(t: Tier, options: seq<ChoiceOption>, reply: string, i: nat)
    ensures i in HitList(t, options, reply) <==> HitBy(t, options, reply, i)
  {
    hide Hits, NormalizeForMatch;
    if options != [] {
      var last := |options| - 1;
      var front := options[..last];
      HitListIs(t, front, reply, i);
      var before := HitList(t, front, reply);
      var hit: seq<nat> := if HitBy(t, options, reply, last) then [last] else [];
      assert HitList(t, options, reply) == before + hit;
      assert i < last ==> front[i] == options[i];
      assert i in before <==> i < last && HitBy(t, options, reply, i);
    }
  }

  /** The tier hits this option and no other. */
  ghost predicate OnlyHit(t: Tier, options: seq<ChoiceOption>, reply: string, i: nat) {
    HitBy(t, options, reply, i) && forall j :: HitBy(t, options, reply, j) ==> j == i
  }

  lemma SingleHit(t: Tier, options: seq<ChoiceOption>, reply: string, i: nat)
    ensures OnlyHit(t, options, reply, i) <==> HitList(t, options, reply) == [i]
  {
    hide HitList, HitBy;
    var hits := HitList(t, options, reply);
    forall j: nat
      ensures j in hits <==> HitBy(t, options, reply, j)
    {
      HitListIs(t, options, reply, j);
    }
    if OnlyHit(t, options, reply, i) {
      assert i in hits;
      forall a | 0 <= a < |hits|
        ensures hits[a] == i
      {
        assert hits[a] in hits;
      }
      assert hits[0] == hits[|hits| - 1] == i;
    }
    if hits == [i] {
      assert i in hits;
    }
  }

  lemma NoHit(t: Tier, options: seq<ChoiceOption>, reply: string)
    ensures HitList(t, options, reply) == [] <==> forall j :: !HitBy(t, options, reply, j)
  {
    hide HitList, HitBy;
    var hits := HitList(t, options, reply);
    forall j: nat
      ensures j in hits <==> HitBy(t, options, reply, j)
    {
      HitListIs(t, options, reply, j);
    }
    if hits != [] {
      assert hits[0] in hits;
    }
  }

  /**
   A label reply resolves to an option exactly if some applicable tier hits that
   option alone; it is ambiguous exactly if some tier hits but none hits an
   option alone; and otherwise it matches nothing.
   */
  lemma LabelMatchIs(options: seq<ChoiceOption>, reply: string, i: nat)
    ensures MatchLabel(options, reply) == One(i)
        <==> exists t :: Applies(t, reply) && OnlyHit(t, options, reply, i)
    ensures MatchLabel(options, reply) == NoMatch
        <==> forall t, j :: Applies(t, reply) ==> !HitBy(t, options, reply, j)
  {
    OneIsOnlyHit(options, reply, i);
    NoMatchIsNoHit(options, reply);
  }

  lemma OneIsOnlyHit(options: seq<ChoiceOption>, reply: string, i: nat)
    ensures MatchLabel(options, reply) == One(i)
        <==> exists t :: Applies(t, reply) && OnlyHit(t, options, reply, i)
  {
    hide HitList, OnlyHit;
    if MatchLabel(options, reply) == One(i) {
      SingleHit(Exact, options, reply, i);
      SingleHit(Prefix, options, reply, i);
      SingleHit(Substring, options, reply, i);
      assert Applies(Exact, reply) && Applies(Prefix, reply);
    }
    if t :| Applies(t, reply) && OnlyHit(t, options, reply, i) {
      SmallerTierHits(options, reply, t, i);
    }
  }

  lemma NoMatchIsNoHit(options: seq<ChoiceOption>, reply: string)
    ensures MatchLabel(options, reply) == NoMatch
        <==> forall t, j :: Applies(t, reply) ==> !HitBy(t, options, reply, j)
  {
    hide HitList, HitBy;
    NoHit(Exact, options, reply);
    NoHit(Prefix, options, reply);
    NoHit(Substring, options, reply);
    assert Applies(Exact, reply) && Applies(Prefix, reply);
  }

  /** Where a tier hits one option alone, the stronger tiers hit that option or nothing. */
  lemma SmallerTierHits(options: seq<ChoiceOption>, reply: string, t: Tier, i: nat)
    requires OnlyHit(t, options, reply, i)
    ensures HitList(Exact, options, reply) == [i] || HitList(Exact, options, reply) == []
    ensures t != Exact ==> HitList(Prefix, options, reply) == [i] || HitList(Prefix, options, reply) == []
    ensures HitList(t, options, reply) == [i]
  {
    hide HitList, HitBy;
    forall j: nat {
      TiersNest(options, reply, j);
    }
    SingleHit(t, options, reply, i);
    SingleHit(Exact, options, reply, i);
    SingleHit(Prefix, options, reply, i);
    NoHit(Exact, options, reply);
    NoHit(Prefix, options, reply);
  }

  // ----- numbers -----

  predicate AllSpaces(s: string) {
    forall i :: 0 <= i < |s| ==> IsSpace(s[i])
  }

  predicate AllHashes(s: string) {
    forall i :: 0 <= i < |s| ==> s[i] == '#'
  }

  lemma {:induction false} TrimStartOf(w: string, s: string)
    requires AllSpaces(w) && (s == "" || !IsSpace(s[0]))
    ensures TrimStart(w + s) == s
  {
    if w == "" {
      assert w + s == s;
    } else {
      assert (w + s)[1..] == w[1..] + s;
      TrimStartOf(w[1..], s);
    }
  }

  lemma {:induction false} TrimEndOf(s: string, w: string)
    requires AllSpaces(w) && (s == "" || !IsSpace(s[|s| - 1]))
    ensures TrimEnd(s + w) == s
  {
    if w == "" {
      assert s + w == s;
    } else {
      assert (s + w)[..|s + w| - 1] == s + w[..|w| - 1];
      TrimEndOf(s, w[..|w| - 1]);
    }
  }

  lemma {:induction false} HashesOf(h: string, s: string)
    requires AllHashes(h) && (s == "" || s[0] != '#')
    ensures WithoutHashes(h + s) == s
  {
    if h == "" {
      assert h + s == s;
    } else {
      assert (h + s)[1..] == h[1..] + s;
      HashesOf(h[1..], s);
    }
  }

  /** A reply may be written with white space around it, and with hash signs and more white space before it. */
  lemma TrimmedIs(w: string, h: string, w': string, reply: string, w'': string)
    requires AllSpaces(w) && AllHashes(h) && AllSpaces(w') && AllSpaces(w'')
    requires reply != "" && !IsSpace(reply[0]) && !IsSpace(reply[|reply| - 1])
    requires h == "" || w' == "" ==> reply[0] != '#'
    ensures Trimmed(w + (h + (w' + reply)) + w'') == reply
  {
    var core := h + (w' + reply);
    assert core[|core| - 1] == reply[|reply| - 1];
    if h != "" {
      assert core[0] == '#';
      assert w + core + w'' == w + (core + w'');
      TrimStartOf(w, core + w'');
      TrimEndOf(core, w'');
      assert (w' + reply)[0] != '#';
      HashesOf(h, w' + reply);
      TrimStartOf(w', reply);
      TrimEndOf(reply, "");
      assert reply + "" == reply;
    } else {
      assert w + core + w'' == (w + w') + (reply + w'');
      TrimStartOf(w + w', reply + w'');
      TrimEndOf(reply, w'');
      HashesOf("", reply);
      assert "" + reply == reply;
      TrimStartOf("", reply);
      TrimEndOf(reply, "");
      assert reply + "" == reply;
    }
  }

  lemma TrimmedNumeral(w: string, h: string, w': string, n: nat, w'': string)
    requires AllSpaces(w) && AllHashes(h) && AllSpaces(w') && AllSpaces(w'')
    ensures Trimmed(w + (h + (w' + ToString(n))) + w'') == ToString(n)
  {
    var digits := ToString(n);
    assert IsDigit(digits[0]) && IsDigit(digits[|digits| - 1]);
    TrimmedIs(w, h, w', digits, w'');
  }

  lemma {:induction false} TrimStartSplits(s: string) returns (w: string)
    ensures AllSpaces(w) && s == w + TrimStart(s)
  {
    w := "";
    if s != "" && IsSpace(s[0]) {
      var w' := TrimStartSplits(s[1..]);
      w := [s[0]] + w';
      assert s == [s[0]] + s[1..];
    }
  }

  lemma {:induction false} TrimEndSplits(s: string) returns (w: string)
    ensures AllSpaces(w) && s == TrimEnd(s) + w
  {
    w := "";
    if s != "" && IsSpace(s[|s| - 1]) {
      var w' := TrimEndSplits(s[..|s| - 1]);
      w := w' + [s[|s| - 1]];
      assert s == s[..|s| - 1] + [s[|s| - 1]];
    }
  }

  lemma {:induction false} HashesSplit(s: string) returns (h: string)
    ensures AllHashes(h) && s == h + WithoutHashes(s)
    ensures WithoutHashes(s) == "" || WithoutHashes(s)[0] != '#'
  {
    h := "";
    if s != "" && s[0] == '#' {
      var h' := HashesSplit(s[1..]);
      h := [s[0]] + h';
      assert s == [s[0]] + s[1..];
    }
  }

  /** Nothing else is taken off a reply. */
  lemma ReplySplits(reply: string) returns (w: string, h: string, w': string, w'': string)
    ensures AllSpaces(w) && AllHashes(h) && AllSpaces(w') && AllSpaces(w'')
    ensures reply == w + (h + (w' + Trimmed(reply))) + w''
    ensures var t := Trimmed(reply); t == "" || (!IsSpace(t[0]) && !IsSpace(t[|t| - 1]))
  {
    hide TrimStart, TrimEnd, WithoutHashes, AllSpaces, AllHashes;
    w := TrimStartSplits(reply);
    var a := TrimEndSplits(TrimStart(reply));
    var core := Trim(reply);
    h := HashesSplit(core);
    var inner := WithoutHashes(core);
    w' := TrimStartSplits(inner);
    var b := TrimEndSplits(TrimStart(inner));
    var t := Trimmed(reply);
    w'' := b + a;
    SpacesConcat(b, a);
    assert reply == w + (h + (w' + (t + b)) + a);
    assert w + (h + (w' + (t + b)) + a) == w + (h + (w' + t)) + (b + a);
    EndStartsAlike(TrimStart(inner));
  }

  lemma SpacesConcat(a: string, b: string)
    requires AllSpaces(a) && AllSpaces(b)
    ensures AllSpaces(a + b)
  {
  }

  lemma EndStartsAlike(s: string)
    ensures TrimEnd(s) != "" ==> s != "" && TrimEnd(s)[0] == s[0]
  {
  }

  /**
   What a reply is matched to, from what is left of it: nothing, a number, or
   words that some applicable tier finds in exactly one caption.
   */
  lemma ReplyMatchIs(control: ChoiceControl, reply: string, i: nat)
    ensures var t, m := Trimmed(reply), MatchReply(control, reply);
            var words := NormalizeForMatch(t);
            && (t == "" ==> m == NoMatch)
            && (t != "" && ParseUsize(t).Some? ==>
                  m == if 1 <= ParseUsize(t).value <= |control.options| then One(ParseUsize(t).value - 1) else OutOfRange)
            && (t != "" && ParseUsize(t).None? ==>
                  && m != OutOfRange
                  && (m == One(i) <==>
                        words != "" && exists t :: (t == Substring ==> |words| >= 2) && OnlyHit(t, control.options, words, i))
                  && (m == NoMatch <==>
                        words == "" || forall t, j :: (t == Substring ==> |words| >= 2) ==> !HitBy(t, control.options, words, j)))
  {
    hide NormalizeForMatch, MatchLabel, OnlyHit, HitBy, Trimmed;
    LabelMatchIs(control.options, NormalizeForMatch(Trimmed(reply)), i);
  }

  /** A number, counted from one, resolves to its option; other numbers are out of range. */
  lemma NumberResolves(control: ChoiceControl, i: nat, w: string, h: string, w': string, w'': string)
    requires i + 1 < USIZE_SIZE
    requires AllSpaces(w) && AllHashes(h) && AllSpaces(w') && AllSpaces(w'')
    ensures MatchReply(control, w + (h + (w' + ToString(i + 1))) + w'')
         == if i < |control.options| then One(i) else OutOfRange
  {
    TrimmedNumeral(w, h, w', i + 1, w'');
    ParsePrinted(i + 1);
  }

  // ----- normalisation -----

  /** The same text in one pass over the characters. */
  function Scan(s: string): string {
    if s == "" then ""
    else
      var c, front := s[|s| - 1], Scan(s[..|s| - 1]);
      if IsAlphanumeric(c) then
        (if WordBreak(s[..|s| - 1]) && front != "" then front + " " else front) + [Lower(c)]
      else front
  }

  /** The last character that is not punctuation is white space. */
  predicate WordBreak(s: string) {
    s != "" && (IsSpace(s[|s| - 1]) || (!IsAlphanumeric(s[|s| - 1]) && WordBreak(s[..|s| - 1])))
  }

  lemma {:induction false} KeptEnds(s: string)
    ensures WordBreak(s) <==> Kept(s) != "" && IsSpace(Kept(s)[|Kept(s)| - 1])
  {
    if s != "" {
      KeptEnds(s[..|s| - 1]);
    }
  }

  lemma {:induction false} WordsNotEmpty(s: string)
    ensures forall i :: 0 <= i < |Words(s)| ==> Words(s)[i] != ""
  {
    if s != "" {
      WordsNotEmpty(s[..|s| - 1]);
    }
  }

  lemma LoweredConcat(a: string, b: string)
    ensures Lowered(a + b) == Lowered(a) + Lowered(b)
  {
  }

  lemma JoinLonger(ws: seq<string>, w: string)
    ensures JoinWords(ws + [w]) == if ws == [] then w else JoinWords(ws) + " " + w
  {
    assert (ws + [w])[..|ws|] == ws;
  }

  /** The last word grows by a character. */
  lemma LastWordGrows(front: seq<string>, last: string, c: char)
    ensures JoinWords(front + [last + [c]]) == JoinWords(front + [last]) + [c]
  {
    hide JoinWords;
    JoinLonger(front, last + [c]);
    JoinLonger(front, last);
    var head := JoinWords(front) + " ";
    assert head + (last + [c]) == head + last + [c];
  }

  lemma JoinGrows(ws: seq<string>, c: char)
    requires ws != []
    ensures JoinWords(ws[..|ws| - 1] + [ws[|ws| - 1] + [c]]) == JoinWords(ws) + [c]
  {
    hide JoinWords;
    LastWordGrows(ws[..|ws| - 1], ws[|ws| - 1], c);
    assert ws == ws[..|ws| - 1] + [ws[|ws| - 1]];
  }

  /** What one more letter or digit does to the words. */
  lemma OneMore(kept: string, c: char)
    requires IsAlphanumeric(c)
    ensures var ws, text := Words(kept), JoinWords(Words(kept));
            && Words(kept + [c]) != []
            && JoinWords(Words(kept + [c])) ==
                 (if (kept == "" || IsSpace(kept[|kept| - 1])) && ws != [] then text + " " else text) + [c]
  {
    hide JoinWords;
    var ws := Words(kept);
    assert (kept + [c])[..|kept|] == kept;
    if kept == "" || IsSpace(kept[|kept| - 1]) {
      JoinLonger(ws, [c]);
      JoinEmpty();
    } else {
      JoinGrows(ws, c);
    }
  }

  lemma JoinEmpty()
    ensures JoinWords([]) == ""
  {
  }

  lemma {:induction false} ScanIsNormalize(s: string)
    ensures Scan(s) == NormalizeForMatch(s)
    ensures Scan(s) == "" <==> Words(Kept(s)) == []
  {
    hide JoinWords, Lowered;
    if s == "" {
      JoinEmpty();
      LoweredConcat("", "");
    } else {
      var c, front := s[|s| - 1], s[..|s| - 1];
      ScanIsNormalize(front);
      KeptEnds(front);
      var kept := Kept(front);
      var text := JoinWords(Words(kept));
      if IsAlphanumeric(c) {
        assert Kept(s) == kept + [c];
        OneMore(kept, c);
        LoweredConcat(text, [c]);
        LoweredConcat(text + " ", [c]);
        LoweredConcat(text, " ");
        LoweredOne(c);
      } else if IsSpace(c) {
        assert Kept(s) == kept + [c];
        assert (kept + [c])[..|kept|] == kept;
      } else {
        assert Kept(s) == kept;
      }
    }
  }

  lemma LoweredOne(c: char)
    ensures Lowered([c]) == [Lower(c)] && Lowered(" ") == " " && Lowered("") == ""
  {
  }

  /** A normalised text: lower-case letters and digits, single spaces between them. */
  ghost predicate Normal(s: string) {
    && (forall i :: 0 <= i < |s| ==> s[i] == ' ' || (IsAlphanumeric(s[i]) && Lower(s[i]) == s[i]))
    && (s != "" ==> s[0] != ' ' && s[|s| - 1] != ' ')
    && forall i :: 0 <= i < |s| - 1 ==> s[i] == ' ' ==> s[i + 1] != ' '
  }

  lemma {:induction false} NormalizedIsNormal(s: string)
    ensures Normal(Scan(s))
  {
    if s != "" {
      NormalizedIsNormal(s[..|s| - 1]);
    }
  }

  lemma {:induction false} NormalStays(s: string)
    requires forall i :: 0 <= i < |s| ==> s[i] == ' ' || (IsAlphanumeric(s[i]) && Lower(s[i]) == s[i])
    requires s != "" ==> s[0] != ' '
    requires forall i :: 0 <= i < |s| - 1 ==> s[i] == ' ' ==> s[i + 1] != ' '
    ensures WordBreak(s) <==> s != "" && s[|s| - 1] == ' '
    ensures Scan(s) == if WordBreak(s) then s[..|s| - 1] else s
  {
    if s != "" {
      NormalStays(s[..|s| - 1]);
      assert s == s[..|s| - 1] + [s[|s| - 1]];
      if |s| >= 2 && s[|s| - 2] == ' ' {
        assert s[..|s| - 1] == s[..|s| - 2] + " ";
      }
    }
  }

  /** Normalising twice is normalising once, so captions and replies meet in one form. */
  lemma NormalizeTwice(s: string)
    ensures NormalizeForMatch(NormalizeForMatch(s)) == NormalizeForMatch(s)
    ensures Normal(NormalizeForMatch(s))
  {
    ScanIsNormalize(s);
    NormalizedIsNormal(s);
    NormalStays(Scan(s));
    ScanIsNormalize(Scan(s));
  }
}

/**
 The text fallback of an outbound message: its text, its attachments and its
 choice controls, whose options are numbered from one in each control.
 */
module Rendering {
  import opened Results
  import opened Decimal
  import opened Choices
  import opened PendingChoices

  datatype Attachment = Attachment(mimeType: string, fileName: Option<string>, sizeBytes: nat, caption: Option<string>)

  datatype Message = Message(text: Option<string>, attachments: seq<Attachment>, controls: seq<ChoiceControl>)

  // ----- what is printed -----

  function Gap(rendered: string): string {
    if Trim(rendered) != "" then "\n\n" else ""
  }

  function AttachmentLine(a: Attachment): string {
    "\n- " + a.mimeType + ": " + AttachmentName(a) + " (" + ToString(a.sizeBytes) + " bytes)"
    + if a.caption.Some? && Trim(a.caption.value) != "" then " - " + Trim(a.caption.value) else ""
  }

  function AttachmentLines(attachments: seq<Attachment>): string {
    if attachments == [] then ""
    else AttachmentLines(attachments[..|attachments| - 1]) + AttachmentLine(attachments[|attachments| - 1])
  }

  /** The text and the attachments. */
  function Opening(m: Message): string {
    var text := if m.text.Some? then m.text.value else "";
    if m.attachments == [] then text else text + Gap(text) + "Attachments:" + AttachmentLines(m.attachments)
  }

  /** The line of option `k`, counted from zero, without its line break. */
  function OptionLine(k: nat, option: ChoiceOption): string {
    ToString(k + 1) + ". " + Trim(option.caption) + ": `" + Trim(option.command) + "`"
  }

  function OptionLines(options: seq<ChoiceOption>): string {
    if options == [] then ""
    else
      var last := |options| - 1;
      OptionLines(options[..last]) + (OptionLine(last, options[last]) + "\n")
  }

  /** At most one final line break is dropped. */
  function DropBreak(s: string): string {
    if s != "" && s[|s| - 1] == '\n' then s[..|s| - 1] else s
  }

  function TitleLine(control: ChoiceControl): string {
    if Trim(control.title) != "" then Trim(control.title) + "\n" else ""
  }

  /** The text before the options of control `c`, given what the earlier controls left. */
  function Headed(before: string, control: ChoiceControl, c: nat): string {
    before + (if c > 0 then "\n" else "") + TitleLine(control)
  }

  /** The text with the first `n` controls. */
  function WithControls(before: string, controls: seq<ChoiceControl>, n: nat): string
    requires n <= |controls|
  {
    if n == 0 then before
    else
      DropBreak(Headed(WithControls(before, controls, n - 1), controls[n - 1], n - 1) + OptionLines(controls[n - 1].options))
  }

  /** Everything, before an empty text is replaced. */
  function Body(m: Message): string {
    var before := Opening(m);
    if m.controls == [] then before else WithControls(before + Gap(before), m.controls, |m.controls|)
  }

  const NO_TEXT := "Agent completed without a text response."

  function Fallback(m: Message): string {
    if Trim(Body(m)) == "" then NO_TEXT else Body(m)
  }

  // ----- printing it -----

  function AttachmentName(a: Attachment): string {
    if a.fileName.Some? then a.fileName.value else "artifact"
  }

  method RenderAttachment(rendered0: string, a: Attachment) returns (rendered: string)
    ensures rendered == rendered0 + AttachmentLine(a)
  {
    hide Trim, ToString, AttachmentName;
    rendered := rendered0;
    rendered := rendered + "\n- ";
    rendered := rendered + a.mimeType;
    rendered := rendered + ": ";
    assert rendered == rendered0 + ("\n- " + a.mimeType + ": ");
    rendered := rendered + AttachmentName(a);
    rendered := rendered + " (";
    rendered := rendered + ToString(a.sizeBytes);
    rendered := rendered + " bytes)";
    ghost var plain := "\n- " + a.mimeType + ": " + AttachmentName(a) + " (" + ToString(a.sizeBytes) + " bytes)";
    assert rendered == rendered0 + plain;
    if a.caption.Some? && Trim(a.caption.value) != "" {
      rendered := rendered + " - ";
      rendered := rendered + Trim(a.caption.value);
      assert rendered == rendered0 + (plain + (" - " + Trim(a.caption.value)));
    } else {
      assert plain + "" == plain;
    }
  }

  method RenderAttachments(rendered0: string, attachments: seq<Attachment>) returns (rendered: string)
    ensures rendered == rendered0 + AttachmentLines(attachments)
  {
    hide AttachmentLine;
    rendered := rendered0;
    for i := 0 to |attachments|
      invariant rendered == rendered0 + AttachmentLines(attachments[..i])
    {
      assert attachments[..i + 1][..i] == attachments[..i];
      rendered := RenderAttachment(rendered, attachments[i]);
    }
    assert attachments[..|attachments|] == attachments;
  }

  lemma OptionAppended(before: string, k: nat, option: ChoiceOption)
    ensures before + ToString(k + 1) + ". " + Trim(option.caption) + ": `" + Trim(option.command) + "`" + "\n"
         == before + (OptionLine(k, option) + "\n")
  {
    hide Trim, ToString;
    var number, caption, command := ToString(k + 1), Trim(option.caption), Trim(option.command);
    assert before + number + ". " + caption == before + (number + ". " + caption);
    var head := number + ". " + caption;
    assert before + head + ": `" + command + "`" == before + (head + ": `" + command + "`");
  }

  method RenderOptions(rendered0: string, options: seq<ChoiceOption>) returns (rendered: string)
    ensures rendered == rendered0 + OptionLines(options)
  {
    hide Trim, ToString, OptionLine;
    rendered := rendered0;
    for k := 0 to |options|
      invariant rendered == rendered0 + OptionLines(options[..k])
    {
      var option := options[k];
      assert options[..k + 1][..k] == options[..k];
      ghost var before := rendered;
      rendered := rendered + ToString(k + 1);
      rendered := rendered + ". ";
      rendered := rendered + Trim(option.caption);
      rendered := rendered + ": `";
      rendered := rendered + Trim(option.command);
      rendered := rendered + "`";
      rendered := rendered + "\n";
      OptionAppended(before, k, option);
    }
    assert options[..|options|] == options;
  }

  lemma NoControls(before: string, controls: seq<ChoiceControl>)
    ensures WithControls(before, controls, 0) == before
  {
  }

  lemma NextControl(before: string, controls: seq<ChoiceControl>, c: nat)
    requires c < |controls|
    ensures WithControls(before, controls, c + 1)
         == DropBreak(Headed(WithControls(before, controls, c), controls[c], c) + OptionLines(controls[c].options))
  {
    hide DropBreak, Headed, OptionLines;
  }

  method RenderControls(rendered0: string, controls: seq<ChoiceControl>) returns (rendered: string)
    ensures rendered == WithControls(rendered0, controls, |controls|)
  {
    hide OptionLines, Trim, WithControls;
    NoControls(rendered0, controls);
    rendered := rendered0;
    for c := 0 to |controls|
      invariant rendered == WithControls(rendered0, controls, c)
    {
      ghost var before := rendered;
      if c > 0 {
        rendered := rendered + "\n";
      }
      if Trim(controls[c].title) != "" {
        rendered := rendered + Trim(controls[c].title);
        rendered := rendered + "\n";
      }
      assert rendered == Headed(before, controls[c], c);
      rendered := RenderOptions(rendered, controls[c].options);
      NextControl(rendered0, controls, c);
      if rendered != "" && rendered[|rendered| - 1] == '\n' {
        rendered := rendered[..|rendered| - 1];
      }
    }
  }

  method RenderTextFallback(m: Message) returns (rendered: string)
    ensures rendered == Fallback(m)
  {
    hide Trim, AttachmentLines, WithControls;
    rendered := if m.text.Some? then m.text.value else "";
    if m.attachments != [] {
      if Trim(rendered) != "" {
        rendered := rendered + "\n\n";
      }
      rendered := rendered + "Attachments:";
      rendered := RenderAttachments(rendered, m.attachments);
    }
    assert rendered == Opening(m);
    assert rendered + "" == rendered;
    if m.controls != [] {
      if Trim(rendered) != "" {
        rendered := rendered + "\n\n";
      }
      rendered := RenderControls(rendered, m.controls);
    }
    assert rendered == Body(m);
    if Trim(rendered) == "" {
      rendered := NO_TEXT;
    }
  }

  // ----- reading it -----

  /** The digits a text begins with. */
  function Numeral(s: string): string {
    if s != "" && IsDigit(s[0]) then [s[0]] + Numeral(s[1..]) else ""
  }

  lemma {:induction false} NumeralOf(digits: string, rest: string)
    requires AllDigits(digits) && (rest == "" || !IsDigit(rest[0]))
    ensures Numeral(digits + rest) == digits
  {
    if digits == "" {
      assert digits + rest == rest;
    } else {
      assert (digits + rest)[1..] == digits[1..] + rest;
      NumeralOf(digits[1..], rest);
    }
  }

  /** At `p` a line begins, up to white space at the start of the text, and it reads `line`. */
  ghost predicate LineAt(s: string, p: nat, line: string) {
    && p + |line| <= |s| && s[p..p + |line|] == line
    && (AllSpaces(s[..p]) || s[p - 1] == '\n')
    && (p + |line| == |s| || s[p + |line|] == '\n')
  }

  /** Where the line of option `k` begins among the lines. */
  lemma {:induction false} OptionStart(options: seq<ChoiceOption>, k: nat) returns (p: nat)
    requires k < |options|
    ensures var lines, line := OptionLines(options), OptionLine(k, options[k]);
            && p + |line| < |lines| && lines[p..p + |line|] == line && lines[p + |line|] == '\n'
            && (p == 0 || lines[p - 1] == '\n')
            && lines[|lines| - 1] == '\n'
            && p == |OptionLines(options[..k])|
  {
    hide OptionLine;
    var last := |options| - 1;
    var front := OptionLines(options[..last]);
    var line := OptionLine(last, options[last]);
    assert OptionLines(options) == front + (line + "\n");
    if k < last {
      p := OptionStart(options[..last], k);
      assert options[..last][..k] == options[..k];
    } else {
      p := |front|;
      if last > 0 {
        var q := OptionStart(options[..last], 0);
      }
    }
  }

  /** A later control is appended behind a line break, of which nothing but itself may be dropped. */
  lemma ControlExtends(before: string, control: ChoiceControl, c: nat)
    requires c > 0
    ensures var after := DropBreak(Headed(before, control, c) + OptionLines(control.options));
            before <= after && (|before| == |after| || after[|before|] == '\n')
  {
    hide OptionLines, TitleLine;
    var more := "\n" + TitleLine(control) + OptionLines(control.options);
    assert Headed(before, control, c) + OptionLines(control.options) == before + more;
    var whole := before + more;
    assert whole[..|before|] == before && whole[|before|] == more[0];
    assert whole[..|whole| - 1][..|before|] == before;
  }

  lemma {:induction false} LaterControlsExtend(before: string, controls: seq<ChoiceControl>, c: nat, n: nat)
    requires c < n <= |controls|
    ensures var now, later := WithControls(before, controls, c + 1), WithControls(before, controls, n);
            now <= later && (|now| == |later| || later[|now|] == '\n')
  {
    hide OptionLines, TitleLine, Headed, DropBreak;
    if c + 1 < n {
      LaterControlsExtend(before, controls, c, n - 1);
      ControlExtends(WithControls(before, controls, n - 1), controls[n - 1], n - 1);
    }
  }

  lemma AppendedLine(head: string, lines: string, q: nat, line: string)
    requires q + |line| < |lines| && lines[q..q + |line|] == line && lines[q + |line|] == '\n'
    requires if q == 0 then AllSpaces(head) || head[|head| - 1] == '\n' else lines[q - 1] == '\n'
    ensures LineAt((head + lines)[..|head + lines| - 1], |head| + q, line)
  {
    var s, p := (head + lines)[..|head + lines| - 1], |head| + q;
    assert s[p..p + |line|] == lines[q..q + |line|];
    if q == 0 {
      assert s[..p] == head;
    } else {
      assert s[p - 1] == lines[q - 1];
    }
    assert p + |line| < |s| ==> s[p + |line|] == lines[q + |line|];
  }

  /** What stands before the options ends a line, or is white space before the first one. */
  lemma HeadEndsLine(before: string, controls: seq<ChoiceControl>, c: nat)
    requires c < |controls|
    requires c == 0 ==> AllSpaces(before) || before[|before| - 1] == '\n'
    ensures var head := Headed(WithControls(before, controls, c), controls[c], c);
            AllSpaces(head) || head[|head| - 1] == '\n'
  {
    hide Trim, OptionLines, DropBreak;
    var head := Headed(WithControls(before, controls, c), controls[c], c);
    if TitleLine(controls[c]) == "" {
      assert head == WithControls(before, controls, c) + if c > 0 then "\n" else "";
      assert c == 0 ==> head == before;
    } else {
      assert head[|head| - 1] == '\n';
    }
  }

  /** Where the line of an option stands in the text with its control. */
  function OptionPlace(before: string, controls: seq<ChoiceControl>, c: nat, k: nat): nat
    requires c < |controls| && k < |controls[c].options|
  {
    |Headed(WithControls(before, controls, c), controls[c], c)| + |OptionLines(controls[c].options[..k])|
  }

  /** The next option stands on the next line. */
  lemma NextPlace(before: string, controls: seq<ChoiceControl>, c: nat, k: nat)
    requires c < |controls| && k + 1 < |controls[c].options|
    ensures OptionPlace(before, controls, c, k + 1)
         == OptionPlace(before, controls, c, k) + |OptionLine(k, controls[c].options[k])| + 1
  {
    hide OptionLine, Headed;
    var options := controls[c].options;
    assert options[..k + 1][..k] == options[..k];
  }

  /** The line of an option in the text with its control, whatever was there before. */
  lemma OptionInControl(before: string, controls: seq<ChoiceControl>, c: nat, k: nat) returns (p: nat)
    requires c < |controls| && k < |controls[c].options|
    requires c == 0 ==> AllSpaces(before) || before[|before| - 1] == '\n'
    ensures LineAt(WithControls(before, controls, c + 1), p, OptionLine(k, controls[c].options[k]))
    ensures p == OptionPlace(before, controls, c, k)
  {
    hide OptionLine, OptionLines, Headed, LineAt;
    var options := controls[c].options;
    var head := Headed(WithControls(before, controls, c), controls[c], c);
    var lines := OptionLines(options);
    var q := OptionStart(options, k);
    p := |head| + q;
    HeadEndsLine(before, controls, c);
    AppendedLine(head, lines, q, OptionLine(k, options[k]));
    assert (head + lines)[|head + lines| - 1] == lines[|lines| - 1];
    assert WithControls(before, controls, c + 1) == DropBreak(head + lines);
  }

  lemma LineStays(s: string, s': string, p: nat, line: string)
    requires LineAt(s, p, line) && s <= s' && (|s| == |s'| || s'[|s|] == '\n')
    ensures LineAt(s', p, line)
  {
    assert s'[p..p + |line|] == s[p..p + |line|];
    assert s'[..p] == s[..p];
  }

  lemma VisibleTrims(s: string, i: nat)
    requires i < |s| && !IsSpace(s[i])
    ensures Trim(s) != ""
  {
    var j := StartKeeps(s, i);
    EndKeeps(TrimStart(s), j);
  }

  lemma {:induction false} StartKeeps(s: string, i: nat) returns (j: nat)
    requires i < |s| && !IsSpace(s[i])
    ensures j < |TrimStart(s)| && !IsSpace(TrimStart(s)[j])
  {
    if IsSpace(s[0]) {
      j := StartKeeps(s[1..], i - 1);
    } else {
      j := i;
    }
  }

  lemma {:induction false} EndKeeps(s: string, i: nat)
    requires i < |s| && !IsSpace(s[i])
    ensures |TrimEnd(s)| > i
  {
    if IsSpace(s[|s| - 1]) {
      EndKeeps(s[..|s| - 1], i);
    }
  }

  lemma {:induction false} BlankIsSpaces(s: string)
    requires Trim(s) == ""
    ensures AllSpaces(s)
  {
    forall i | 0 <= i < |s|
      ensures IsSpace(s[i])
    {
      if !IsSpace(s[i]) {
        VisibleTrims(s, i);
      }
    }
  }

  /** What stands before the controls is white space only, or ends with a line break. */
  lemma GapEndsLine(opening: string)
    ensures var before := opening + Gap(opening);
            AllSpaces(before) || before[|before| - 1] == '\n'
  {
    hide Trim;
    if Trim(opening) == "" {
      BlankIsSpaces(opening);
      assert opening + "" == opening;
    }
  }

  /** A visible line of the text so far is a line of the fallback. */
  lemma LineReachesFallback(m: Message, now: string, p: nat, line: string, i: nat)
    requires LineAt(now, p, line) && now <= Body(m) && (|now| == |Body(m)| || Body(m)[|now|] == '\n')
    requires i < |line| && !IsSpace(line[i])
    ensures LineAt(Fallback(m), p, line)
  {
    hide Body, Trim;
    LineStays(now, Body(m), p, line);
    assert Body(m)[p..p + |line|][i] == line[i];
    VisibleTrims(Body(m), p + i);
  }

  /** Every option has its line in the text. */
  lemma OptionIsPrinted(m: Message, c: nat, k: nat) returns (p: nat)
    requires c < |m.controls| && k < |m.controls[c].options|
    ensures var option := m.controls[c].options[k];
            LineAt(Fallback(m), p,
                   ToString(k + 1) + ". " + Trim(option.caption) + ": `" + Trim(option.command) + "`")
    ensures p == OptionPlace(Opening(m) + Gap(Opening(m)), m.controls, c, k)
  {
    hide WithControls, OptionLine, Trim, AttachmentLines, LineAt, Gap, Fallback;
    var before := Opening(m) + Gap(Opening(m));
    var option := m.controls[c].options[k];
    GapEndsLine(Opening(m));
    p := OptionInControl(before, m.controls, c, k);
    LaterControlsExtend(before, m.controls, c, |m.controls|);
    OptionLineIs(k, option);
    var line := OptionLine(k, option);
    LineReachesFallback(m, WithControls(before, m.controls, c + 1), p, line, |line| - 1);
  }

  /** The options of a control stand on consecutive lines, in order. */
  lemma OptionsFollow(m: Message, c: nat, k: nat) returns (p: nat, p': nat)
    requires c < |m.controls| && k + 1 < |m.controls[c].options|
    ensures var a, b := m.controls[c].options[k], m.controls[c].options[k + 1];
            var line := ToString(k + 1) + ". " + Trim(a.caption) + ": `" + Trim(a.command) + "`";
            && LineAt(Fallback(m), p, line)
            && p' == p + |line| + 1
            && LineAt(Fallback(m), p', ToString(k + 2) + ". " + Trim(b.caption) + ": `" + Trim(b.command) + "`")
  {
    hide LineAt, Fallback, Trim, ToString, Opening, Gap, OptionPlace;
    p := OptionIsPrinted(m, c, k);
    p' := OptionIsPrinted(m, c, k + 1);
    NextPlace(Opening(m) + Gap(Opening(m)), m.controls, c, k);
    OptionLineIs(k, m.controls[c].options[k]);
  }

  lemma OptionLineIs(k: nat, option: ChoiceOption)
    ensures var line := OptionLine(k, option);
            && line == ToString(k + 1) + ". " + Trim(option.caption) + ": `" + Trim(option.command) + "`"
            && line != "" && !IsSpace(line[|line| - 1])
  {
  }

  /** Every visible title has its line in the text. */
  lemma TitleIsPrinted(m: Message, c: nat) returns (p: nat)
    requires c < |m.controls| && Trim(m.controls[c].title) != ""
    ensures LineAt(Fallback(m), p, Trim(m.controls[c].title))
  {
    hide WithControls, OptionLines, Trim, AttachmentLines, LineAt, Gap, Fallback;
    var before := Opening(m) + Gap(Opening(m));
    GapEndsLine(Opening(m));
    p := TitleInControl(before, m.controls, c);
    LaterControlsExtend(before, m.controls, c, |m.controls|);
    var title := Trim(m.controls[c].title);
    TrimEndsVisibly(m.controls[c].title);
    LineReachesFallback(m, WithControls(before, m.controls, c + 1), p, title, |title| - 1);
  }

  lemma TrimEndsVisibly(s: string)
    ensures Trim(s) != "" ==> !IsSpace(Trim(s)[|Trim(s)| - 1])
  {
  }

  lemma TitleInControl(before: string, controls: seq<ChoiceControl>, c: nat) returns (p: nat)
    requires c < |controls| && Trim(controls[c].title) != ""
    requires c == 0 ==> AllSpaces(before) || before[|before| - 1] == '\n'
    ensures LineAt(WithControls(before, controls, c + 1), p, Trim(controls[c].title))
  {
    hide OptionLines, Trim, LineAt, Headed, WithControls;
    var earlier, title := WithControls(before, controls, c), Trim(controls[c].title);
    var head := earlier + if c > 0 then "\n" else "";
    var lines := title + "\n" + OptionLines(controls[c].options);
    p := |head|;
    NoControls(before, controls);
    assert c == 0 ==> head == before;
    TitledLines(title, controls[c].options);
    AppendedLine(head, lines, 0, title);
    TitledText(earlier, controls[c], c);
    NextControl(before, controls, c);
    assert (head + lines)[|head + lines| - 1] == lines[|lines| - 1];
  }

  lemma TitledLines(title: string, options: seq<ChoiceOption>)
    ensures var lines := title + "\n" + OptionLines(options);
            lines[..|title|] == title && lines[|title|] == '\n' && lines[|lines| - 1] == '\n'
  {
    hide OptionLines;
    LinesEnd(options);
  }

  lemma TitledText(before: string, control: ChoiceControl, c: nat)
    requires Trim(control.title) != ""
    ensures Headed(before, control, c) + OptionLines(control.options)
         == (before + if c > 0 then "\n" else "") + (Trim(control.title) + "\n" + OptionLines(control.options))
  {
    hide OptionLines, Trim;
  }

  lemma LinesEnd(options: seq<ChoiceOption>)
    ensures var lines := OptionLines(options); lines == "" || lines[|lines| - 1] == '\n'
  {
    if options != [] {
      var q := OptionStart(options, 0);
    }
  }

  // ----- text and attachments -----

  /** A visible opening stays in front, and what follows it starts on a new line. */
  lemma OpeningStays(m: Message)
    requires Trim(Opening(m)) != ""
    ensures var opening, body := Opening(m), Body(m);
            opening <= body && (|opening| == |body| || body[|opening|] == '\n')
  {
    hide Opening, OptionLines, TitleLine, Trim;
    var opening := Opening(m);
    if m.controls != [] {
      var before := opening + "\n\n";
      LaterControlsExtend(before, m.controls, 0, |m.controls|);
      var more := "\n\n" + TitleLine(m.controls[0]) + OptionLines(m.controls[0].options);
      assert Headed(before, m.controls[0], 0) + OptionLines(m.controls[0].options) == opening + more;
      assert WithControls(before, m.controls, 0) == before;
      var now := WithControls(before, m.controls, 1);
      assert now == DropBreak(opening + more);
      assert (opening + more)[..|opening|] == opening && (opening + more)[|opening|] == '\n';
      assert opening <= now && now[|opening|] == '\n';
    }
  }

  lemma VisiblePlace(s: string) returns (i: nat)
    requires Trim(s) != ""
    ensures i < |s| && !IsSpace(s[i])
  {
    if AllSpaces(s) {
      SpacesTrim(s);
    }
    i :| i < |s| && !IsSpace(s[i]);
  }

  lemma {:induction false} SpacesTrim(s: string)
    requires AllSpaces(s)
    ensures Trim(s) == ""
  {
    if s != "" {
      SpacesTrim(s[1..]);
    }
  }

  /** A visible text begins the fallback, verbatim; whatever follows starts on a new line. */
  lemma TextIsFirst(m: Message)
    requires m.text.Some? && Trim(m.text.value) != ""
    ensures m.text.value <= Fallback(m)
    ensures |m.text.value| == |Fallback(m)| || Fallback(m)[|m.text.value|] == '\n'
  {
    hide Trim, Body, AttachmentLines;
    var text := m.text.value;
    var i := VisiblePlace(text);
    var opening := Opening(m);
    assert text <= opening && (|text| == |opening| || opening[|text|] == '\n');
    VisibleTrims(opening, i);
    OpeningStays(m);
    VisibleTrims(Body(m), i);
  }

  /** Attachments are announced behind the text, after a blank line if it is visible. */
  lemma AttachmentsFollow(m: Message)
    requires m.attachments != []
    ensures var text := if m.text.Some? then m.text.value else "";
            text + (if Trim(text) == "" then "" else "\n\n") + "Attachments:" <= Fallback(m)
  {
    hide Trim, Body, AttachmentLines;
    var text := if m.text.Some? then m.text.value else "";
    var opening := Opening(m);
    var head := text + Gap(text) + "Attachments:";
    assert opening == head + AttachmentLines(m.attachments);
    AttachmentsHead(text + Gap(text), AttachmentLines(m.attachments));
    VisibleTrims(opening, |head| - 1);
    OpeningStays(m);
    VisibleTrims(Body(m), |head| - 1);
  }

  /** Without text, attachments and controls, the fallback says so; and it is never blank. */
  lemma NeverBlank(m: Message)
    ensures Trim(Fallback(m)) != ""
    ensures m.attachments == [] && m.controls == [] && (m.text.None? || Trim(m.text.value) == "") ==>
              Fallback(m) == "Agent completed without a text response."
  {
    hide Trim, WithControls, AttachmentLines;
    VisibleTrims(NO_TEXT, 0);
    if m.text.None? {
      SpacesTrim("");
    }
  }

  /** What an attachment's line says, behind its line break. */
  function AttachmentText(a: Attachment): string {
    "- " + a.mimeType + ": " + (if a.fileName.Some? then a.fileName.value else "artifact")
    + " (" + ToString(a.sizeBytes) + " bytes)"
    + if a.caption.Some? && Trim(a.caption.value) != "" then " - " + Trim(a.caption.value) else ""
  }

  lemma AttachmentLineIs(a: Attachment)
    ensures AttachmentLine(a) == "\n" + AttachmentText(a)
  {
    hide Trim, ToString;
    var name := if a.fileName.Some? then a.fileName.value else "artifact";
    var plain := "- " + a.mimeType + ": " + name + " (" + ToString(a.sizeBytes) + " bytes)";
    var more := if a.caption.Some? && Trim(a.caption.value) != "" then " - " + Trim(a.caption.value) else "";
    assert AttachmentText(a) == plain + more;
    assert "\n- " + a.mimeType + ": " + name + " (" + ToString(a.sizeBytes) + " bytes)" == "\n" + plain;
    assert "\n" + plain + more == "\n" + (plain + more);
  }

  /** Where an attachment's line begins among the lines. */
  lemma {:induction false} AttachmentStart(attachments: seq<Attachment>, i: nat) returns (q: nat)
    requires i < |attachments|
    ensures var lines, line := AttachmentLines(attachments), AttachmentText(attachments[i]);
            && 0 < q && q + |line| <= |lines| && lines[q - 1] == '\n' && lines[q..q + |line|] == line
            && (q + |line| == |lines| || lines[q + |line|] == '\n')
  {
    hide AttachmentText, AttachmentLine;
    var last := |attachments| - 1;
    var front := AttachmentLines(attachments[..last]);
    var line := AttachmentText(attachments[last]);
    AttachmentLineIs(attachments[last]);
    assert AttachmentLines(attachments) == front + ("\n" + line);
    if i < last {
      q := AttachmentStart(attachments[..last], i);
    } else {
      q := |front| + 1;
    }
  }

  lemma LineBehind(head: string, lines: string, q: nat, line: string)
    requires 0 < q && q + |line| <= |lines| && lines[q - 1] == '\n' && lines[q..q + |line|] == line
    requires q + |line| == |lines| || lines[q + |line|] == '\n'
    ensures LineAt(head + lines, |head| + q, line)
  {
    var s, p := head + lines, |head| + q;
    assert s[p..p + |line|] == lines[q..q + |line|];
    assert s[p - 1] == lines[q - 1];
    assert p + |line| < |s| ==> s[p + |line|] == lines[q + |line|];
  }

  /** Every attachment has its line in the text. */
  lemma AttachmentIsPrinted(m: Message, i: nat) returns (p: nat)
    requires i < |m.attachments|
    ensures LineAt(Fallback(m), p, AttachmentText(m.attachments[i]))
  {
    hide Trim, Body, AttachmentText, AttachmentLines, Fallback;
    var q := AttachmentStart(m.attachments, i);
    var lines, line := AttachmentLines(m.attachments), AttachmentText(m.attachments[i]);
    var text := if m.text.Some? then m.text.value else "";
    var head := text + Gap(text) + "Attachments:";
    var opening := Opening(m);
    assert opening == head + lines;
    p := |head| + q;
    LineBehind(head, lines, q, line);
    AttachmentsHead(text + Gap(text), lines);
    VisibleTrims(opening, |head| - 1);
    OpeningStays(m);
    AttachmentBegins(m.attachments[i]);
    LineReachesFallback(m, opening, p, line, 0);
  }

  lemma AttachmentsHead(before: string, lines: string)
    ensures var head := before + "Attachments:";
            (head + lines)[|head| - 1] == ':'
  {
  }

  lemma AttachmentBegins(a: Attachment)
    ensures AttachmentText(a) != "" && AttachmentText(a)[0] == '-'
  {
    hide Trim, ToString;
  }

  /** The number read from an option's line. */
  lemma NumeralOfLine(s: string, p: nat, k: nat, option: ChoiceOption)
    requires LineAt(s, p, OptionLine(k, option))
    ensures Numeral(s[p..]) == ToString(k + 1)
  {
    hide Trim, ToString;
    var digits, line := ToString(k + 1), OptionLine(k, option);
    var rest := ". " + Trim(option.caption) + ": `" + Trim(option.command) + "`";
    assert line == digits + rest;
    assert s[p..] == line + s[p + |line|..];
    assert s[p..] == digits + (rest + s[p + |line|..]);
    NumeralOf(digits, rest + s[p + |line|..]);
  }

  /**
   Rendering and matching undo each other: every option has its line in the
   text, and the number read from that line resolves to the option in its
   control - and among all controls exactly if every earlier one is too short
   for that number.
   */
  lemma PrintedNumberResolves(m: Message, c: nat, k: nat)
    requires c < |m.controls| && k < |m.controls[c].options| && k + 1 < USIZE_SIZE
    ensures var option := m.controls[c].options[k];
            var line := ToString(k + 1) + ". " + Trim(option.caption) + ": `" + Trim(option.command) + "`";
            && (exists p: nat :: LineAt(Fallback(m), p, line))
            && forall p: nat :: LineAt(Fallback(m), p, line) ==>
              var number := Numeral(Fallback(m)[p..]);
              && MatchReply(m.controls[c], number) == One(k)
              && (FirstMatch(m.controls, number) == Some((c, k)) <==> forall j :: 0 <= j < c ==> |m.controls[j].options| <= k)
  {
    hide Fallback, MatchReply, FirstMatch, OptionLine, LineAt, Trim;
    var option := m.controls[c].options[k];
    OptionLineIs(k, option);
    var q := OptionIsPrinted(m, c, k);
    forall p: nat | LineAt(Fallback(m), p, OptionLine(k, option))
      ensures p <= |Fallback(m)| && Numeral(Fallback(m)[p..]) == ToString(k + 1)
    {
      LineInText(Fallback(m), p, OptionLine(k, option));
      NumeralOfLine(Fallback(m), p, k, option);
    }
    NumberReachesOption(m.controls, c, k);
    NumberResolves(m.controls[c], k, "", "", "", "");
    assert "" + ("" + ("" + ToString(k + 1))) + "" == ToString(k + 1);
  }

  lemma LineInText(s: string, p: nat, line: string)
    requires LineAt(s, p, line)
    ensures p <= |s|
  {
  }
}

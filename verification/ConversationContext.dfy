/**
 The conversation context of a chat: a ring buffer of exchanges with one
 watermark per agent, and the store that keeps one context per chat.

 The specification is the unbounded history of everything ever pushed.  The
 class carries it as a ghost field, and `Valid` says that buffer and watermarks
 are what the history makes them.
 */
module ConversationContext {
  import opened Results

  datatype Exchange = Exchange(
    seqNo: nat,
    senderLabel: string,
    prompt: string,
    agentId: string,
    response: string)

  type History = seq<Exchange>

  /** Exchanges are numbered in the order they were pushed. */
  ghost predicate Numbered(h: History) {
    forall i :: 0 <= i < |h| ==> h[i].seqNo == i
  }

  /**
   The oldest of `n` pushed exchanges that is still in the buffer.  A buffer of
   capacity zero is never full again after the first push, so it keeps them all.
   */
  function Oldest(capacity: nat, n: nat): (r: nat)
    ensures r <= n
    ensures capacity > 0 ==> n - r <= capacity
  {
    if capacity == 0 || n <= capacity then 0 else n - capacity
  }

  /** What is buffered after the pushes of a history. */
  function Buffer(capacity: nat, h: History): History {
    h[Oldest(capacity, |h|)..]
  }

  /** The buffer is bounded by its capacity, except that a buffer of capacity zero keeps everything. */
  lemma BufferBounded(capacity: nat, h: History)
    ensures |Buffer(capacity, h)| <= capacity <==> capacity > 0 || h == []
    ensures capacity == 0 ==> Buffer(capacity, h) == h
  {
  }

  /** Index of the last exchange that `agent` answered, or -1. */
  function LastAnswer(h: History, agent: string): (r: int)
    ensures -1 <= r < |h|
    ensures r >= 0 ==> h[r].agentId == agent
    ensures forall i :: r < i < |h| ==> h[i].agentId != agent
  {
    if h == [] then -1
    else if h[|h| - 1].agentId == agent then |h| - 1
    else LastAnswer(h[..|h| - 1], agent)
  }

  lemma LastAnswerPushed(h: History, e: Exchange, agent: string)
    ensures LastAnswer(h + [e], agent) == if e.agentId == agent then |h| else LastAnswer(h, agent)
  {
    assert (h + [e])[..|h|] == h;
  }

  /** Pushing into the buffer slides it along the history. */
  lemma BufferSlides(capacity: nat, h: History, e: Exchange)
    ensures var buffer := Buffer(capacity, h);
            var kept := if |buffer| == capacity && |buffer| > 0 then buffer[1..] else buffer;
            kept + [e] == Buffer(capacity, h + [e])
  {
  }

  lemma NumberedPushed(h: History, e: Exchange)
    requires Numbered(h) && e.seqNo == |h|
    ensures Numbered(h + [e])
  {
  }

  ghost predicate Marks(watermarks: map<string, nat>, h: History) {
    forall a :: LastAnswer(h, a) == if a in watermarks then watermarks[a] else -1
  }

  lemma MarkOf(watermarks: map<string, nat>, h: History, a: string)
    requires Marks(watermarks, h)
    ensures LastAnswer(h, a) == if a in watermarks then watermarks[a] else -1
  {
  }

  lemma MarksPushed(watermarks: map<string, nat>, h: History, e: Exchange)
    requires Marks(watermarks, h)
    ensures Marks(watermarks[e.agentId := |h|], h + [e])
  {
    hide LastAnswer;
    forall a
      ensures LastAnswer(h + [e], a) == if a in watermarks[e.agentId := |h|] then watermarks[e.agentId := |h|][a] else -1
    {
      LastAnswerPushed(h, e, a);
    }
  }

  function Max(a: int, b: int): int {
    if a < b then b else a
  }

  /** Where the exchanges injected for `agent` begin. */
  function WindowStart(capacity: nat, depth: nat, h: History, agent: string): (r: int)
    ensures 0 <= r <= |h|
  {
    Max(Oldest(capacity, |h|), Max(|h| - depth, LastAnswer(h, agent) + 1))
  }

  /** The exchanges injected for `agent`: a suffix of the history, none of them its own. */
  function Window(capacity: nat, depth: nat, h: History, agent: string): (w: History)
    ensures forall e :: e in w ==> e.agentId != agent
    ensures |w| <= depth
  {
    h[WindowStart(capacity, depth, h, agent)..]
  }

  /** What an agent has not seen of the buffer. */
  function Above(capacity: nat, h: History, agent: string): History {
    h[Max(Oldest(capacity, |h|), LastAnswer(h, agent) + 1)..]
  }

  /** The window is the last part of that. */
  lemma WindowIsLast(capacity: nat, depth: nat, h: History, agent: string)
    ensures var unseen := Above(capacity, h, agent);
            Window(capacity, depth, h, agent) == if |unseen| > depth then unseen[|unseen| - depth..] else unseen
  {
    hide LastAnswer, Oldest;
  }

  lemma NothingBuffered(capacity: nat, depth: nat, h: History, agent: string)
    ensures depth == 0 || Buffer(capacity, h) == [] ==> Window(capacity, depth, h, agent) == []
  {
    hide LastAnswer, Oldest;
  }

  lemma BufferAt(capacity: nat, h: History)
    ensures var buffer, first := Buffer(capacity, h), Oldest(capacity, |h|);
            && |buffer| == |h| - first
            && forall i :: 0 <= i < |buffer| ==> buffer[i] == h[first + i]
    ensures Numbered(h) ==> forall i :: 0 <= i < |h| ==> h[i].seqNo == i
  {
  }

  // ----- text -----

  function PreambleLines(w: History): seq<string> {
    if w == [] then []
    else
      var e := w[|w| - 1];
      PreambleLines(w[..|w| - 1]) + [e.senderLabel + ": " + e.prompt, e.agentId + ": " + e.response]
  }

  function JoinLines(lines: seq<string>): string {
    if lines == [] then ""
    else if |lines| == 1 then lines[0]
    else lines[0] + "\n" + JoinLines(lines[1..])
  }

  function Preamble(w: History): string {
    JoinLines(["[Recent context:"] + PreambleLines(w) + ["]"])
  }

  method RenderPreamble(toInject: seq<Exchange>) returns (text: string)
    ensures text == Preamble(toInject)
  {
    var lines := ["[Recent context:"];
    for i := 0 to |toInject|
      invariant lines == ["[Recent context:"] + PreambleLines(toInject[..i])
    {
      var e := toInject[i];
      assert toInject[..i + 1][..i] == toInject[..i];
      lines := lines + [e.senderLabel + ": " + e.prompt];
      lines := lines + [e.agentId + ": " + e.response];
    }
    assert toInject[..|toInject|] == toInject;
    lines := lines + ["]"];
    return JoinLines(lines);
  }

  function Augmented(w: History, message: string): string {
    if w == [] then message else Preamble(w) + "\n\n" + message
  }

  lemma AugmentedIs(w: History, message: string)
    ensures Augmented(w, message) == if w == [] then message else Preamble(w) + "\n\n" + message
  {
  }

  predicate IsSpace(c: char) {
    c == ' ' || '\t' <= c <= '\r'
  }

  function TrimStart(s: string): string {
    if s != "" && IsSpace(s[0]) then TrimStart(s[1..]) else s
  }

  function FirstToken(s: string): string {
    if s == "" || IsSpace(s[0]) then "" else [s[0]] + FirstToken(s[1..])
  }

  // ----- what an agent is sent -----

  const OPENING := "[Recent context:\n"

  function ExchangeLines(e: Exchange): string {
    e.senderLabel + ": " + e.prompt + "\n" + e.agentId + ": " + e.response + "\n"
  }

  /** At `at[i]` stands what exchange `i` says, up to `at[i + 1]`; nothing else stands in between. */
  ghost predicate Tiles(sent: string, w: History, at: seq<nat>) {
    |at| == |w| + 1 && forall i :: 0 <= i < |w| ==> Tile(sent, w[i], at[i], at[i + 1])
  }

  predicate Tile(sent: string, e: Exchange, from: nat, until: nat) {
    from <= until <= |sent| && sent[from..until] == ExchangeLines(e)
  }

  /** The exchanges, each with its two lines, in order, between brackets; then a blank line and the message. */
  ghost predicate Tells(sent: string, w: History, message: string, at: seq<nat>) {
    && Tiles(sent, w, at)
    && at[0] <= |sent| && sent[..at[0]] == OPENING
    && at[|w|] <= |sent| && sent[at[|w|]..] == "]\n\n" + message
  }

  /** Each line of the list, with its line break. */
  function Broken(lines: seq<string>): string {
    if lines == [] then "" else lines[0] + "\n" + Broken(lines[1..])
  }

  lemma {:induction false} BrokenConcat(a: seq<string>, b: seq<string>)
    ensures Broken(a + b) == Broken(a) + Broken(b)
  {
    if a == [] {
      assert a + b == b;
    } else {
      assert (a + b)[1..] == a[1..] + b;
      BrokenConcat(a[1..], b);
    }
  }

  lemma {:induction false} JoinedIsBroken(lines: seq<string>, last: string)
    ensures JoinLines(lines + [last]) == Broken(lines) + last
  {
    if lines == [] {
      assert lines + [last] == [last];
      assert "" + last == last;
    } else {
      assert (lines + [last])[1..] == lines[1..] + [last];
      JoinedIsBroken(lines[1..], last);
      assert lines[0] + "\n" + (Broken(lines[1..]) + last) == lines[0] + "\n" + Broken(lines[1..]) + last;
    }
  }

  lemma BrokenExchange(e: Exchange)
    ensures Broken([e.senderLabel + ": " + e.prompt, e.agentId + ": " + e.response]) == ExchangeLines(e)
  {
    var x, y := e.senderLabel + ": " + e.prompt, e.agentId + ": " + e.response;
    assert [x, y][1..] == [y] && [y][1..] == [];
    assert Broken([y]) == y + "\n" + "" == y + "\n";
    assert x + "\n" + (y + "\n") == ExchangeLines(e);
  }

  /** The lines of the exchanges tile whatever they are put into. */
  lemma {:induction false} LinesTile(w: History, before: string, after: string) returns (at: seq<nat>)
    ensures Tiles(before + Broken(PreambleLines(w)) + after, w, at)
    ensures at[0] == |before| && at[|w|] == |before + Broken(PreambleLines(w))|
  {
    hide ExchangeLines;
    if w == [] {
      at := [|before|];
      assert before + Broken(PreambleLines(w)) == before;
    } else {
      var front, e := w[..|w| - 1], w[|w| - 1];
      var lines := PreambleLines(front);
      var two := [e.senderLabel + ": " + e.prompt, e.agentId + ": " + e.response];
      assert PreambleLines(w) == lines + two;
      BrokenConcat(lines, two);
      BrokenExchange(e);
      var told, said := Broken(lines), ExchangeLines(e);
      assert before + (told + said) + after == before + told + (said + after);
      assert before + (told + said) == before + told + said;
      var at' := LinesTile(front, before, said + after);
      at := at' + [|before + told + said|];
      var sent := before + told + (said + after);
      assert sent[|before + told|..|before + told + said|] == said;
      forall i | 0 <= i < |w|
        ensures Tile(sent, w[i], at[i], at[i + 1])
      {
        if i < |front| {
          assert at[i] == at'[i] && at[i + 1] == at'[i + 1] && w[i] == front[i];
        }
      }
    }
  }

  /** The message stands alone if there is nothing to tell; otherwise it follows what the window says. */
  lemma AugmentedTells(w: History, message: string)
    ensures if w == [] then Augmented(w, message) == message
            else exists at :: Tells(Augmented(w, message), w, message, at)
  {
    hide Tiles, Broken, PreambleLines, JoinLines;
    if w != [] {
      var lines, end := ["[Recent context:"] + PreambleLines(w), "]\n\n" + message;
      assert lines + ["]"] == ["[Recent context:"] + PreambleLines(w) + ["]"];
      JoinedIsBroken(lines, "]");
      BrokenConcat(["[Recent context:"], PreambleLines(w));
      BrokenOpening();
      var told := OPENING + Broken(PreambleLines(w));
      assert Preamble(w) == told + "]";
      assert Augmented(w, message) == told + "]" + "\n\n" + message == told + end by {
        assert "]" + "\n\n" == "]\n\n";
      }
      var at := LinesTile(w, OPENING, end);
      assert (told + end)[..|OPENING|] == OPENING;
      assert (told + end)[|told|..] == end;
      assert Tells(Augmented(w, message), w, message, at) by {
        TilesLong(told + end, w, at);
      }
    }
  }

  /** What is told goes before the message, which is left whole. */
  lemma TellsMore(sent: string, w: History, message: string)
    requires exists at :: Tells(sent, w, message, at)
    ensures |message| < |sent| && sent[|sent| - |message|..] == message
  {
    hide Tile;
    var at :| Tells(sent, w, message, at);
    var end := sent[at[|w|]..];
    assert end[3..] == message;
    assert sent == sent[..at[|w|]] + end;
  }

  lemma TilesLong(sent: string, w: History, at: seq<nat>)
    requires Tiles(sent, w, at)
    ensures |at| == |w| + 1
  {
  }

  lemma BrokenOpening()
    ensures Broken(["[Recent context:"]) == OPENING
  {
    assert ["[Recent context:"][1..] == [];
    assert "[Recent context:" + "\n" + "" == OPENING;
  }

  /** An exchange is told exactly if it is among the last `depth`, still buffered, and not followed by, nor itself, an answer of the agent. */
  lemma WindowIs(capacity: nat, depth: nat, h: History, agent: string, k: nat)
    requires k < |h|
    ensures WindowStart(capacity, depth, h, agent) <= k
       <==> && |h| - k <= depth
            && (capacity > 0 ==> |h| - k <= capacity)
            && forall j :: k <= j < |h| ==> h[j].agentId != agent
    ensures Window(capacity, depth, h, agent) == h[|h| - |Window(capacity, depth, h, agent)|..]
  {
    hide LastAnswer;
  }

  // ----- native commands -----

  /** A slash and a letter start a native command, unless the token is a path. */
  predicate IsNativeAgentCommand(message: string) {
    var trimmed := TrimStart(message);
    && |trimmed| > 1
    && trimmed[0] == '/'
    && ('a' <= trimmed[1] <= 'z' || 'A' <= trimmed[1] <= 'Z')
    && '/' !in FirstToken(TrimStart(trimmed[1..]))
  }

  predicate IsLetter(c: char) {
    'a' <= c <= 'z' || 'A' <= c <= 'Z'
  }

  /** The slash at `i` is the first visible character, a letter follows, and no other slash before the next white space. */
  ghost predicate CommandAt(message: string, i: nat) {
    && i + 1 < |message| && message[i] == '/' && IsLetter(message[i + 1])
    && (forall k :: 0 <= k < i ==> IsSpace(message[k]))
    && forall j :: i < j < |message| && message[j] == '/' ==> exists k :: i < k < j && IsSpace(message[k])
  }

  lemma {:induction false} TrimStartIs(s: string) returns (n: nat)
    ensures n <= |s| && TrimStart(s) == s[n..] && (forall k :: 0 <= k < n ==> IsSpace(s[k]))
    ensures n < |s| ==> !IsSpace(s[n])
  {
    hide IsSpace;
    if s != "" && IsSpace(s[0]) {
      var m := TrimStartIs(s[1..]);
      n := m + 1;
      assert s[1..][m..] == s[n..];
      forall k | 0 <= k < n
        ensures IsSpace(s[k])
      {
        assert k > 0 ==> s[k] == s[1..][k - 1];
      }
    } else {
      n := 0;
    }
  }

  lemma {:induction false} FirstTokenIs(s: string) returns (n: nat)
    ensures n <= |s| && FirstToken(s) == s[..n] && (forall k :: 0 <= k < n ==> !IsSpace(s[k]))
    ensures n < |s| ==> IsSpace(s[n])
  {
    hide IsSpace;
    if s == "" || IsSpace(s[0]) {
      n := 0;
    } else {
      var m := FirstTokenIs(s[1..]);
      n := m + 1;
      assert s[..n] == [s[0]] + s[1..][..m];
      forall k | 0 <= k < n
        ensures !IsSpace(s[k])
      {
        assert k > 0 ==> s[k] == s[1..][k - 1];
      }
    }
  }

  /** Which messages are native commands. */
  lemma NativeCommandIs(message: string)
    ensures IsNativeAgentCommand(message) <==> exists i: nat :: CommandAt(message, i)
  {
    hide TrimStart, FirstToken;
    var n := TrimStartIs(message);
    var trimmed := message[n..];
    if |trimmed| > 1 && trimmed[0] == '/' && IsLetter(trimmed[1]) {
      var rest := trimmed[1..];
      LetterIsNoSpace(rest[0]);
      var z := TrimStartIs(rest);
      assert z == 0 && rest[0..] == rest;
      var t := FirstTokenIs(rest);
      assert rest == message[n + 1..];
      TokenHasSlash(message, n, rest, t);
      assert IsNativeAgentCommand(message) <==> '/' !in rest[..t];
      assert message[n] == '/' && message[n + 1] == rest[0];
      assert CommandAt(message, n) <==> IsNativeAgentCommand(message);
    }
    forall i: nat | CommandAt(message, i)
      ensures i == n
    {
      assert message[i] == '/' && !IsSpace('/');
    }
    assert CommandAt(message, n) ==> trimmed[0] == message[n] && trimmed[1] == message[n + 1];
  }

  lemma LetterIsNoSpace(c: char)
    ensures IsLetter(c) ==> !IsSpace(c)
  {
  }

  lemma TokenHasSlash(message: string, n: nat, rest: string, t: nat)
    requires n < |message| && rest == message[n + 1..] && t <= |rest|
    requires forall k :: 0 <= k < t ==> !IsSpace(rest[k])
    requires t < |rest| ==> IsSpace(rest[t])
    ensures '/' !in rest[..t]
       <==> forall j :: n < j < |message| && message[j] == '/' ==> exists k :: n < k < j && IsSpace(message[k])
  {
    assert forall k :: 0 <= k < |rest| ==> rest[k] == message[n + 1 + k];
    if '/' in rest[..t] {
      var k :| 0 <= k < t && rest[k] == '/';
      var j := n + 1 + k;
      assert message[j] == '/' && forall i :: n < i < j ==> message[i] == rest[i - n - 1];
    } else {
      assert forall i :: 0 <= i < t ==> rest[..t][i] == rest[i];
      forall j | n < j < |message| && message[j] == '/'
        ensures exists k :: n < k < j && IsSpace(message[k])
      {
        var k := j - n - 1;
        assert rest[k] == '/';
        assert IsSpace(message[n + 1 + t]);
      }
    }
  }

  // ----- one chat -----

  class ConversationContext {
    const capacity: nat
    var exchanges: seq<Exchange>
    var nextSeq: nat
    var watermarks: map<string, nat>
    ghost var history: History

    ghost predicate Valid()
      reads this
    {
      && Numbered(history)
      && nextSeq == |history|
      && exchanges == Buffer(capacity, history)
      && Marks(watermarks, history)
    }

    constructor (capacity: nat)
      ensures Valid() && history == [] && this.capacity == capacity
    {
      this.capacity := capacity;
      exchanges, nextSeq, watermarks, history := [], 0, map[], [];
    }

    /** Records an answered exchange; the agent that answered has seen it. */
    method Push(senderLabel: string, prompt: string, agentId: string, response: string)
      requires Valid()
      modifies this
      ensures Valid()
      ensures history == old(history) + [Exchange(|old(history)|, senderLabel, prompt, agentId, response)]
    {
      hide LastAnswer, Buffer, Numbered, Marks;
      var seqNo := nextSeq;
      nextSeq := nextSeq + 1;
      if |exchanges| == capacity && |exchanges| > 0 {
        exchanges := exchanges[1..];
      }
      var exchange := Exchange(seqNo, senderLabel, prompt, agentId, response);
      exchanges := exchanges + [exchange];
      watermarks := watermarks[agentId := seqNo];
      BufferSlides(capacity, history, exchange);
      NumberedPushed(history, exchange);
      MarksPushed(old(watermarks), history, exchange);
      history := history + [exchange];
    }

    /** The buffered exchanges above the agent's watermark, oldest first. */
    method Unseen(agentId: string) returns (unseen: seq<Exchange>)
      requires Valid()
      ensures unseen == Above(capacity, history, agentId)
    {
      hide LastAnswer, Oldest, Marks, Buffer, Numbered;
      unseen := [];
      ghost var first := Oldest(capacity, |history|);
      ghost var cut := Max(first, LastAnswer(history, agentId) + 1);
      MarkOf(watermarks, history, agentId);
      BufferAt(capacity, history);
      for i := 0 to |exchanges|
        invariant unseen == history[cut..Max(cut, first + i)]
      {
        var e := exchanges[i];
        if agentId !in watermarks || e.seqNo > watermarks[agentId] {
          unseen := unseen + [e];
        }
      }
    }

    /** The preamble for `agentId`, if there is anything it has not seen. */
    method BuildPreamble(agentId: string, injectDepth: nat) returns (r: Option<string>)
      requires Valid()
      ensures var w := Window(capacity, injectDepth, history, agentId);
              r == if w == [] then None else Some(Preamble(w))
    {
      hide LastAnswer, Preamble, Numbered, Window, Above, Buffer;
      NothingBuffered(capacity, injectDepth, history, agentId);
      if injectDepth == 0 || exchanges == [] {
        return None;
      }
      var unseen := Unseen(agentId);
      if unseen == [] {
        WindowIsLast(capacity, injectDepth, history, agentId);
        return None;
      }
      var toInject := if |unseen| > injectDepth then unseen[|unseen| - injectDepth..] else unseen;
      WindowIsLast(capacity, injectDepth, history, agentId);
      var text := RenderPreamble(toInject);
      return Some(text);
    }
  }

  // ----- all chats -----

  class ContextStore {
    const bufferSize: nat
    const injectDepth: nat
    var contexts: map<string, ConversationContext>

    ghost predicate Valid()
      reads this, contexts.Values
    {
      && (forall chat :: chat in contexts ==> contexts[chat].Valid() && contexts[chat].capacity == bufferSize)
      && (forall a, b :: a in contexts && b in contexts && a != b ==> contexts[a] != contexts[b])
    }

    /** The history of a chat; empty for a chat without a context. */
    ghost function HistoryOf(chat: string): History
      reads this, contexts.Values
    {
      if chat in contexts then contexts[chat].history else []
    }

    constructor (bufferSize: nat, injectDepth: nat)
      ensures Valid() && contexts == map[]
      ensures this.bufferSize == bufferSize && this.injectDepth == injectDepth
    {
      this.bufferSize, this.injectDepth := bufferSize, injectDepth;
      contexts := map[];
    }

    method AugmentMessage(chat: string, agentId: string, message: string, preserveNative: bool) returns (r: string)
      requires Valid()
      ensures r == if preserveNative && IsNativeAgentCommand(message) then message
                   else Augmented(Window(bufferSize, injectDepth, HistoryOf(chat), agentId), message)
      ensures var w := Window(bufferSize, injectDepth, HistoryOf(chat), agentId);
              if (preserveNative && IsNativeAgentCommand(message)) || w == [] then r == message
              else exists at :: Tells(r, w, message, at)
      ensures |message| <= |r| && r[|r| - |message|..] == message
      ensures r == message <==> (preserveNative && IsNativeAgentCommand(message))
                                || Window(bufferSize, injectDepth, HistoryOf(chat), agentId) == []
    {
      hide Tells, Augmented, IsNativeAgentCommand;
      ghost var w := Window(bufferSize, injectDepth, HistoryOf(chat), agentId);
      AugmentedTells(w, message);
      AugmentedIs(w, message);
      if w != [] {
        TellsMore(Augmented(w, message), w, message);
      }
      if preserveNative && IsNativeAgentCommand(message) {
        return message;
      }
      var preamble: Option<string> := None;
      if chat in contexts {
        preamble := contexts[chat].BuildPreamble(agentId, injectDepth);
      }
      match preamble
      case None => return message;
      case Some(pre) => return pre + "\n\n" + message;
    }

    method Push(chat: string, senderLabel: string, prompt: string, agentId: string, response: string, preserveNative: bool)
      requires Valid()
      modifies this, contexts.Values
      ensures Valid()
      ensures forall c :: c != chat ==> HistoryOf(c) == old(HistoryOf(c)) && (c in contexts <==> c in old(contexts))
      ensures HistoryOf(chat) ==
                if preserveNative && IsNativeAgentCommand(prompt) then old(HistoryOf(chat))
                else old(HistoryOf(chat)) + [Exchange(|old(HistoryOf(chat))|, senderLabel, prompt, agentId, response)]
    {
      hide Numbered, Marks, Buffer, LastAnswer, IsNativeAgentCommand;
      if preserveNative && IsNativeAgentCommand(prompt) {
        return;
      }
      if chat !in contexts {
        var created := new ConversationContext(bufferSize);
        contexts := contexts[chat := created];
      }
      contexts[chat].Push(senderLabel, prompt, agentId, response);
    }

    method Clear(chat: string)
      requires Valid()
      modifies this
      ensures Valid()
      ensures chat !in contexts && HistoryOf(chat) == []
      ensures forall c :: c != chat ==> HistoryOf(c) == old(HistoryOf(c)) && (c in contexts <==> c in old(contexts))
    {
      contexts := map c | c in contexts && c != chat :: contexts[c];
    }
  }
}

/**
 The choices last shown to each identity, and how a text reply is turned into a
 command; then whole runs of recordings and replies.
 */
module PendingChoices {
  import opened Results
  import opened Decimal
  import opened Choices

  /** Ten minutes, in nanoseconds. */
  const TTL: nat := 600_000_000_000

  datatype Pending = Pending(controls: seq<ChoiceControl>, expiresAt: nat)

  /** What a reply leads to: a command, or a notice that it was ambiguous or out of range. */
  datatype Reply = Command(command: string) | AskNumber | NoSuchNumber

  /** The first control that the reply matches uniquely. */
  function FirstMatch(controls: seq<ChoiceControl>, text: string): Option<(nat, nat)> {
    FirstMatchFrom(controls, text, 0)
  }

  function FirstMatchFrom(controls: seq<ChoiceControl>, text: string, i: nat): Option<(nat, nat)>
    decreases |controls| - i
  {
    if i >= |controls| then None
    else
      match MatchReply(controls[i], text)
      case One(k) => Some((i, k))
      case _ => FirstMatchFrom(controls, text, i + 1)
  }

  predicate AnyAnswers(controls: seq<ChoiceControl>, text: string, m: Match) {
    exists i :: 0 <= i < |controls| && MatchReply(controls[i], text) == m
  }

  lemma {:induction false} FirstMatchIs(controls: seq<ChoiceControl>, text: string, i: nat)
    ensures var r := FirstMatchFrom(controls, text, i);
            if r.Some? then
              && i <= r.value.0 < |controls| && r.value.1 < |controls[r.value.0].options|
              && MatchReply(controls[r.value.0], text) == One(r.value.1)
              && forall j :: i <= j < r.value.0 ==> !MatchReply(controls[j], text).One?
            else forall j :: i <= j < |controls| ==> !MatchReply(controls[j], text).One?
    decreases |controls| - i
  {
    hide MatchReply;
    if i < |controls| {
      FirstMatchIs(controls, text, i + 1);
    }
  }

  /** The command, notice or nothing that a reply to these controls leads to. */
  function Answer(controls: seq<ChoiceControl>, text: string): Option<Reply> {
    FirstMatchIs(controls, text, 0);
    var m := FirstMatch(controls, text);
    if m.Some? then Some(Command(controls[m.value.0].options[m.value.1].command))
    else if AnyAnswers(controls, text, Ambiguous) then Some(AskNumber)
    else if AnyAnswers(controls, text, OutOfRange) then Some(NoSuchNumber)
    else None
  }

  /**
   What a reply leads to: a command exactly if some control matches uniquely; a
   request for a number exactly if none does but one is ambiguous; a notice
   exactly if neither, but the number is out of range somewhere; else nothing.
   */
  lemma AnswerIs(controls: seq<ChoiceControl>, text: string)
    ensures var unique := exists c :: 0 <= c < |controls| && MatchReply(controls[c], text).One?;
            var ambiguous := exists c :: 0 <= c < |controls| && MatchReply(controls[c], text) == Ambiguous;
            var outOfRange := exists c :: 0 <= c < |controls| && MatchReply(controls[c], text) == OutOfRange;
            var answer := Answer(controls, text);
            && (answer.Some? && answer.value.Command? <==> unique)
            && (answer == Some(AskNumber) <==> !unique && ambiguous)
            && (answer == Some(NoSuchNumber) <==> !unique && !ambiguous && outOfRange)
            && (answer == None <==> !unique && !ambiguous && !outOfRange)
  {
    hide MatchReply;
    FirstMatchIs(controls, text, 0);
  }

  /** The command is that of the option matched by the first control with a unique match. */
  lemma FirstUniqueWins(controls: seq<ChoiceControl>, text: string, c: nat, k: nat)
    requires c < |controls| && MatchReply(controls[c], text) == One(k)
    requires forall j :: 0 <= j < c ==> !MatchReply(controls[j], text).One?
    ensures k < |controls[c].options| && Answer(controls, text) == Some(Command(controls[c].options[k].command))
  {
    hide MatchReply;
    FirstMatchIs(controls, text, 0);
  }

  /**
   With several controls shown, each numbered from one, the number printed
   beside option `k` of control `c` resolves to that option exactly if every
   control before it has at most `k` options.
   */
  lemma NumberReachesOption(controls: seq<ChoiceControl>, c: nat, k: nat)
    requires c < |controls| && k < |controls[c].options| && k + 1 < USIZE_SIZE
    ensures FirstMatch(controls, ToString(k + 1)) == Some((c, k))
        <==> forall j :: 0 <= j < c ==> |controls[j].options| <= k
  {
    hide MatchReply;
    var text := ToString(k + 1);
    forall j | 0 <= j < |controls|
      ensures MatchReply(controls[j], text) == if k < |controls[j].options| then One(k) else OutOfRange
    {
      NumberResolves(controls[j], k, "", "", "", "");
      assert "" + ("" + ("" + text)) + "" == text;
    }
    FirstMatchIs(controls, text, 0);
    if forall j :: 0 <= j < c ==> |controls[j].options| <= k {
      assert MatchReply(controls[c], text).One?;
    }
  }

  class ChoiceBook {
    var pending: map<string, Pending>

    constructor ()
      ensures pending == map[]
    {
      pending := map[];
    }

    /** Remembers the controls shown to an identity; a message without controls changes nothing. */
    method Record(identity: string, controls: seq<ChoiceControl>, now: nat)
      modifies this
      ensures pending == Recorded(old(pending), identity, controls, now)
    {
      if controls == [] {
        return;
      }
      pending := pending[identity := Pending(controls, now + TTL)];
    }

    /** Resolves a reply; everything but an ambiguous reply uses the choice up. */
    method Resolve(identity: string, text: string, now: nat) returns (r: Option<Reply>)
      modifies this
      ensures r == Outcome(old(pending), identity, text, now)
      ensures pending == Replied(old(pending), identity, text, now)
    {
      hide Answer;
      if identity !in pending {
        return None;
      }
      var p := pending[identity];
      if now >= p.expiresAt {
        pending := Without(pending, identity);
        return None;
      }
      var command, sawNumeric, sawAmbiguous := TryControls(p.controls, text);
      if command.Some? {
        pending := Without(pending, identity);
        return Some(Command(command.value));
      }
      if sawAmbiguous {
        return Some(AskNumber);
      }
      pending := Without(pending, identity);
      r := if sawNumeric then Some(NoSuchNumber) else None;
    }
  }

  /** Tries the controls in order, up to the first unique match. */
  method TryControls(controls: seq<ChoiceControl>, text: string)
    returns (command: Option<string>, sawNumeric: bool, sawAmbiguous: bool)
    ensures Answer(controls, text) ==
              if command.Some? then Some(Command(command.value))
              else if sawAmbiguous then Some(AskNumber)
              else if sawNumeric then Some(NoSuchNumber)
              else None
  {
    hide MatchReply;
    FirstMatchIs(controls, text, 0);
    command, sawNumeric, sawAmbiguous := None, false, false;
    for i := 0 to |controls|
      invariant FirstMatchFrom(controls, text, i) == FirstMatch(controls, text)
      invariant sawNumeric <==> exists j :: 0 <= j < i && MatchReply(controls[j], text) == OutOfRange
      invariant sawAmbiguous <==> exists j :: 0 <= j < i && MatchReply(controls[j], text) == Ambiguous
    {
      match MatchReply(controls[i], text)
      case One(k) =>
        return Some(controls[i].options[k].command), sawNumeric, sawAmbiguous;
      case OutOfRange => sawNumeric := true;
      case Ambiguous => sawAmbiguous := true;
      case NoMatch =>
    }
  }

  function Without(m: map<string, Pending>, identity: string): map<string, Pending> {
    map i | i in m && i != identity :: m[i]
  }

  function Recorded(m: map<string, Pending>, identity: string, controls: seq<ChoiceControl>, now: nat): map<string, Pending> {
    if controls == [] then m else m[identity := Pending(controls, now + TTL)]
  }

  function Outcome(m: map<string, Pending>, identity: string, text: string, now: nat): Option<Reply> {
    if identity in m && now < m[identity].expiresAt then Answer(m[identity].controls, text) else None
  }

  function Replied(m: map<string, Pending>, identity: string, text: string, now: nat): map<string, Pending> {
    if Outcome(m, identity, text, now) == Some(AskNumber) then m else Without(m, identity)
  }

  // ----- runs -----

  datatype Call =
    | Show(identity: string, controls: seq<ChoiceControl>, now: nat)
    | Say(identity: string, text: string, now: nat)

  function After(calls: seq<Call>, n: nat): map<string, Pending>
    requires n <= |calls|
  {
    if n == 0 then map[]
    else
      var m := After(calls, n - 1);
      match calls[n - 1]
      case Show(identity, controls, now) => Recorded(m, identity, controls, now)
      case Say(identity, text, now) => Replied(m, identity, text, now)
  }

  /** What call `k` returns, if it is a reply. */
  function Returned(calls: seq<Call>, k: nat): Option<Reply>
    requires k < |calls|
  {
    if calls[k].Say? then Outcome(After(calls, k), calls[k].identity, calls[k].text, calls[k].now) else None
  }

  predicate Shows(calls: seq<Call>, j: nat, identity: string) {
    j < |calls| && calls[j].Show? && calls[j].identity == identity && calls[j].controls != []
  }

  /**
   Choice `j` is still open for its identity before call `n`: nothing was shown
   to the identity since, and each of its replies since was ambiguous.
   */
  ghost predicate Open(calls: seq<Call>, identity: string, j: nat, n: nat)
    requires n <= |calls|
  {
    && j < n && Shows(calls, j, identity)
    && forall i :: j < i < n && calls[i].identity == identity ==>
         !Shows(calls, i, identity) && (calls[i].Say? ==> Returned(calls, i) == Some(AskNumber))
  }

  /** Call `n` leaves a choice of this identity open. */
  ghost predicate KeepsOpen(calls: seq<Call>, identity: string, n: nat)
    requires n < |calls|
  {
    calls[n].identity == identity ==>
      !Shows(calls, n, identity) && (calls[n].Say? ==> Returned(calls, n) == Some(AskNumber))
  }

  lemma OpenStep(calls: seq<Call>, identity: string, j: nat, n: nat)
    requires n < |calls|
    ensures Open(calls, identity, j, n + 1)
        <==> (j == n && Shows(calls, n, identity)) || (Open(calls, identity, j, n) && KeepsOpen(calls, identity, n))
  {
    hide Returned;
  }

  /** The identity's remembered choice is the one shown by call `j`. */
  ghost predicate Remembers(calls: seq<Call>, identity: string, j: nat, n: nat)
    requires n <= |calls|
  {
    && Shows(calls, j, identity)
    && identity in After(calls, n)
    && After(calls, n)[identity] == Pending(calls[j].controls, calls[j].now + TTL)
  }

  /** What is remembered for an identity is its open choice, with the expiry of the moment it was shown. */
  lemma {:induction false} RememberedIsOpen(calls: seq<Call>, identity: string, n: nat)
    requires n <= |calls|
    ensures identity in After(calls, n) <==> exists j: nat :: Open(calls, identity, j, n)
    ensures forall j: nat :: Open(calls, identity, j, n) ==> Remembers(calls, identity, j, n)
  {
    hide Outcome, Open;
    if n == 0 {
      forall j: nat
        ensures !Open(calls, identity, j, 0)
      {
        NothingOpenFirst(calls, identity, j);
      }
    } else {
      RememberedIsOpen(calls, identity, n - 1);
      forall j: nat
        ensures Open(calls, identity, j, n)
           <==> (j == n - 1 && Shows(calls, n - 1, identity))
                || (Open(calls, identity, j, n - 1) && KeepsOpen(calls, identity, n - 1))
      {
        OpenStep(calls, identity, j, n - 1);
      }
      if KeepsOpen(calls, identity, n - 1) {
        KeptWhenOpen(calls, identity, n - 1);
        if identity in After(calls, n - 1) {
          var j :| Open(calls, identity, j, n - 1);
          assert Open(calls, identity, j, n);
        }
      } else {
        NotKept(calls, identity, n - 1);
        assert Shows(calls, n - 1, identity) ==> Open(calls, identity, n - 1, n);
      }
    }
  }

  lemma NothingOpenFirst(calls: seq<Call>, identity: string, j: nat)
    ensures !Open(calls, identity, j, 0)
  {
  }

  lemma NotKept(calls: seq<Call>, identity: string, n: nat)
    requires n < |calls| && !KeepsOpen(calls, identity, n)
    ensures identity in After(calls, n + 1) <==> Shows(calls, n, identity)
    ensures Shows(calls, n, identity) ==> Remembers(calls, identity, n, n + 1)
  {
    hide Outcome;
  }

  lemma KeptWhenOpen(calls: seq<Call>, identity: string, n: nat)
    requires n < |calls| && KeepsOpen(calls, identity, n)
    ensures identity in After(calls, n + 1) <==> identity in After(calls, n)
    ensures identity in After(calls, n) ==> After(calls, n + 1)[identity] == After(calls, n)[identity]
  {
    hide Outcome;
  }

  /**
   Every reply is answered from the choice that is open for its identity, while
   that has not expired; without one, it is not a choice.
   */
  lemma ReplyIsFromOpenChoice(calls: seq<Call>, k: nat)
    requires k < |calls| && calls[k].Say?
    ensures forall j: nat :: Open(calls, calls[k].identity, j, k) ==>
              j < k && calls[j].Show?
              && Returned(calls, k) == if calls[k].now < calls[j].now + 10 * 60 * 1_000_000_000 then Answer(calls[j].controls, calls[k].text) else None
    ensures (forall j: nat :: !Open(calls, calls[k].identity, j, k)) ==> Returned(calls, k) == None
  {
    hide Answer;
    RememberedIsOpen(calls, calls[k].identity, k);
  }

  lemma CommandIsAnOption(controls: seq<ChoiceControl>, text: string, command: string)
    requires Answer(controls, text) == Some(Command(command))
    ensures exists c: nat, k: nat ::
              && c < |controls| && k < |controls[c].options|
              && controls[c].options[k].command == command
              && MatchReply(controls[c], text) == One(k)
              && forall j :: 0 <= j < c ==> !MatchReply(controls[j], text).One?
  {
    hide MatchReply, AnyAnswers;
    FirstMatchIs(controls, text, 0);
    var m := FirstMatch(controls, text).value;
    assert MatchReply(controls[m.0], text) == One(m.1);
  }

  /** Two commands to one identity come from two different choices shown to it. */
  lemma OneCommandPerChoice(calls: seq<Call>, k: nat, k': nat, j: nat, j': nat)
    requires k < k' < |calls| && calls[k].Say? && calls[k'].Say? && calls[k].identity == calls[k'].identity
    requires Returned(calls, k).Some? && Returned(calls, k).value.Command?
    requires Open(calls, calls[k].identity, j, k) && Open(calls, calls[k].identity, j', k')
    ensures k < j'
  {
    hide Returned;
  }

  /** Calls for one identity leave the others alone. */
  lemma OthersUntouched(calls: seq<Call>, n: nat, other: string)
    requires n < |calls| && calls[n].identity != other
    ensures other in After(calls, n + 1) <==> other in After(calls, n)
    ensures other in After(calls, n) ==> After(calls, n + 1)[other] == After(calls, n)[other]
  {
    hide Outcome;
  }
}

/**
 Runs of one chat: dispatches that inject a window, pushes of answered
 exchanges, and clears, in any order and by any agents.
 */
module ContextRuns {
  import opened ConversationContext

  datatype Event =
    | Augment(agent: string)
    | Push(senderLabel: string, prompt: string, agent: string, response: string)
    | Clear

  /** The chat's history after `n` events: what was pushed since the last clear. */
  function HistoryAt(es: seq<Event>, n: nat): History
    requires n <= |es|
  {
    if n == 0 then []
    else
      var h := HistoryAt(es, n - 1);
      match es[n - 1]
      case Augment(_) => h
      case Push(sender, prompt, agent, response) => h + [Exchange(|h|, sender, prompt, agent, response)]
      case Clear => []
  }

  /** How many exchanges were pushed before the last clear. */
  function Base(es: seq<Event>, n: nat): nat
    requires n <= |es|
  {
    if n == 0 then 0
    else if es[n - 1].Clear? then Base(es, n - 1) + |HistoryAt(es, n - 1)|
    else Base(es, n - 1)
  }

  /** How many exchanges were pushed in all: the number of the next exchange, counted across clears. */
  function Pushed(es: seq<Event>, n: nat): nat
    requires n <= |es|
  {
    Base(es, n) + |HistoryAt(es, n)|
  }

  /** First exchange, counted across clears, that dispatch `p` injects; the window ends at `Pushed(es, p)`. */
  function WindowFrom(capacity: nat, depth: nat, es: seq<Event>, p: nat): nat
    requires p < |es| && es[p].Augment?
  {
    Base(es, p) + WindowStart(capacity, depth, HistoryAt(es, p), es[p].agent)
  }

  lemma {:induction false} PushedGrows(es: seq<Event>, m: nat, n: nat)
    requires m <= n <= |es|
    ensures Pushed(es, m) <= Pushed(es, n) && Base(es, m) <= Base(es, n)
  {
    if m < n {
      PushedGrows(es, m, n - 1);
    }
  }

  /** Once an agent answered, no later window of it reaches back to that answer, cleared or not. */
  lemma {:induction false} NothingBeforeAnswer(es: seq<Event>, q: nat, n: nat)
    requires q < n <= |es| && es[q].Push?
    ensures Pushed(es, q) < Base(es, n) + LastAnswer(HistoryAt(es, n), es[q].agent) + 1
  {
    var h := HistoryAt(es, n - 1);
    if n > q + 1 {
      NothingBeforeAnswer(es, q, n - 1);
    }
    if es[n - 1].Push? {
      assert HistoryAt(es, n)[..|h|] == h;
    }
  }

  /**
   The windows of an agent's answered dispatches are disjoint: whatever other
   agents do and whatever is cleared, the window of a dispatch that was answered
   ends before the window of any dispatch after that answer begins.
   */
  lemma AnsweredWindowsDisjoint(capacity: nat, depth: nat, es: seq<Event>, agent: string, p: nat, q: nat, p': nat)
    requires p < q < p' < |es|
    requires es[p] == es[p'] == Augment(agent)
    requires es[q].Push? && es[q].agent == agent
    ensures Pushed(es, p) <= WindowFrom(capacity, depth, es, p')
  {
    PushedGrows(es, p, q);
    NothingBeforeAnswer(es, q, p');
  }

  /** Without such an answer nothing is lost either: the next window covers what still fits. */
  lemma UnansweredWindowsRepeat(capacity: nat, depth: nat, es: seq<Event>, agent: string, p: nat, p': nat, k: nat)
    requires p < p' < |es| && es[p] == es[p'] == Augment(agent)
    requires forall i :: p < i < p' ==> es[i].Augment? || (es[i].Push? && es[i].agent != agent)
    requires WindowFrom(capacity, depth, es, p) <= k < Pushed(es, p)
    ensures WindowFrom(capacity, depth, es, p') <= k
        <==> (Pushed(es, p') <= k + depth && (capacity > 0 ==> |HistoryAt(es, p')| <= k - Base(es, p') + capacity))
  {
    OthersKeepLastAnswer(es, agent, p, p');
    PushedGrows(es, p, p');
  }

  lemma {:induction false} OthersKeepLastAnswer(es: seq<Event>, agent: string, p: nat, n: nat)
    requires p <= n <= |es|
    requires forall i :: p <= i < n ==> es[i].Augment? || (es[i].Push? && es[i].agent != agent)
    ensures LastAnswer(HistoryAt(es, n), agent) == LastAnswer(HistoryAt(es, p), agent)
    ensures Base(es, n) == Base(es, p)
  {
    hide LastAnswer;
    if p < n {
      OthersKeepLastAnswer(es, agent, p, n - 1);
      var h, e := HistoryAt(es, n - 1), es[n - 1];
      if e.Push? {
        LastAnswerPushed(h, Exchange(|h|, e.senderLabel, e.prompt, e.agent, e.response), agent);
      }
    }
  }

  // ----- every exchange is delivered at most once -----

  /** The dispatch of `agent` at `p` is answered at `q`; the agent's dispatches do not overlap. */
  ghost predicate Answered(es: seq<Event>, agent: string, p: nat, q: nat) {
    && p < q < |es| && es[p] == Augment(agent) && es[q].Push? && es[q].agent == agent
    && forall i :: p < i < q ==> es[i] != Augment(agent) && !(es[i].Push? && es[i].agent == agent)
  }

  /** Dispatch `p` injects exchange `k`, counted across clears. */
  predicate Injects(capacity: nat, depth: nat, es: seq<Event>, p: nat, k: nat)
    requires p < |es| && es[p].Augment?
  {
    WindowFrom(capacity, depth, es, p) <= k < Pushed(es, p)
  }

  ghost predicate ClearedBetween(es: seq<Event>, x: nat, n: nat)
    requires n <= |es|
  {
    exists i :: x < i < n && es[i].Clear?
  }

  /** An exchange is still in the history exactly if nothing was cleared since. */
  lemma {:induction false} KeptUnlessCleared(es: seq<Event>, x: nat, n: nat)
    requires x < n <= |es| && es[x].Push?
    ensures Base(es, n) <= Pushed(es, x) <==> !ClearedBetween(es, x, n)
    ensures Pushed(es, x) < Pushed(es, n)
  {
    if x + 1 < n {
      KeptUnlessCleared(es, x, n - 1);
      assert ClearedBetween(es, x, n) <==> ClearedBetween(es, x, n - 1) || es[n - 1].Clear?;
    }
  }

  /** The agent has not answered since, so its last answer lies before the exchange. */
  lemma NotAnsweredSince(es: seq<Event>, agent: string, x: nat, n: nat)
    requires x < n <= |es| && es[x].Push? && !ClearedBetween(es, x, n)
    requires forall i :: x <= i < n && es[i].Push? ==> es[i].agent != agent
    ensures Base(es, n) + LastAnswer(HistoryAt(es, n), agent) < Pushed(es, x)
  {
    hide HistoryAt, Base, LastAnswer;
    forall i | x <= i < n
      ensures es[i].Augment? || (es[i].Push? && es[i].agent != agent)
    {
      assert i > x ==> !es[i].Clear?;
    }
    OthersKeepLastAnswer(es, agent, x, n);
  }

  /**
   An exchange answered by others is injected into at most one of an agent's
   answered dispatches: the one with the first answer the agent gives after it.
   It is injected there exactly if it was pushed before that dispatch, nothing
   was cleared in between, and depth and capacity still reach back to it - in
   particular, if the agent keeps up.
   */
  lemma DeliveredExactlyOnce(capacity: nat, depth: nat, es: seq<Event>, agent: string,
                             x: nat, p: nat, q: nat, p': nat, q': nat)
    requires x < q && Answered(es, agent, p, q) && Answered(es, agent, p', q')
    requires es[x].Push? && es[x].agent != agent
    requires forall i :: x < i < q && es[i].Push? ==> es[i].agent != agent
    ensures Injects(capacity, depth, es, p', Pushed(es, x))
       <==> p' == p && x < p && !ClearedBetween(es, x, p)
            && Pushed(es, p) - Pushed(es, x) <= depth && (capacity > 0 ==> Pushed(es, p) - Pushed(es, x) <= capacity)
  {
    hide HistoryAt, Base, LastAnswer, ClearedBetween;
    var k := Pushed(es, x);
    if p' < p {
      PushedGrows(es, p', x);
    } else if p < p' {
      NothingBeforeAnswer(es, q, p');
      KeptUnlessCleared(es, x, q);
    } else if x < p {
      InjectedIfFits(capacity, depth, es, agent, x, p);
    } else {
      PushedGrows(es, p, x);
    }
  }

  lemma InjectedIfFits(capacity: nat, depth: nat, es: seq<Event>, agent: string, x: nat, p: nat)
    requires x < p < |es| && es[p] == Augment(agent) && es[x].Push?
    requires forall i :: x <= i < p && es[i].Push? ==> es[i].agent != agent
    ensures Injects(capacity, depth, es, p, Pushed(es, x))
       <==> !ClearedBetween(es, x, p)
            && Pushed(es, p) - Pushed(es, x) <= depth && (capacity > 0 ==> Pushed(es, p) - Pushed(es, x) <= capacity)
  {
    hide HistoryAt, Base, LastAnswer, ClearedBetween;
    KeptUnlessCleared(es, x, p);
    if !ClearedBetween(es, x, p) {
      NotAnsweredSince(es, agent, x, p);
    }
  }

  /** The agent keeps up at dispatch `p`: no more exchanges than fit lie behind its last answer. */
  predicate KeepsUp(capacity: nat, depth: nat, es: seq<Event>, p: nat)
    requires p < |es| && es[p].Augment?
  {
    var h := HistoryAt(es, p);
    var gap := |h| - (LastAnswer(h, es[p].agent) + 1);
    gap <= depth && (capacity > 0 ==> gap <= capacity)
  }

  /** Where an agent keeps up, everything pushed since its last answer, and not cleared, is injected. */
  lemma KeepingUpMissesNothing(capacity: nat, depth: nat, es: seq<Event>, agent: string, x: nat, p: nat)
    requires x < p < |es| && es[p] == Augment(agent) && es[x].Push? && !ClearedBetween(es, x, p)
    requires forall i :: x <= i < p && es[i].Push? ==> es[i].agent != agent
    requires KeepsUp(capacity, depth, es, p)
    ensures Injects(capacity, depth, es, p, Pushed(es, x))
  {
    hide HistoryAt, Base, LastAnswer, ClearedBetween;
    KeptUnlessCleared(es, x, p);
    NotAnsweredSince(es, agent, x, p);
  }
}

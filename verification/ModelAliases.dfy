/** Resolving a model name through a list of shortcuts, whose targets may be shortcuts themselves. */
module ModelAliases {
  import opened Results

  datatype Shortcut = Shortcut(aliasName: string, model: string)

  /** The target of the first shortcut with this alias. */
  function Next(shortcuts: seq<Shortcut>, name: string): Option<string> {
    if shortcuts == [] then None
    else if shortcuts[0].aliasName == name then Some(shortcuts[0].model)
    else Next(shortcuts[1..], name)
  }

  /** The name reached after `k` steps, if the chain is that long. */
  function Follow(shortcuts: seq<Shortcut>, name: string, k: nat): Option<string> {
    if k == 0 then Some(name)
    else
      var before := Follow(shortcuts, name, k - 1);
      if before.None? then None else Next(shortcuts, before.value)
  }

  lemma FollowSteps(shortcuts: seq<Shortcut>, name: string, k: nat, current: string)
    ensures Follow(shortcuts, name, 0) == Some(name)
    ensures Follow(shortcuts, name, k) == Some(current) ==> Follow(shortcuts, name, k + 1) == Next(shortcuts, current)
  {
  }

  /** The chain from `name` ends at `end`, which is no alias. */
  ghost predicate EndsAt(shortcuts: seq<Shortcut>, name: string, end: string) {
    Next(shortcuts, end) == None && exists k: nat :: Follow(shortcuts, name, k) == Some(end)
  }

  ghost predicate Cycles(shortcuts: seq<Shortcut>, name: string) {
    exists i: nat, j: nat :: i < j && Follow(shortcuts, name, i).Some? && Follow(shortcuts, name, i) == Follow(shortcuts, name, j)
  }

  lemma {:induction false} NextIsTarget(shortcuts: seq<Shortcut>, name: string)
    ensures Next(shortcuts, name).Some? ==> exists s :: s in shortcuts && s.aliasName == name && s.model == Next(shortcuts, name).value
    ensures Next(shortcuts, name).Some? ==> Next(shortcuts, name).value in Targets(shortcuts)
    ensures Next(shortcuts, name).None? <==> forall s :: s in shortcuts ==> s.aliasName != name
  {
    if shortcuts != [] {
      NextIsTarget(shortcuts[1..], name);
      if shortcuts[0].aliasName == name {
        assert shortcuts[0] in shortcuts;
      }
    }
  }

  /** Of several shortcuts with the same alias, the first one counts. */
  lemma {:induction false} NextIsFirst(shortcuts: seq<Shortcut>, name: string, model: string)
    ensures Next(shortcuts, name) == Some(model)
       <==> exists i :: 0 <= i < |shortcuts| && shortcuts[i] == Shortcut(name, model)
                        && forall j :: 0 <= j < i ==> shortcuts[j].aliasName != name
  {
    if shortcuts != [] {
      NextIsFirst(shortcuts[1..], name, model);
      assert forall i :: 0 < i < |shortcuts| ==> shortcuts[i] == shortcuts[1..][i - 1];
      if shortcuts[0].aliasName != name && Next(shortcuts[1..], name) == Some(model) {
        var i :| 0 <= i < |shortcuts[1..]| && shortcuts[1..][i] == Shortcut(name, model)
                 && forall j :: 0 <= j < i ==> shortcuts[1..][j].aliasName != name;
        assert shortcuts[i + 1] == Shortcut(name, model);
      }
      if i :| 0 < i < |shortcuts| && shortcuts[i] == Shortcut(name, model)
              && forall j :: 0 <= j < i ==> shortcuts[j].aliasName != name {
        assert shortcuts[1..][i - 1] == Shortcut(name, model);
      }
    }
  }

  function Targets(shortcuts: seq<Shortcut>): set<string> {
    set s | s in shortcuts :: s.model
  }

  /** Two chains that meet go on together. */
  lemma {:induction false} FollowTogether(shortcuts: seq<Shortcut>, a: string, b: string, i: nat, j: nat, n: nat)
    requires Follow(shortcuts, a, i) == Follow(shortcuts, b, j)
    ensures Follow(shortcuts, a, i + n) == Follow(shortcuts, b, j + n)
  {
    if n > 0 {
      FollowTogether(shortcuts, a, b, i, j, n - 1);
    }
  }

  lemma {:induction false} EarlierSome(shortcuts: seq<Shortcut>, name: string, i: nat, k: nat)
    requires i <= k && Follow(shortcuts, name, k).Some?
    ensures Follow(shortcuts, name, i).Some?
    ensures i < k ==> Next(shortcuts, Follow(shortcuts, name, i).value).Some?
  {
    if i < k {
      EarlierSome(shortcuts, name, i, k - 1);
    }
  }

  /** Nothing lies behind the end of a chain. */
  lemma {:induction false} EndIsLast(shortcuts: seq<Shortcut>, name: string, k: nat, n: nat)
    requires k < n && Follow(shortcuts, name, k).Some? && Next(shortcuts, Follow(shortcuts, name, k).value) == None
    ensures Follow(shortcuts, name, n) == None
  {
    if n > k + 1 {
      EndIsLast(shortcuts, name, k, n - 1);
    }
  }

  /** A chain that meets itself never ends. */
  lemma CyclesNeverEnd(shortcuts: seq<Shortcut>, name: string, end: string)
    requires Cycles(shortcuts, name)
    ensures !EndsAt(shortcuts, name, end)
  {
    var i: nat, j: nat :| i < j && Follow(shortcuts, name, i).Some? && Follow(shortcuts, name, i) == Follow(shortcuts, name, j);
    if EndsAt(shortcuts, name, end) {
      var k: nat :| Follow(shortcuts, name, k) == Some(end);
      if k < j {
        EndIsLast(shortcuts, name, k, j);
      } else {
        // Going round from `k` to `k + (j - i)` shows that the end would not be the last.
        FollowTogether(shortcuts, name, name, i, j, k - i);
        assert i + (k - i) == k && j + (k - i) == k + (j - i);
        EndIsLast(shortcuts, name, k, k + (j - i));
      }
    }
  }

  lemma EndIsUnique(shortcuts: seq<Shortcut>, name: string, a: string, b: string)
    requires EndsAt(shortcuts, name, a) && EndsAt(shortcuts, name, b)
    ensures a == b
  {
    var i: nat :| Follow(shortcuts, name, i) == Some(a);
    var j: nat :| Follow(shortcuts, name, j) == Some(b);
    if i < j {
      EndIsLast(shortcuts, name, i, j);
    } else if j < i {
      EndIsLast(shortcuts, name, j, i);
    }
  }

  /** Resolves a name; on a cycle, fails with the names seen, the repeated one last. */
  method ResolveModelAliasChain(shortcuts: seq<Shortcut>, model: string) returns (r: Result<string, seq<string>>)
    ensures r.Success? ==> EndsAt(shortcuts, model, r.value)
    ensures r.Failure? ==>
              && Cycles(shortcuts, model)
              && |r.error| > 1 && r.error[|r.error| - 1] in r.error[..|r.error| - 1]
              && forall i :: 0 <= i < |r.error| ==> Follow(shortcuts, model, i) == Some(r.error[i])
  {
    hide Next, Targets, Follow;
    FollowSteps(shortcuts, model, 0, model);
    var current := model;
    var seen: set<string> := {};
    var seenOrder: seq<string> := [];
    ghost var names := {model} + Targets(shortcuts);
    while true
      invariant forall i :: 0 <= i < |seenOrder| ==> Follow(shortcuts, model, i) == Some(seenOrder[i])
      invariant Follow(shortcuts, model, |seenOrder|) == Some(current)
      invariant forall s :: s in seen <==> s in seenOrder
      invariant seen <= names && current in names
      decreases names - seen
    {
      if current in seen {
        var i :| 0 <= i < |seenOrder| && seenOrder[i] == current;
        assert Follow(shortcuts, model, i) == Follow(shortcuts, model, |seenOrder|);
        seenOrder := seenOrder + [current];
        return Failure(seenOrder);
      }
      FollowSteps(shortcuts, model, |seenOrder|, current);
      seen := seen + {current};
      seenOrder := seenOrder + [current];
      var next := Next(shortcuts, current);
      if next.None? {
        assert Follow(shortcuts, model, |seenOrder| - 1) == Some(current);
        return Success(current);
      }
      NextIsTarget(shortcuts, current);
      current := next.value;
    }
  }

  /**
   The outcome is settled by the chain alone: a name resolves to the end of its
   chain if there is one, and fails exactly if the chain cycles - one of the two.
   */
  lemma EndsOrCycles(shortcuts: seq<Shortcut>, model: string, r: Result<string, seq<string>>)
    requires r.Success? ==> EndsAt(shortcuts, model, r.value)
    requires r.Failure? ==> Cycles(shortcuts, model)
    ensures forall end :: r == Success(end) <==> EndsAt(shortcuts, model, end)
    ensures r.Failure? <==> Cycles(shortcuts, model)
  {
    forall end | EndsAt(shortcuts, model, end)
      ensures r == Success(end)
    {
      if Cycles(shortcuts, model) {
        CyclesNeverEnd(shortcuts, model, end);
      }
      EndIsUnique(shortcuts, model, r.value, end);
    }
    if r.Success? && Cycles(shortcuts, model) {
      CyclesNeverEnd(shortcuts, model, r.value);
    }
  }

  /** Every name on a resolving chain has the same end; the end resolves to itself. */
  lemma ChainSharesEnd(shortcuts: seq<Shortcut>, model: string, end: string, k: nat)
    requires EndsAt(shortcuts, model, end) && Follow(shortcuts, model, k).Some?
    ensures EndsAt(shortcuts, Follow(shortcuts, model, k).value, end)
    ensures EndsAt(shortcuts, end, end)
  {
    var n: nat :| Follow(shortcuts, model, n) == Some(end);
    if n < k {
      EndIsLast(shortcuts, model, n, k);
    } else {
      var name := Follow(shortcuts, model, k).value;
      assert Follow(shortcuts, name, 0) == Follow(shortcuts, model, k);
      FollowTogether(shortcuts, name, model, 0, k, n - k);
      assert Follow(shortcuts, name, n - k) == Some(end);
    }
    assert Follow(shortcuts, end, 0) == Some(end);
  }
}

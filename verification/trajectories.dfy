/** colgen / redcolgen and the lists built from them: C, T and tst
    (collatz.py:34-98).  The generators are modelled as the finite lists
    they yield. */
module Trajectories {
  import opened Outcomes
  import opened Steps

  /** Each element after the first is the rule's step of the one before. */
  ghost predicate IsChain(rule: Rule, s: seq<int>) {
    forall i :: 0 < i < |s| ==> s[i] == Next(rule, s[i - 1])
  }

  /** What the generator yields from n: n itself, then one step at a time
      while the current value exceeds 1, ending at the first value <= 1. */
  ghost predicate IsTrajectory(rule: Rule, s: seq<int>, n: int) {
    && |s| >= 1
    && s[0] == n
    && IsChain(rule, s)
    && (forall i :: 0 <= i < |s| - 1 ==> s[i] > 1)
    && s[|s| - 1] <= 1
  }

  /** colgen (Standard) or redcolgen (Reduced) materialised as a list, with
      at most `fuel` iterations of the while loop. */
  function Trajectory(rule: Rule, n: int, fuel: nat): (r: Result<seq<int>>)
    ensures r.Ok? ==> IsTrajectory(rule, r.value, n) && |r.value| <= fuel + 1
    ensures r.Err? ==> r.failure == OutOfFuel
    decreases fuel
  {
    if n <= 1 then Ok([n])
    else if fuel == 0 then Err(OutOfFuel)
    else
      match Trajectory(rule, Next(rule, n), fuel - 1)
      case Ok(t) => Ok([n] + t)
      case Err(f) => Err(f)
  }

  /** The trajectory is determined by its start. */
  lemma {:induction false} TrajectoryUnique(rule: Rule, s: seq<int>, t: seq<int>, n: int)
    requires IsTrajectory(rule, s, n) && IsTrajectory(rule, t, n)
    ensures s == t
    decreases |s|
  {
    if |s| == 1 || |t| == 1 {
      assert s[0] == t[0] == n;
    } else {
      TrajectoryTail(rule, s);
      TrajectoryTail(rule, t);
      TrajectoryUnique(rule, s[1..], t[1..], Next(rule, n));
      assert s == [s[0]] + s[1..];
      assert t == [t[0]] + t[1..];
    }
  }

  /** Dropping the first element of a chain leaves a chain. */
  lemma ChainTail(rule: Rule, s: seq<int>)
    requires |s| >= 1 && IsChain(rule, s)
    ensures IsChain(rule, s[1..])
  {
    forall i | 0 < i < |s| - 1
      ensures s[1..][i] == Next(rule, s[1..][i - 1])
    {
      assert s[1..][i] == s[i + 1] && s[1..][i - 1] == s[i];
    }
  }

  lemma TrajectoryTail(rule: Rule, s: seq<int>)
    requires |s| >= 2 && IsTrajectory(rule, s, s[0])
    ensures IsTrajectory(rule, s[1..], Next(rule, s[0]))
  {
    ChainTail(rule, s);
    assert s[1..][0] == s[1];
    assert forall i :: 0 <= i < |s| - 2 ==> s[1..][i] == s[i + 1];
  }

  /** The model never runs out of fuel when a trajectory short enough
      exists: together with Trajectory's own contract, Trajectory(rule, n,
      fuel) == Ok(s) exactly when s is the trajectory of n and has at most
      fuel + 1 elements. */
  lemma {:induction false} TrajectoryComplete(rule: Rule, s: seq<int>, n: int, fuel: nat)
    requires IsTrajectory(rule, s, n) && |s| <= fuel + 1
    ensures Trajectory(rule, n, fuel) == Ok(s)
    decreases fuel
  {
    if n <= 1 {
      assert s == [n];
    } else {
      assert |s| >= 2;
      TrajectoryTail(rule, s);
      TrajectoryComplete(rule, s[1..], Next(rule, n), fuel - 1);
      assert s == [n] + s[1..];
    }
  }

  /** Trajectory(rule, n, fuel) == Ok(s) if and only if s is n's trajectory
      and needs no more than fuel steps. */
  lemma TrajectoryCharacterized(rule: Rule, s: seq<int>, n: int, fuel: nat)
    ensures Trajectory(rule, n, fuel) == Ok(s) <==> IsTrajectory(rule, s, n) && |s| <= fuel + 1
  {
    if IsTrajectory(rule, s, n) && |s| <= fuel + 1 {
      TrajectoryComplete(rule, s, n, fuel);
    }
  }

  /** Starting from n >= 1 every element is positive, so the trajectory
      ends in exactly 1 and 1 occurs nowhere before the end. */
  lemma {:induction false} TrajectoryEndsAtOne(rule: Rule, s: seq<int>, n: int)
    requires n >= 1 && IsTrajectory(rule, s, n)
    ensures forall i :: 0 <= i < |s| ==> s[i] >= 1
    ensures s[|s| - 1] == 1
    ensures forall i :: 0 <= i < |s| - 1 ==> s[i] != 1
    decreases |s|
  {
    if |s| > 1 {
      TrajectoryTail(rule, s);
      NextPositive(rule, n);
      TrajectoryEndsAtOne(rule, s[1..], Next(rule, n));
      forall i | 0 < i < |s|
        ensures s[i] >= 1
      {
        assert s[i] == s[1..][i - 1];
      }
    }
  }

  /** tst: the number of elements of the standard trajectory, start and 1
      included. */
  function TotalStoppingTime(n: int, fuel: nat): (r: Result<nat>)
    ensures r.Ok? ==> 1 <= r.value <= fuel + 1
    ensures n <= 1 ==> r == Ok(1)
    ensures r.Err? ==> r.failure == OutOfFuel
  {
    match Trajectory(Standard, n, fuel)
    case Ok(s) => Ok(|s|)
    case Err(f) => Err(f)
  }

  /** tst(n) == k exactly when n's standard trajectory has k elements (and
      the budget allows its k - 1 steps). */
  lemma TotalStoppingTimeIsLength(n: int, fuel: nat, k: nat)
    ensures TotalStoppingTime(n, fuel) == Ok(k) <==>
            exists s :: IsTrajectory(Standard, s, n) && |s| == k && k <= fuel + 1
  {
    if TotalStoppingTime(n, fuel) == Ok(k) {
      var s := Trajectory(Standard, n, fuel).value;
      assert IsTrajectory(Standard, s, n) && |s| == k;
    }
    if exists s :: IsTrajectory(Standard, s, n) && |s| == k && k <= fuel + 1 {
      var s :| IsTrajectory(Standard, s, n) && |s| == k && k <= fuel + 1;
      TrajectoryComplete(Standard, s, n, fuel);
    }
  }

  /** The number of odd values among all elements but the last: the odd
      (two-raw-step) iterations of a reduced walk along s. */
  function OddSteps(s: seq<int>): (r: nat)
    ensures r <= if |s| == 0 then 0 else |s| - 1
    decreases |s|
  {
    if |s| <= 1 then 0
    else (if s[0] % 2 == 1 then 1 else 0) + OddSteps(s[1..])
  }

  /** Extending a walk by one value counts the old last value's parity. */
  lemma {:induction false} OddStepsAppend(s: seq<int>, x: int)
    requires |s| >= 1
    ensures OddSteps(s + [x]) == OddSteps(s) + (if s[|s| - 1] % 2 == 1 then 1 else 0)
    decreases |s|
  {
    if |s| > 1 {
      assert (s + [x])[1..] == s[1..] + [x];
      OddStepsAppend(s[1..], x);
    }
  }

  /** The example of colgen's documentation: C(10), and tst(10) == 7. */
  lemma StandardTenExample()
    ensures Trajectory(Standard, 10, 6) == Ok([10, 5, 16, 8, 4, 2, 1])
    ensures TotalStoppingTime(10, 6) == Ok(7)
  {
    var c := [10, 5, 16, 8, 4, 2, 1];
    assert IsTrajectory(Standard, c, 10);
    TrajectoryComplete(Standard, c, 10, 6);
  }

  /** The example of redcolgen's documentation: T(10). */
  lemma ReducedTenExample()
    ensures Trajectory(Reduced, 10, 5) == Ok([10, 5, 8, 4, 2, 1])
  {
    var t := [10, 5, 8, 4, 2, 1];
    assert IsTrajectory(Reduced, t, 10);
    TrajectoryComplete(Reduced, t, 10, 5);
  }

  /** Ten's trajectory has seven elements, so six iterations are needed:
      with a budget of five the model reports OutOfFuel. */
  lemma TenNeedsSixSteps()
    ensures Trajectory(Standard, 10, 5) == Err(OutOfFuel)
  {
    var c := [10, 5, 16, 8, 4, 2, 1];
    StandardTenExample();
    if Trajectory(Standard, 10, 5).Ok? {
      TrajectoryUnique(Standard, c, Trajectory(Standard, 10, 5).value, 10);
    }
  }
}

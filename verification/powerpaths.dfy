/** CtoPo2: the standard walk down to the first power of two
    (collatz.py:185-200). */
module PowerPaths {
  import opened Outcomes
  import opened Steps
  import opened Trajectories

  /** The values CtoPo2 appends: nothing when n is already a power of two,
      otherwise step(n) and on, one standard step at a time, ending at the
      first power of two. */
  ghost predicate IsPathToPowerOfTwo(s: seq<int>, n: int) {
    if IsPowerOfTwo(n) then s == []
    else
      && |s| >= 1
      && s[0] == Step(n)
      && IsChain(Standard, s)
      && IsPowerOfTwo(s[|s| - 1])
      && (forall i :: 0 <= i < |s| - 1 ==> !IsPowerOfTwo(s[i]))
  }

  /** CtoPo2 with at most `fuel` iterations; n != 0 because isPo2(0) never
      returns. */
  function PathToPowerOfTwo(n: int, fuel: nat): (r: Result<seq<int>>)
    requires n != 0
    ensures r.Ok? ==> IsPathToPowerOfTwo(r.value, n) && |r.value| <= fuel
    ensures r.Err? ==> r.failure == OutOfFuel
    decreases fuel
  {
    IsPo2Correct(n);
    StepNonZero(n);
    if IsPo2(n) then Ok([])
    else if fuel == 0 then Err(OutOfFuel)
    else
      match PathToPowerOfTwo(Step(n), fuel - 1)
      case Ok(s) =>
        assert forall i :: 0 < i < |s| ==> ([Step(n)] + s)[i] == s[i - 1];
        Ok([Step(n)] + s)
      case Err(f) => Err(f)
  }

  /** Conversely, a path to a power of two that fits the budget is what
      CtoPo2 returns: together with the function's contract,
      PathToPowerOfTwo(n, fuel) == Ok(s) exactly when s is n's path and
      |s| <= fuel. */
  lemma {:induction false} PathToPowerOfTwoComplete(s: seq<int>, n: int, fuel: nat)
    requires n != 0 && IsPathToPowerOfTwo(s, n) && |s| <= fuel
    ensures PathToPowerOfTwo(n, fuel) == Ok(s)
    decreases |s|
  {
    IsPo2Correct(n);
    StepNonZero(n);
    if !IsPowerOfTwo(n) {
      var rest := s[1..];
      assert s == [Step(n)] + rest;
      ChainTail(Standard, s);
      assert forall i :: 0 <= i < |rest| ==> rest[i] == s[i + 1];
      if |s| > 1 {
        assert !IsPowerOfTwo(s[0]);
        assert rest[0] == Step(s[0]);
      }
      assert IsPathToPowerOfTwo(rest, Step(n));
      PathToPowerOfTwoComplete(rest, Step(n), fuel - 1);
    }
  }

  /** 3 is not a power of two; its walk 10, 5, 16 stops at 16. */
  lemma ThreeExample()
    ensures PathToPowerOfTwo(3, 3) == Ok([10, 5, 16])
    ensures PathToPowerOfTwo(8, 0) == Ok([])
  {
    assert 16 == Pow(2, 4) && 8 == Pow(2, 3);
    OddPowerOfTwo(3);
    OddPowerOfTwo(5);
    EvenPowerOfTwo(10);
    assert IsPathToPowerOfTwo([10, 5, 16], 3);
    PathToPowerOfTwoComplete([10, 5, 16], 3, 3);
    PathToPowerOfTwoComplete([], 8, 0);
  }
}

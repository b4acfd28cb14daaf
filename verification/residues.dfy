/** The e/o counters of residue and completeness and the exact ratios they
    return (collatz.py:128-182). */
module Residues {
  import opened Outcomes
  import opened Steps
  import opened Trajectories

  /** The shared while loop of residue and completeness: e counts every
      iteration of the reduced walk until 1, o the iterations that start
      from an odd value. */
  function ParityCounts(n: int, fuel: nat): (r: Result<(nat, nat)>)
    ensures r.Ok? ==> r.value.1 <= r.value.0 <= fuel
    ensures r.Ok? ==> (r.value.0 == 0 <==> n == 1)
    ensures r.Err? ==> r.failure == OutOfFuel
    decreases fuel
  {
    if n == 1 then Ok((0, 0))
    else if fuel == 0 then Err(OutOfFuel)
    else
      match ParityCounts(ReducedStep(n), fuel - 1)
      case Ok(eo) => if n % 2 == 0 then Ok((eo.0 + 1, eo.1)) else Ok((eo.0 + 1, eo.1 + 1))
      case Err(f) => Err(f)
  }

  /** A reduced trajectory within the budget gives the counters: e is its
      number of steps |T(n)| - 1 and o the number of odd values among its
      first |T(n)| - 1 elements. */
  lemma {:induction false} CountsFromTrajectory(n: int, fuel: nat, t: seq<int>)
    requires n >= 1 && IsTrajectory(Reduced, t, n) && |t| <= fuel + 1
    ensures ParityCounts(n, fuel) == Ok((|t| - 1, OddSteps(t)))
    decreases fuel
  {
    if n > 1 {
      var m := ReducedStep(n);
      NextPositive(Reduced, n);
      TrajectoryTail(Reduced, t);
      var t' := t[1..];
      assert OddSteps(t) == (if n % 2 == 1 then 1 else 0) + OddSteps(t');
      CountsFromTrajectory(m, fuel - 1, t');
    }
  }

  /** When the counting loop finishes within a budget, so does T(n). */
  lemma {:induction false} TrajectoryFromCounts(n: int, fuel: nat)
    requires n >= 1 && ParityCounts(n, fuel).Ok?
    ensures Trajectory(Reduced, n, fuel).Ok?
    decreases fuel
  {
    if n > 1 {
      var m := ReducedStep(n);
      assert Next(Reduced, n) == m;
      NextPositive(Reduced, n);
      TrajectoryFromCounts(m, fuel - 1);
    }
  }

  /** For n >= 1 the counting loop finishes within a budget exactly when
      T(n) does, and then its counters are read off T(n). */
  lemma CountsMatchTrajectory(n: int, fuel: nat)
    requires n >= 1
    ensures ParityCounts(n, fuel).Ok? <==> Trajectory(Reduced, n, fuel).Ok?
    ensures ParityCounts(n, fuel).Ok? ==>
              var t := Trajectory(Reduced, n, fuel).value;
              ParityCounts(n, fuel).value == (|t| - 1, OddSteps(t))
  {
    if ParityCounts(n, fuel).Ok? {
      TrajectoryFromCounts(n, fuel);
    }
    if Trajectory(Reduced, n, fuel).Ok? {
      var t := Trajectory(Reduced, n, fuel).value;
      CountsFromTrajectory(n, fuel, t);
    }
  }

  /** From 0 the loop never finishes, so residue never reaches its division
      by 3^o * n with n = 0. */
  lemma {:induction false} ZeroNeverFinishes(fuel: nat)
    ensures ParityCounts(0, fuel) == Err(OutOfFuel)
    decreases fuel
  {
    if fuel > 0 {
      ZeroNeverFinishes(fuel - 1);
    }
  }

  /** 3^o * n <= 2^e along every finished walk from n >= 1: halving an even
      value doubles nothing away, and an odd value m is sent to (3m+1)/2,
      which exceeds 3m/2. */
  lemma {:induction false} CountsBound(n: int, fuel: nat, e: nat, o: nat)
    requires n >= 1 && ParityCounts(n, fuel) == Ok((e, o))
    ensures Pow(3, o) * n <= Pow(2, e)
    decreases fuel
  {
    if n != 1 {
      var m := ReducedStep(n);
      NextPositive(Reduced, n);
      var (e', o') := ParityCounts(m, fuel - 1).value;
      CountsBound(m, fuel - 1, e', o');
      assert e == e' + 1;
      assert Pow(2, e) == 2 * Pow(2, e');
      if n % 2 == 0 {
        assert o == o';
        EvenStepBound(Pow(3, o), n, m, Pow(2, e'));
      } else {
        assert o == o' + 1;
        assert Pow(3, o) == 3 * Pow(3, o');
        OddStepBound(Pow(3, o'), n, m, Pow(2, e'));
      }
    }
  }

  lemma EvenStepBound(p: nat, n: int, m: int, q: nat)
    requires n == 2 * m && p * m <= q
    ensures p * n <= 2 * q
  {
  }

  lemma OddStepBound(p: nat, n: int, m: int, q: nat)
    requires 3 * n < 2 * m && p * m <= q
    ensures (3 * p) * n <= 2 * q
  {
    assert (3 * p) * n == p * (3 * n);
    assert p * (3 * n) <= p * (2 * m);
  }

  /** Only 2 reaches 1 in one reduced step, and 2 is even, so from n > 1 at
      least one iteration is even: o < e. */
  lemma {:induction false} CountsOddBelowEven(n: int, fuel: nat, e: nat, o: nat)
    requires n > 1 && ParityCounts(n, fuel) == Ok((e, o))
    ensures o < e
    decreases fuel
  {
    var m := ReducedStep(n);
    NextPositive(Reduced, n);
    if m != 1 {
      var (e', o') := ParityCounts(m, fuel - 1).value;
      CountsOddBelowEven(m, fuel - 1, e', o');
    }
  }

  /** residue: 2^e / (3^o * n), as an exact rational instead of a float.
      It is 1 at n = 1 and never below 1 for n >= 1. */
  function Residue(n: int, fuel: nat): (r: Result<real>)
    ensures n == 1 ==> r == Ok(1.0)
    ensures r.Ok? && n >= 1 ==> r.value >= 1.0
    ensures r.Err? ==> r.failure == OutOfFuel || n == 0
  {
    match ParityCounts(n, fuel)
    case Ok((e, o)) =>
      var num := Pow(2, e);
      var den := Pow(3, o) * n;
      if den == 0 then Err(DivisionByZero)
      else
        CountsBoundIfPositive(n, fuel, e, o);
        RatioAtLeastOne(num, den);
        Ok((num as real) / (den as real))
    case Err(f) => Err(f)
  }

  lemma CountsBoundIfPositive(n: int, fuel: nat, e: nat, o: nat)
    requires ParityCounts(n, fuel) == Ok((e, o))
    ensures n >= 1 ==> Pow(3, o) * n <= Pow(2, e)
  {
    if n >= 1 {
      CountsBound(n, fuel, e, o);
    }
  }

  lemma RatioAtLeastOne(a: int, b: int)
    ensures 0 < b <= a ==> (a as real) / (b as real) >= 1.0
  {
  }

  /** The product of 3 * s[i] + c over the odd values s[i] before the last
      one: with c = 1 and c = 0 the numerator and denominator of the
      product of (1 + 1/(3 s[i])) that defines Res(N). */
  function OddProd(s: seq<int>, c: int): int
    decreases |s|
  {
    if |s| <= 1 then 1
    else (if s[0] % 2 == 1 then 3 * s[0] + c else 1) * OddProd(s[1..], c)
  }

  /** Along the reduced trajectory t of n >= 1, 2^E(N) * OddProd(t, 0) ==
      3^O(N) * N * OddProd(t, 1): the identity 2^E = 3^O * N * Res(N) with
      the product's denominator cleared. */
  lemma {:induction false} ResidueIdentity(t: seq<int>, n: int)
    requires n >= 1 && IsTrajectory(Reduced, t, n)
    ensures Pow(2, |t| - 1) * OddProd(t, 0) == Pow(3, OddSteps(t)) * n * OddProd(t, 1)
    decreases |t|
  {
    if |t| > 1 {
      var m := ReducedStep(n);
      NextPositive(Reduced, n);
      TrajectoryTail(Reduced, t);
      var t' := t[1..];
      ResidueIdentity(t', m);
      var a, p0, b, p1 := Pow(2, |t'| - 1), OddProd(t', 0), Pow(3, OddSteps(t')), OddProd(t', 1);
      assert Pow(2, |t| - 1) == 2 * a;
      if n % 2 == 0 {
        assert OddProd(t, 0) == p0 && OddProd(t, 1) == p1 && OddSteps(t) == OddSteps(t');
        EvenGlue(a, p0, b, m, p1);
      } else {
        assert OddProd(t, 0) == (3 * n) * p0 && OddProd(t, 1) == (3 * n + 1) * p1;
        assert OddSteps(t) == OddSteps(t') + 1 && Pow(3, OddSteps(t)) == 3 * b;
        OddGlue(a, p0, b, m, p1, n);
      }
    }
  }

  /** Over positive values both products are positive. */
  lemma {:induction false} OddProdPositive(t: seq<int>)
    requires forall i :: 0 <= i < |t| ==> t[i] >= 1
    ensures OddProd(t, 0) >= 1 && OddProd(t, 1) >= 1
    decreases |t|
  {
    if |t| > 1 {
      var t' := t[1..];
      assert forall i :: 0 <= i < |t'| ==> t'[i] == t[i + 1];
      OddProdPositive(t');
      if t[0] % 2 == 1 {
        PositiveProduct(3 * t[0], OddProd(t', 0));
        PositiveProduct(3 * t[0] + 1, OddProd(t', 1));
      }
    }
  }

  lemma EvenGlue(a: int, p0: int, b: int, m: int, p1: int)
    requires a * p0 == b * m * p1
    ensures (2 * a) * p0 == b * (2 * m) * p1
  {
  }

  lemma OddGlue(a: int, p0: int, b: int, m: int, p1: int, n: int)
    requires a * p0 == b * m * p1 && 2 * m == 3 * n + 1
    ensures (2 * a) * ((3 * n) * p0) == (3 * b) * n * ((3 * n + 1) * p1)
  {
  }

  /** a / b == c / d when a * d == b * c. */
  lemma CrossRatio(a: int, b: int, c: int, d: int)
    requires b >= 1 && d >= 1 && a * d == b * c
    ensures (a as real) / (b as real) == (c as real) / (d as real)
  {
  }

  lemma PositiveProduct(a: int, b: int)
    requires a >= 1 && b >= 1
    ensures a * b >= 1
  {
  }

  /** residue returns Res(N): for n >= 1 it answers exactly when T(n)
      finishes within the budget, and then its value is the product of
      1 + 1/(3 s) = (3 s + 1)/(3 s) over the odd values s of T(n) before
      the last, written as one fraction. */
  lemma ResidueIsProduct(n: int, fuel: nat)
    requires n >= 1
    ensures Residue(n, fuel).Ok? <==> Trajectory(Reduced, n, fuel).Ok?
    ensures Residue(n, fuel).Ok? ==>
              var t := Trajectory(Reduced, n, fuel).value;
              OddProd(t, 0) >= 1 &&
              Residue(n, fuel).value == (OddProd(t, 1) as real) / (OddProd(t, 0) as real)
  {
    CountsMatchTrajectory(n, fuel);
    if Trajectory(Reduced, n, fuel).Ok? {
      var t := Trajectory(Reduced, n, fuel).value;
      var e, o := |t| - 1, OddSteps(t);
      ResidueIdentity(t, n);
      TrajectoryEndsAtOne(Reduced, t, n);
      OddProdPositive(t);
      PositiveProduct(Pow(3, o), n);
      assert Pow(3, o) * n >= 1;
      CrossRatio(Pow(2, e), Pow(3, o) * n, OddProd(t, 1), OddProd(t, 0));
    }
  }

  /** completeness: o / e as an exact rational.  At n = 1 no iteration runs
      and the division fails; for n > 1 the ratio lies in [0, 1). */
  function Completeness(n: int, fuel: nat): (r: Result<real>)
    ensures n == 1 ==> r == Err(DivisionByZero)
    ensures r == Err(DivisionByZero) ==> n == 1
    ensures r.Ok? && n >= 1 ==> 0.0 <= r.value < 1.0
  {
    match ParityCounts(n, fuel)
    case Ok((e, o)) =>
      if e == 0 then Err(DivisionByZero)
      else
        CompletenessBelowOne(n, fuel, e, o);
        Ok((o as real) / (e as real))
    case Err(f) => Err(f)
  }

  lemma CompletenessBelowOne(n: int, fuel: nat, e: nat, o: nat)
    requires ParityCounts(n, fuel) == Ok((e, o)) && e != 0
    ensures n >= 1 ==> 0.0 <= (o as real) / (e as real) < 1.0
  {
    if n > 1 {
      CountsOddBelowEven(n, fuel, e, o);
    }
  }

  /** completeness returns C(N) = O(N) / E(N) read off T(n): for n > 1 it
      answers exactly when T(n) finishes within the budget, and then its
      value is the number of odd values before the last over the number of
      steps. */
  lemma CompletenessIsRatio(n: int, fuel: nat)
    requires n > 1
    ensures Completeness(n, fuel).Ok? <==> Trajectory(Reduced, n, fuel).Ok?
    ensures Completeness(n, fuel).Ok? ==>
              var t := Trajectory(Reduced, n, fuel).value;
              Completeness(n, fuel).value == (OddSteps(t) as real) / ((|t| - 1) as real)
  {
    CountsMatchTrajectory(n, fuel);
  }

  /** T(10) = 10, 5, 8, 4, 2, 1 has e = 5 and o = 1. */
  lemma TenCounts()
    ensures ParityCounts(10, 5) == Ok((5, 1))
  {
    var t := [10, 5, 8, 4, 2, 1];
    assert IsTrajectory(Reduced, t, 10);
    assert OddSteps(t) == 1;
    CountsFromTrajectory(10, 5, t);
  }
}

/** st: the stopping time (collatz.py:100-125). */
module StoppingTimes {
  import opened Outcomes
  import opened Steps
  import opened Trajectories

  /** A reduced walk from n that stays at or above n until its last value,
      which is the first one strictly below n. */
  ghost predicate IsDescent(p: seq<int>, n: int) {
    && |p| >= 2
    && p[0] == n
    && IsChain(Reduced, p)
    && p[|p| - 1] < n
    && (forall i :: 0 <= i < |p| - 1 ==> p[i] >= n)
  }

  /** The number of standard steps a reduced walk stands for: one per
      iteration, plus one more for every odd value halved at once. */
  function RawSteps(p: seq<int>): nat
    requires |p| >= 1
  {
    (|p| - 1) + OddSteps(p)
  }

  /** st: even starts answer 1 at once; odd starts run the reduced walk. */
  function StoppingTime(n: int, fuel: nat): (r: Result<nat>)
    ensures n % 2 == 0 ==> r == Ok(1)
    ensures n == 1 ==> r == Ok(0)
    ensures r.Err? ==> r.failure == OutOfFuel
  {
    if n % 2 == 0 then Ok(1) else DescentWalk(n, n, 0, fuel)
  }

  /** The while loop of st: m is the current value, k the counter, and the
      loop runs while m != 1, leaving at the first halving below start. */
  function DescentWalk(start: int, m: int, k: nat, fuel: nat): (r: Result<nat>)
    ensures r.Ok? ==> r.value >= k
    ensures r.Err? ==> r.failure == OutOfFuel
    decreases fuel
  {
    if m == 1 then Ok(k)
    else if fuel == 0 then Err(OutOfFuel)
    else if m % 2 == 0 then
      if m / 2 < start then Ok(k + 1) else DescentWalk(start, m / 2, k + 1, fuel - 1)
    else DescentWalk(start, (3 * m + 1) / 2, k + 2, fuel - 1)
  }

  /** A walk under way: starts at start and has not yet gone below it. */
  ghost predicate IsClimb(q: seq<int>, start: int) {
    && |q| >= 1
    && q[0] == start
    && IsChain(Reduced, q)
    && (forall i :: 0 <= i < |q| ==> q[i] >= start)
  }

  lemma ClimbExtend(q: seq<int>, start: int)
    requires IsClimb(q, start)
    ensures IsChain(Reduced, q + [ReducedStep(q[|q| - 1])])
    ensures RawSteps(q + [ReducedStep(q[|q| - 1])]) ==
            RawSteps(q) + (if q[|q| - 1] % 2 == 1 then 2 else 1)
  {
    OddStepsAppend(q, ReducedStep(q[|q| - 1]));
  }

  /** Whatever the walk answers is the raw length of a descent. */
  lemma {:induction false} DescentWalkSound(start: int, q: seq<int>, k: nat, fuel: nat, k': nat)
    requires start > 1 && IsClimb(q, start) && k == RawSteps(q)
    requires DescentWalk(start, q[|q| - 1], k, fuel) == Ok(k')
    ensures exists p :: IsDescent(p, start) && |p| <= |q| + fuel && k' == RawSteps(p)
    decreases fuel
  {
    var m := q[|q| - 1];
    var q' := q + [ReducedStep(m)];
    ClimbExtend(q, start);
    if m % 2 == 0 && m / 2 < start {
      assert IsDescent(q', start);
    } else {
      assert m % 2 == 1 ==> (3 * m + 1) / 2 > m;
      assert IsClimb(q', start);
      DescentWalkSound(start, q', k + (if m % 2 == 1 then 2 else 1), fuel - 1, k');
    }
  }

  /** Along a descent p the walk, resumed at p[j], answers p's raw length. */
  lemma {:induction false} DescentWalkComplete(start: int, p: seq<int>, j: nat, fuel: nat)
    requires start > 1 && IsDescent(p, start) && j < |p| - 1
    requires |p| - 1 - j <= fuel
    ensures DescentWalk(start, p[j], RawSteps(p[..j + 1]), fuel) == Ok(RawSteps(p))
    decreases |p| - j
  {
    var q := p[..j + 1];
    assert q[..j + 1] == q && q[|q| - 1] == p[j];
    assert IsClimb(q, start);
    ClimbExtend(q, start);
    assert p[..j + 2] == q + [ReducedStep(p[j])];
    if p[j] % 2 == 1 {
      assert p[j + 1] > p[j];
    }
    if j + 1 == |p| - 1 {
      assert p[..j + 2] == p;
    } else {
      DescentWalkComplete(start, p, j + 1, fuel - 1);
    }
  }

  /** For odd n > 1, st(n, fuel) == k exactly when the first descent below
      n has raw length k and takes at most fuel iterations. */
  lemma StoppingTimeOdd(n: int, fuel: nat, k: nat)
    requires n > 1 && n % 2 == 1
    ensures StoppingTime(n, fuel) == Ok(k) <==>
            exists p :: IsDescent(p, n) && |p| - 1 <= fuel && k == RawSteps(p)
  {
    if StoppingTime(n, fuel) == Ok(k) {
      assert IsClimb([n], n);
      DescentWalkSound(n, [n], 0, fuel, k);
    }
    if exists p :: IsDescent(p, n) && |p| - 1 <= fuel && k == RawSteps(p) {
      var p :| IsDescent(p, n) && |p| - 1 <= fuel && k == RawSteps(p);
      assert p[..1] == [n];
      DescentWalkComplete(n, p, 0, fuel);
    }
  }

  /** A reduced walk from x that stays at or above n >= 1 until its last
      value stands for RawSteps(q) standard steps from x to that last value,
      and every standard step along the way, the 3m+1 in between included,
      is at or above n. */
  lemma {:induction false} ChainIterate(q: seq<int>, n: int)
    requires n >= 1 && |q| >= 1 && IsChain(Reduced, q)
    requires forall i :: 0 <= i < |q| - 1 ==> q[i] >= n
    ensures Iterate(q[0], RawSteps(q)) == q[|q| - 1]
    ensures forall j :: 0 <= j < RawSteps(q) ==> Iterate(q[0], j) >= n
    decreases |q|
  {
    if |q| > 1 {
      var x := q[0];
      var q' := q[1..];
      ChainTail(Reduced, q);
      assert forall i :: 0 <= i < |q'| - 1 ==> q'[i] == q[i + 1];
      ChainIterate(q', n);
      var d: nat := if x % 2 == 1 then 2 else 1;
      assert RawSteps(q) == d + RawSteps(q');
      assert Iterate(x, d) == q'[0];
      IterateAdd(x, d, RawSteps(q'));
      forall j | 0 <= j < RawSteps(q)
        ensures Iterate(x, j) >= n
      {
        if j >= d {
          IterateAdd(x, d, j - d);
        } else if j == 1 {
          assert Iterate(x, 1) == 3 * x + 1;
        }
      }
    }
  }

  /** A descent's raw length is the stopping time in standard steps: after
      RawSteps(p) standard steps the value is below the start for the first
      time. */
  lemma DescentDropsBelowStart(p: seq<int>, n: int)
    requires n > 1 && IsDescent(p, n)
    ensures Iterate(n, RawSteps(p)) < n
    ensures forall j :: 0 <= j < RawSteps(p) ==> Iterate(n, j) >= n
  {
    ChainIterate(p, n);
  }

  /** What st answers for n > 1 is the number of standard steps until the
      value first drops below n. */
  lemma StoppingTimeFirstDrop(n: int, fuel: nat, k: nat)
    requires n > 1 && StoppingTime(n, fuel) == Ok(k)
    ensures Iterate(n, k) < n
    ensures forall j :: 0 <= j < k ==> Iterate(n, j) >= n
  {
    if n % 2 == 0 {
      assert k == 1 && Iterate(n, 1) == n / 2;
    } else {
      StoppingTimeOdd(n, fuel, k);
      var p :| IsDescent(p, n) && |p| - 1 <= fuel && k == RawSteps(p);
      DescentDropsBelowStart(p, n);
    }
  }

  /** A start has at most one descent, so once the budget suffices st's
      answer does not depend on it. */
  lemma {:induction false} DescentUnique(p: seq<int>, p': seq<int>, n: int)
    requires IsDescent(p, n) && IsDescent(p', n)
    ensures p == p'
  {
    var j := 0;
    while j < |p| - 1 && j < |p'| - 1
      invariant 0 <= j < |p| && j < |p'|
      invariant p[..j + 1] == p'[..j + 1]
    {
      assert p[j + 1] == ReducedStep(p[j]) == p'[j + 1];
      assert p[..j + 2] == p[..j + 1] + [p[j + 1]];
      assert p'[..j + 2] == p'[..j + 1] + [p'[j + 1]];
      j := j + 1;
    }
    assert p[j] == p'[j];
    assert |p| - 1 == j == |p'| - 1;
    assert p == p[..j + 1] && p' == p'[..j + 1];
  }

  /** For an even n >= 2 the descent is the single halving [n, n/2], whose
      raw length 1 is what st answers without walking. */
  lemma StoppingTimeEven(n: int, fuel: nat, p: seq<int>)
    requires n >= 2 && n % 2 == 0 && IsDescent(p, n)
    ensures p == [n, n / 2]
    ensures StoppingTime(n, fuel) == Ok(RawSteps(p))
  {
    assert p[1] == n / 2 < n;
    assert |p| == 2;
  }

  /** st(3) == 6: the descent 3, 5, 8, 4, 2 has four iterations, two of
      them from odd values, standing for 3, 10, 5, 16, 8, 4, 2. */
  lemma StoppingTimeThree()
    ensures StoppingTime(3, 4) == Ok(6)
  {
    var p := [3, 5, 8, 4, 2];
    assert IsDescent(p, 3);
    assert OddSteps(p) == 2;
    StoppingTimeOdd(3, 4, 6);
  }
}

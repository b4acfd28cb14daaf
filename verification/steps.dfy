/** The Collatz map, its reduced form, k-fold iteration and powers of two
    (collatz.py: the loop bodies of colgen/redcolgen and isPo2). */
module Steps {

  /** The standard step: n/2 for even n, 3n+1 for odd n.  Every floor division
      (`//`) in the source is exact, so Dafny's Euclidean `/` and `%` agree with
      Python's `//` and `%` on every integer. */
  function Step(n: int): (r: int)
    ensures n % 2 == 1 ==> r % 2 == 0
    ensures n >= 1 ==> r >= 1
  {
    if n % 2 == 0 then n / 2 else 3 * n + 1
  }

  /** The reduced step: the odd branch halves 3n+1 at once. */
  function ReducedStep(n: int): (r: int)
    ensures n % 2 == 1 ==> 2 * r == 3 * n + 1 && r == Step(Step(n))
    ensures n % 2 == 0 ==> r == Step(n)
  {
    if n % 2 == 0 then n / 2 else (3 * n + 1) / 2
  }

  /** Which of the two rules a walk follows (colgen versus redcolgen). */
  datatype Rule = Standard | Reduced

  /** One iteration of the chosen rule stands for one standard step, or two
      when the reduced rule halves 3n+1 at once. */
  function Next(rule: Rule, n: int): (r: int)
    ensures r == Iterate(n, if rule == Reduced && n % 2 == 1 then 2 else 1)
  {
    match rule
    case Standard => Step(n)
    case Reduced => ReducedStep(n)
  }

  /** A positive value stays positive under either rule, and only 2 is
      sent to 1, by either rule. */
  lemma NextPositive(rule: Rule, n: int)
    requires n >= 1
    ensures Next(rule, n) >= 1
    ensures Next(rule, n) == 1 ==> n == 2
  {
  }

  /** Zero is the only integer sent to zero. */
  lemma StepNonZero(n: int)
    requires n != 0
    ensures Step(n) != 0
  {
  }

  /** k applications of the standard step. */
  function Iterate(x: int, k: nat): int
    decreases k
  {
    if k == 0 then x else Iterate(Step(x), k - 1)
  }

  /** a + b steps are a steps followed by b steps. */
  lemma {:induction false} IterateAdd(x: int, a: nat, b: nat)
    ensures Iterate(x, a + b) == Iterate(Iterate(x, a), b)
    decreases a
  {
    if a > 0 {
      IterateAdd(Step(x), a - 1, b);
    }
  }

  function Pow(b: nat, k: nat): (r: nat)
    ensures b >= 1 ==> r >= 1
    decreases k
  {
    if k == 0 then 1 else b * Pow(b, k - 1)
  }

  ghost predicate IsPowerOfTwo(n: int) {
    exists k: nat :: n == Pow(2, k)
  }

  /** The value isPo2's loop leaves behind: n with every factor 2 removed. */
  function OddPart(n: int): (m: int)
    requires n != 0
    ensures m % 2 == 1
    ensures m > 0 <==> n > 0
    decreases if n < 0 then -n else n
  {
    if n % 2 == 0 then OddPart(n / 2) else n
  }

  /** n is its odd part times a power of two. */
  lemma {:induction false} OddPartFactor(n: int) returns (k: nat)
    requires n != 0
    ensures n == OddPart(n) * Pow(2, k)
    decreases if n < 0 then -n else n
  {
    if n % 2 == 0 {
      var j := OddPartFactor(n / 2);
      k := j + 1;
      var m := OddPart(n / 2);
      var p := Pow(2, j);
      assert Pow(2, k) == 2 * p;
      assert n == 2 * (m * p);
      DoubleFactor(m, p);
    } else {
      k := 0;
    }
  }

  lemma DoubleFactor(a: int, p: int)
    ensures 2 * (a * p) == a * (2 * p)
  {
  }

  /** isPo2: strip factors of two, then ask whether 1 is left.  A negative
      number is never a power of two, and an odd one is one only when it
      is 1. */
  function IsPo2(n: int): (b: bool)
    requires n != 0
    ensures b ==> n > 0
    ensures n % 2 == 1 ==> (b <==> n == 1)
  {
    OddPart(n) == 1
  }

  lemma {:induction false} PowTwoParity(k: nat)
    ensures Pow(2, k) % 2 == (if k == 0 then 1 else 0)
  {
  }

  lemma OddPowerOfTwo(n: int)
    requires n % 2 == 1
    ensures IsPowerOfTwo(n) <==> n == 1
  {
    if IsPowerOfTwo(n) {
      var k: nat :| n == Pow(2, k);
      PowTwoParity(k);
      assert k == 0;
    } else {
      assert 1 == Pow(2, 0);
    }
  }

  lemma EvenPowerOfTwo(n: int)
    requires n % 2 == 0
    ensures IsPowerOfTwo(n) <==> IsPowerOfTwo(n / 2)
  {
    if IsPowerOfTwo(n) {
      var k: nat :| n == Pow(2, k);
      assert k > 0;
      assert n / 2 == Pow(2, k - 1);
    }
    if IsPowerOfTwo(n / 2) {
      var k: nat :| n / 2 == Pow(2, k);
      assert n == Pow(2, k + 1);
    }
  }

  /** isPo2(n) holds exactly when n is 2^k for some k >= 0. */
  lemma {:induction false} IsPo2Correct(n: int)
    requires n != 0
    ensures IsPo2(n) <==> IsPowerOfTwo(n)
    decreases if n < 0 then -n else n
  {
    if n % 2 == 0 {
      EvenPowerOfTwo(n);
      IsPo2Correct(n / 2);
    } else {
      OddPowerOfTwo(n);
    }
  }

  /** isPo2(16) holds and isPo2(10) does not. */
  lemma IsPo2Examples()
    ensures IsPo2(16) && !IsPo2(10)
  {
  }
}

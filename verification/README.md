# Collatz sequences and up-trees, modelled in Dafny

This project models `collatz.py`, a small library about the Collatz (3n+1) map. It has two parts:

- **Sequence engine.** This part iterates the standard step (n/2 for even n, 3n+1 for odd n) or the reduced step ((3n+1)/2 for odd n). It builds:
  - the trajectories `colgen`/`C` and `redcolgen`/`T`;
  - the total stopping time `tst` and the stopping time `st`;
  - the even/odd counters behind `residue` and `completeness`;
  - `CtoPo2`, the walk down to the first power of two, which uses `isPo2`.
- **Tree expander.** `uptree` inverts one standard step. `Tree.tree` grows the inverse tree generation by generation. It returns the sorted numbers, with duplicates kept, and the generations in production order.

Modules follow these components:

- `Steps` (`steps.dfy`): the steps, k-fold iteration, powers of two and `isPo2`.
- `Trajectories` (`trajectories.dfy`): `colgen`, `redcolgen`, `C`, `T` and `tst`.
- `StoppingTimes` (`stopping.dfy`): `st`.
- `Residues` (`residues.dfy`): `residue` and `completeness`.
- `PowerPaths` (`powerpaths.dfy`): `CtoPo2`.
- `UpTrees` (`uptrees.dfy`): `uptree` and `Tree.tree`.
- `Sorting` (`sorting.dfy`): the ordering `sorted` provides.
- `Outcomes` (`outcomes.dfy`): the result type.

Every loop that runs "until 1" or "until a power of two" ends only if the Collatz conjecture holds. Each such loop is therefore a function with an iteration budget (`fuel`). It returns `Err(OutOfFuel)` when the budget runs out. A relational predicate describes what the loop computes: `IsTrajectory`, `IsDescent` or `IsPathToPowerOfTwo`. An if-and-only-if lemma then shows that the function answers `Ok(x)` exactly when `x` satisfies the predicate within the budget. So the model never answers wrongly. It only declines when the budget is too small.

Values are `int`, as in the source. Every floor division (`//`) the source performs is exact: `n // 2` on even n, `(3n+1) // 2` on odd n, and `(n-1) // 3` when `n % 6 == 4`. Dafny's `/` and `%` therefore agree with Python's `//` and `%` on every integer. Every function except `isPo2` and `CtoPo2` accepts any integer and follows the code; those two require n != 0 (see "## Left out"). Only the lemmas about meaning assume n >= 1.

## Model

| member | source | states |
|---|---|---|
| Steps.Step | collatz.py:46-51 | The standard step of an odd value is even, which is why the reduced step may halve it at once. From n >= 1 the step stays positive. |
| Steps.Next | collatz.py:67-73 | One iteration of colgen's loop is one standard step. One iteration of redcolgen's loop is two standard steps on odd values and one on even values. |
| Steps.ReducedStep | collatz.py:68-72 | For odd n, 3n+1 is even, so the reduced step's halving is exact. The reduced step then equals two standard steps. On even n it is the standard step. |
| Steps.NextPositive | collatz.py:46-51 | From n >= 1 either step gives a positive value. The only value sent to 1 is 2. |
| Steps.StepNonZero | collatz.py:192-198 | A nonzero value never steps to 0, so CtoPo2 never asks isPo2 about 0. |
| Steps.OddPart | collatz.py:26-27 | isPo2's halving loop stops at an odd value. |
| Steps.OddPartFactor | collatz.py:26-27 | The loop only removes factors of two: n equals the value left times 2^k. |
| Steps.IsPo2 | collatz.py:22-32 | isPo2 is never true of a negative number. On an odd number it is true exactly for 1. |
| Steps.IsPo2Correct | collatz.py:22-32 | For n != 0, isPo2(n) holds exactly when n = 2^k for some k >= 0. |
| Steps.IsPo2Examples | collatz.py:22-32 | isPo2(16) holds and isPo2(10) does not. |
| Trajectories.IsTrajectory | collatz.py:45-51 | What colgen and redcolgen yield from n: n first, each later value the rule's step of the one before, every value but the last above 1, the last at most 1. |
| Trajectories.Trajectory | collatz.py:34-73 | A successful answer is the trajectory of n under the chosen rule. It starts with n, and each element is the rule's step of the one before. Every element but the last exceeds 1, and the last is at most 1. It takes at most fuel steps. Running out of fuel is the only failure. |
| Trajectories.TrajectoryCharacterized | collatz.py:75-89 | C and T succeed with s exactly when s is n's trajectory and has at most fuel + 1 elements. |
| Trajectories.TrajectoryComplete | collatz.py:75-89 | Any trajectory of n that fits the budget is what C or T returns. |
| Trajectories.TrajectoryUnique | collatz.py:45-51 | Two trajectories from the same start under the same rule are equal. |
| Trajectories.TrajectoryEndsAtOne | collatz.py:45-51 | For n >= 1 every element is positive. The trajectory ends in exactly 1, and 1 occurs nowhere before the end. |
| Trajectories.TotalStoppingTime | collatz.py:91-98 | tst is between 1 and fuel + 1. It is 1 for n <= 1, so tst(1) == 1. |
| Trajectories.TotalStoppingTimeIsLength | collatz.py:91-98 | tst(n) == k exactly when n's standard trajectory has k elements and the budget covers its k - 1 steps. |
| Trajectories.OddSteps | collatz.py:146-153 | The number of odd values among all but the last element is at most the number of steps. |
| Trajectories.StandardTenExample | collatz.py:39-43 | C(10) == [10, 5, 16, 8, 4, 2, 1] and tst(10) == 7. |
| Trajectories.ReducedTenExample | collatz.py:61-65 | T(10) == [10, 5, 8, 4, 2, 1]. |
| Trajectories.TenNeedsSixSteps | collatz.py:46-51 | A budget of five iterations is too small for 10. |
| StoppingTimes.IsDescent | collatz.py:115-122 | The values st's loop visits: a reduced walk from the start that stays at or above the start until its last value, which is the first value below it. |
| StoppingTimes.StoppingTime | collatz.py:107-110 | st(n) == 1 for every even n, and st(1) == 0. |
| StoppingTimes.DescentWalk | collatz.py:112-125 | The counter never decreases along st's loop. Running out of fuel is the only failure. |
| StoppingTimes.DescentWalkSound | collatz.py:115-125 | Every answer the loop gives for a start > 1 is the raw length of a descent from the start. A descent stays at or above the start until its last value, which is the first value below the start. Its raw length counts one per iteration plus one per odd value. |
| StoppingTimes.DescentWalkComplete | collatz.py:115-125 | Resumed anywhere along a descent that fits the budget, the loop answers that descent's raw length. |
| StoppingTimes.StoppingTimeOdd | collatz.py:112-125 | For odd n > 1, st(n) == k exactly when some descent from n takes at most fuel iterations and has raw length k. Each odd iteration adds 2 and each even iteration adds 1. |
| StoppingTimes.ChainIterate | collatz.py:115-122 | A reduced walk staying at or above n stands for RawSteps standard steps from its first value to its last. Every standard value in between is at or above n, the 3m+1 of odd values included. |
| StoppingTimes.DescentDropsBelowStart | collatz.py:100-125 | A descent's raw length k is the stopping time in standard steps: after k standard steps the value is below the start, and after fewer it is not. |
| StoppingTimes.StoppingTimeFirstDrop | collatz.py:100-125 | For n > 1, st(n) == k means that k standard steps take n below n for the first time. This holds for even and odd n. |
| StoppingTimes.DescentUnique | collatz.py:115-122 | A start has at most one descent, so st's answer does not depend on the budget once the budget suffices. |
| StoppingTimes.StoppingTimeEven | collatz.py:107-110 | For even n >= 2 the only descent is [n, n/2]. Its raw length 1 is what st answers. |
| StoppingTimes.StoppingTimeThree | collatz.py:112-125 | st(3) == 6, through the descent 3, 5, 8, 4, 2. |
| Residues.ParityCounts | collatz.py:142-153 | o <= e <= fuel. e is 0 exactly when n == 1. Running out of fuel is the only failure. |
| Residues.CountsFromTrajectory | collatz.py:146-153 | For n >= 1, a reduced trajectory within the budget gives e = len(T(n)) - 1. It gives o = the number of odd values among the first len(T(n)) - 1 elements. |
| Residues.TrajectoryFromCounts | collatz.py:146-153 | When the counting loop finishes within a budget, so does T(n). |
| Residues.CountsMatchTrajectory | collatz.py:129-136 | For n >= 1 the counting loop finishes exactly when T(n) does. Its counters are then E(N) and O(N) read off T(n). |
| Residues.ZeroNeverFinishes | collatz.py:146-155 | From 0 the counting loop never finishes, so residue never divides by 3^o * 0. |
| Residues.CountsBound | collatz.py:133-136 | 3^o * n <= 2^e for every finished count from n >= 1. So the residue factor Res(N) is at least 1. |
| Residues.CountsOddBelowEven | collatz.py:171-180 | For n > 1, o < e. |
| Residues.Residue | collatz.py:155-157 | residue(1) == 1. For n >= 1 the exact ratio 2^e / (3^o * n) is at least 1. Only n == 0 or running out of fuel gives no answer. |
| Residues.ResidueIdentity | collatz.py:129-136 | Along T(n), 2^E(N) · Π(3s) == 3^O(N) · N · Π(3s+1), both products over the odd values s before the last. This is 2^E = 3^O · N · Res(N) with the denominator cleared. |
| Residues.ResidueIsProduct | collatz.py:129-141 | For n >= 1 residue answers exactly when T(n) finishes. Its answer is Res(N), the product of 1 + 1/(3s) = (3s+1)/(3s) over the odd values s of T(n) before the last, written as one fraction. |
| Residues.CompletenessIsRatio | collatz.py:160-182 | For n > 1 completeness answers exactly when T(n) finishes. Its answer is C(N) = O(N)/E(N): the number of odd values of T(n) before the last over the number of steps. |
| Residues.Completeness | collatz.py:180-182 | completeness(1) fails with a division by zero, and no other input does. For n >= 1 the ratio o / e lies in [0, 1). |
| Residues.TenCounts | collatz.py:146-153 | For 10, e = 5 and o = 1. |
| PowerPaths.IsPathToPowerOfTwo | collatz.py:190-200 | What CtoPo2 returns: empty when n is a power of two. Otherwise the standard walk from step(n) to the first power of two, n itself left out. |
| PowerPaths.PathToPowerOfTwo | collatz.py:185-200 | A successful answer is `[]` when n is a power of two. Otherwise it starts with step(n), and each element is the standard step of the one before. It ends at a power of two, and no earlier element is a power of two. It has at most fuel elements. |
| PowerPaths.PathToPowerOfTwoComplete | collatz.py:192-200 | Any such path within the budget is what CtoPo2 returns. |
| PowerPaths.ThreeExample | collatz.py:185-200 | CtoPo2(3) == [10, 5, 16] and CtoPo2(8) == []. |
| Sorting.Sort | collatz.py:256 | The flat list is sorted ascending and is a permutation of its input, duplicates kept. |
| UpTrees.UpTree | collatz.py:203-215 | The first element is 2n. There are two elements exactly when n % 6 == 4, otherwise one. m is returned exactly when step(m) == n. For n >= 1 every element is positive. |
| UpTrees.PredecessorsOf | collatz.py:211-213 | step(x) == n exactly when x == 2n, or when n % 6 == 4 and x == (n-1)/3. |
| UpTrees.NextGeneration | collatz.py:248-251 | The next generation is at least as long as the previous one and at most twice as long. |
| UpTrees.NextGenerationMembership | collatz.py:248-251 | x is in the next generation exactly when step(x) is in the previous one. |
| UpTrees.Generation | collatz.py:245-254 | branches[i]: [root] for i = 0, then the next generation of the one before. It is never empty. |
| UpTrees.GenerationMembership | collatz.py:247-254 | Generation i holds exactly the numbers that reach the root in i standard steps. |
| UpTrees.GenerationsShape | collatz.py:244-254 | Generation 0 is [root]. Each later generation is uptree applied in order to the one before. Its length lies between that one's and twice that. Membership means reaching the root. |
| UpTrees.Expand | collatz.py:248-251 | The inner loop builds the in-order concatenation of uptree over the last generation. |
| UpTrees.Grow | collatz.py:244-254 | The outer loop yields generations 0 to d, and the running list is their concatenation. |
| UpTrees.Depth | collatz.py:247 | The number of iterations of range(1, steps + 1): steps when it is positive, otherwise none. |
| UpTrees.Build | collatz.py:242-256 | There are steps + 1 generations, starting with [root]. Each generation is uptree applied to the one before, and its length is between len(prev) and 2·len(prev). Membership means reaching the root. The flat list is sorted and multiset-equal to all generations together, duplicates kept. steps <= 0 gives ([root], [[root]]). |
| UpTrees.UpTreeExamples | collatz.py:210-215 | uptree(4) == [8, 1] and uptree(5) == [10]. |
| UpTrees.TreeOfFiveExample | collatz.py:242-256 | The tree of 5 one step up has generations [5] and [10]. Its numbers concatenate to [5, 10], and sorting leaves them [5, 10]. |

## Left out

- Floating point: `residue` and `completeness` return exact `real` ratios instead of `float`s (collatz.py:155-157, 180-182).
- Laziness of `colgen`/`redcolgen`: the generators are modelled as the finite lists they yield.
- Termination of the "until 1" and "until a power of two" loops: this is the Collatz conjecture. Each loop carries an iteration budget and reports `OutOfFuel` when the budget runs out.
- Trajectories.Trajectory: does not promise that every n >= 1 has a trajectory, because that is the Collatz conjecture. It promises only that an answer, when given, is right, and that a small enough trajectory is always found.
- StoppingTimes.StoppingTime: does not promise that every odd n > 1 has a descent, for the same reason.
- Residues.ParityCounts: does not promise that the loop finishes for every n >= 1, for the same reason.
- PowerPaths.PathToPowerOfTwo: does not promise that a power of two is always reached, for the same reason.
- Input validation: the source validates nothing, and neither does the model. `isPo2` and `CtoPo2` require n != 0, because `isPo2(0)` never returns. Every other function accepts any integer and behaves as the code does: `colgen(0)` yields `[0]`, and `st` of an even number is 1.
- The algorithm behind Python's `sorted`: an insertion sort stands in for it, and only its result is stated (sorted and a permutation).
- The `Tree` class is an immutable `datatype` with one operation, `Build`. Python's object identity and mutability play no part.
- Module docstring and version metadata (collatz.py:1-21).
- Some behaviour of collatz.py is easy to misread, and the model keeps it as written:
  - `Tree.tree` keeps duplicates in the flat list (collatz.py:253, 256). uptree's outputs are distinct within and across parents, so a number can repeat only across generations. It repeats in the flat list exactly when the root lies on a cycle of the step and the height reaches the cycle's length. For example the tree of 1 holds 1 again at height 3 (cycle 4, 2, 1), the tree of 0 holds 0 once more at every height (cycle 0), and the tree of -1 holds -1 again at height 2 (cycle -1, -2).
  - `uptree` adds (n-1)/3 whenever n % 6 == 4, with no positivity test (collatz.py:212-213). For n >= 1 that value is positive anyway.
  - No function rejects non-positive inputs.
  - `tst`'s docstring (collatz.py:94-95) speaks of the number of steps to reach 1. The code returns len(list(colgen(n))) (collatz.py:98), which is the number of elements, one more than the number of steps: tst(1) == 1 and tst(10) == 7. The model follows the code.

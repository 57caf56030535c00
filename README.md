# Pollard's rho on an Edwards curve, in Dafny

This project models the class `ECPoint` of the Java repository elliptic-curve. The class:

- adds points on the Edwards curve x² + y² = 1 + d·x²·y² over the integers modulo p (`mul`);
- raises a point to a power by double-and-add (`exp`);
- recovers a discrete logarithm with Pollard's rho method (`rho`);
- runs one trial that hides a random exponent and checks that rho finds it again (`check`).

The source writes the group operation multiplicatively, and so does the model.

Modules, one file each:

- `Outcomes` (outcomes.dfy). Java's exceptions become `Result` values:
  - `ArithmeticError` is an `ArithmeticException` from `BigInteger.modInverse` or `BigInteger.mod`;
  - `DegenerateWalk` is the `SextupleInitializationException` thrown by `rho`;
  - `Mismatch` is the `RuntimeException` thrown by `check`.
- `ModArith` (modarith.dfy). Euclidean remainders, as `BigInteger.mod` computes them and Dafny's `%` does.
  - `ModInverse` models `BigInteger.modInverse`. It uses the extended Euclidean algorithm, and `None` marks each case where Java throws.
  - `BitLength` and `TestBit` model `bitLength` and `testBit` on non-negative numbers. `ShiftRight` (m >> i) is an auxiliary: the source never shifts, but `TestBit` is defined through it and the invariant of `Exp` speaks of it.
- `ECPoint` (ecpoint.dfy).
  - `Mul` models `mul`.
  - `Power` is the recursive double-and-add definition of aᵐ.
  - `Exp` models the bit-scanning loop of `exp` as a method, and is proved to compute `Power`.
- `Counting` (counting.dfy) proves the pigeonhole principle.
- `Orbit` (orbit.dfy) iterates any point step f that may fail and whose points lie in [0, p)². It proves that Floyd's race of a slow and a fast copy always ends.
- `PollardRho` (pollardrho.dfy).
  - `NextPoint` is the three-way point step chosen by z.x mod 3, and `Next(a, b, d, p)` is that step as a function of the point.
  - `Step` and `Walk` model the triples (α, β, z). They, the race and `RhoSpec` are stated for any point step f that keeps its points in the box; rho's own step is `Next(a, b, d, p)`.
  - `Solve` models the final congruence.
  - `RhoSpec` is what the method returns.
  - `Race` models the `while` loop over the six variables and k as a method, and is proved equal to `RhoSpec`. `Rho` runs `Race` on rho's own step.
  - The loop needs no fuel and no `decreases *`. After the first step every point lies in a box of p² points, so within p² + 1 steps the walk fails or repeats. The race therefore stops at a least round `FirstStop`, which bounds the loop.
- `Trial` (trial.dfy). `Check` models `check`, and is proved equal to `TrialSpec`. The random 64-bit draw is the parameter `sample`.

What the code does where a reader might expect otherwise:

- `check` does not retry on a degenerate walk. It passes the `SextupleInitializationException` up, and the retrying happens in Driver.java, which is not part of this model.
- The secret is not uniform in [0, n). It is a 64-bit random number reduced modulo n.
- The code checks for the degenerate case as α_k − α_2k ≡ 0 (mod n), not as "not invertible". For a composite n, `modInverse` can still throw afterwards. `Solve` and `RhoSpecFails` keep the two cases apart.
- Combining with the neutral point (0, 1) gives the other point reduced modulo p, not the point itself (`MulNeutral`).

## Model

| member | source | states |
|---|---|---|
| ModArith.ModInverse | src/ECPoint.java:37-41 | modInverse succeeds exactly when x has an inverse modulo m (m > 0 and x a unit). Its result then lies in [0, m) and is an inverse of x. |
| ModArith.QuotientLaw | src/ECPoint.java:38 | Multiplying num · x⁻¹ mod m back by x gives num modulo m. This is what the division in mul means. |
| ModArith.CancelUnit | src/ECPoint.java:141 | A factor with an inverse modulo m cancels from both sides of a congruence. |
| ModArith.BitLengthBounds | src/ECPoint.java:57 | m < 2^bitLength(m), and 2^(bitLength(m) − 1) ≤ m when m > 0: bitLength(m) is exactly the number of binary digits of m. |
| ModArith.ShiftedBounds | src/ECPoint.java:57 | m >> i (an auxiliary; the source never shifts) is positive for every i below bitLength(m) and zero from bitLength(m) on. So the loop of exp starts at the top bit and has seen every bit when it ends. |
| ModArith.ShiftStep | src/ECPoint.java:59 | m >> i (the auxiliary that TestBit and the invariant of Exp read) is 2·(m >> (i+1)) plus testBit(m, i). |
| ECPoint.Mul | src/ECPoint.java:29-44 | mul fails, with an arithmetic error only, exactly when 1 + t or 1 − t has no inverse modulo p, where t = d·x1·x2·y1·y2. Otherwise both coordinates lie in [0, p). |
| ECPoint.MulSolvesFieldEquations | src/ECPoint.java:35-41 | The coordinates of a sum solve x3·(1 + t) ≡ x1·y2 + y1·x2 and y3·(1 − t) ≡ y1·y2 − x1·x2 (mod p). |
| ECPoint.MulDetermined | src/ECPoint.java:35-41 | Any reduced point that solves those two congruences is the sum. The congruences and mul define the same operation. |
| ECPoint.MulSymmetric | src/ECPoint.java:35-41 | mul(P, Q) = mul(Q, P), failures included. |
| ECPoint.MulNeutral | src/ECPoint.java:35-41 | mul(P, (0, 1)) and mul((0, 1), P) both succeed with (P.x mod p, P.y mod p) when p > 0. |
| ECPoint.MulReduced | src/ECPoint.java:35-41 | mul depends only on the residues of both arguments modulo p. |
| ECPoint.Power | src/ECPoint.java:55-64 | a^m defined recursively by double-and-add (a^m is the square of a^(m / 2), times a when m is odd): it fails only with an arithmetic error, and for m > 0 a result is reduced modulo p. |
| ECPoint.PowerZero | src/ECPoint.java:56-57 | By definition, a^0 is the neutral point (0, 1), as the loop of exp runs zero times for m = 0. |
| ECPoint.PowerFailsUp | src/ECPoint.java:58-60 | A failure while building a^(m >> i) is a failure of a^m. An exception inside the loop of exp is therefore the outcome of a^m. |
| ECPoint.Exp | src/ECPoint.java:55-64 | The bit-scanning loop returns exactly Power(a, m), failure included. Its invariant is that the accumulator is a^(m >> (i + 1)), the power of the bits above i. |
| ECPoint.PowerOne | src/ECPoint.java:56-61 | a^1 is a reduced modulo p. |
| ECPoint.PowerTwo | src/ECPoint.java:56-61 | a^2 is mul(a, a), with no separate doubling formula. |
| Counting.Pigeonhole | src/ECPoint.java:90 | More than `bound` values from [0, bound) contain a repeat. This is the counting step of the termination proof of rho's loop. |
| Orbit.ErrPersists | src/ECPoint.java:94-134 | Once a step of the walk has failed, every later step has failed too. |
| Orbit.Periodic | src/ECPoint.java:90-134 | Once the walk repeats with period L, it returns to the same point after any whole number of laps. |
| Orbit.Repeat | src/ECPoint.java:90-134 | A walk that stays in [0, p)² fails or repeats a point within its first p² + 1 steps: it returns 1 ≤ i < j with i ≤ p² + 1, where step i failed or j ≤ p² + 1 and steps i and j hold the same point. |
| Orbit.FloydMeets | src/ECPoint.java:90 | For every step function that stays in the box, some round k ≥ 1 has step 2k failed or equal to step k. |
| PollardRho.NextPoint | src/ECPoint.java:94-106 | The next point is b·z, z·z or a·z as z.x mod 3 is 0, 1 or 2. It fails only with an arithmetic error, it is reduced modulo p, and it always fails when p ≤ 0. |
| PollardRho.NextStaysInBox | src/ECPoint.java:94-106 | Rho's point step Next(a, b, d, p) keeps every point it produces in [0, p)², so the termination argument applies to it. |
| PollardRho.Step | src/ECPoint.java:94-106 | The point reached by one triple update is f of the old point, failure included. The exponents never steer the walk. |
| PollardRho.StepExponents | src/ECPoint.java:94-106 | By definition, one step of rho maps (α, β, z) to (α+1, β, b·z), (2α, 2β, z·z) or (α, β+1, a·z) by z.x mod 3. |
| PollardRho.Walk | src/ECPoint.java:90-134 | The points of the triple walk, failures included, are the orbit of (0, 1) under the point step f. |
| PollardRho.WalkInBox | src/ECPoint.java:94-134 | Rho's k-th triple fails only with an arithmetic error, and its point is reduced modulo p for k > 0. |
| PollardRho.FloydStops | src/ECPoint.java:90 | The loop of rho stops in some round k ≥ 1: a multiplication failed, or z_k = z_2k. |
| PollardRho.FirstStop | src/ECPoint.java:89-91 | The number of rounds rho runs is at least 1 and is the least round at which the race stops. |
| PollardRho.Solve | src/ECPoint.java:137-141 | The result is degenerate exactly when n > 0 and α_k − α_2k ≡ 0 (mod n). It is an arithmetic error exactly when n ≤ 0 or the difference is a nonzero non-unit. Otherwise m lies in [0, n) and m·(α_k − α_2k) ≡ β_2k − β_k (mod n). |
| PollardRho.SolveUnique | src/ECPoint.java:141 | When Solve succeeds, that congruence has no other solution in [0, n). |
| PollardRho.Finish | src/ECPoint.java:137-143 | The tail of rho returns Solve's m paired with the round count k, or Solve's failure. |
| PollardRho.Race | src/ECPoint.java:89-143 | For any point step f that stays in the box, the loop, the six variables and the final solve return exactly RhoSpec. Its invariant is that after k rounds slow = Walk(k) and fast = Walk(2k), with k at most the first stop. |
| PollardRho.Round | src/ECPoint.java:90-134 | A round of the loop begins before the first stop, its three steps are steps k + 1, 2k + 1 and 2k + 2 of the walk, and a failure in any of them is the outcome of rho. |
| PollardRho.Rho | src/ECPoint.java:78-144 | rho returns exactly RhoSpec of its own point step Next(a, b, d, p), which stays in the box. |
| PollardRho.RhoStopsAtCollision | src/ECPoint.java:89-143 | A successful run reports k = FirstStop ≥ 1 rounds, with both copies running and z_k = z_2k. |
| PollardRho.NoEarlierCollision | src/ECPoint.java:90 | In every round before the last, both copies ran and held different points. |
| PollardRho.RhoSolvesCollision | src/ECPoint.java:141-143 | A successful run returns m in [0, n) with m·(α_k − α_2k) ≡ β_2k − β_k (mod n) at its stopping round. |
| PollardRho.RhoSpecDegenerate | src/ECPoint.java:137-139 | rho reports a degenerate walk exactly when the walk reached its stop without failing, n > 0 and α_k ≡ α_2k (mod n). |
| PollardRho.RhoSpecFails | src/ECPoint.java:90-141 | rho fails arithmetically exactly when a walk step fails, or n ≤ 0, or α_k − α_2k is a nonzero non-unit modulo n. It never reports a mismatch. |
| PollardRho.RhoRecoversSecret | src/ECPoint.java:141 | A successful run returns m0 itself when the secret m0 < n satisfies the collision's congruence. |
| Trial.LongValue | src/ECPoint.java:164 | longValue of a count is a 64-bit signed value congruent to it modulo 2^64, and equal to it below 2^63. |
| Trial.Verdict | src/ECPoint.java:161-164 | The trial passes exactly when rho succeeded with the secret. A mismatch is reported exactly when rho recovered another value, and rho's own failures pass through. |
| Trial.Check | src/ECPoint.java:156-165 | The trial (reduce the sample mod n, exp, rho, compare) returns exactly TrialSpec. |
| Trial.TrialPasses | src/ECPoint.java:158-164 | A passing trial had n > 0, a successful a^m, and rho recovering m = sample mod n in at least one round. It returns longValue of that round count. |
| Trial.TrialMismatch | src/ECPoint.java:160-163 | A mismatch happens exactly when rho succeeds with a value other than sample mod n. |
| Trial.TrialDegenerate | src/ECPoint.java:160 | A degenerate walk in rho is passed through unchanged and is its only source. |
| Trial.TrialPassesWhenSecretSolves | src/ECPoint.java:159-164 | When the secret satisfies the collision's congruence and rho succeeds, the trial passes. |

## Left out

- Random sampling (src/ECPoint.java:157) is not modelled. The drawn number is the parameter `sample` of `Check`.
- Trial.Check: `sample` may be any natural number, not only one below 2^64. Every property is stated for all samples.
- ECPoint.Exp: the exponent is a natural number. `check` only passes m mod n ≥ 0, so negative exponents are not modelled.
- PollardRho.RhoRecoversSecret: the congruence that the group law would give at a collision is a hypothesis, not proved. Several facts are not proved:
  - that mul keeps points on the curve;
  - that mul is associative;
  - the walk invariant z = a^β·b^α.

  All three need the algebra of the curve over a prime field.
- Trial.TrialPassesWhenSecretSolves: it inherits the hypothesis of PollardRho.RhoRecoversSecret. The congruence at the collision is assumed of the secret, not derived from b = a^m.
- The expected O(√n) number of rounds of rho is probabilistic and not modelled. Only termination is proved.
- `ECPoint.point` (string parsing into a pair) and `ECPoint.main` (a test entry point that prints) are not modelled. Points are integer pairs.
- Driver.java is not part of this model. It holds the parameter tables, the retry after a degenerate walk, averaging and printing.
- Exceptions are `Result` values. Every `ArithmeticException` is one error kind, whichever BigInteger call raised it.
- Java arrays become values. `mul` and `rho` always build fresh arrays, so no aliasing is lost.

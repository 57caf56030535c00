/** Pollard's rho method for the discrete logarithm on the curve, as ECPoint.rho
    runs it: a walk of triples (alpha, beta, z) with z standing for a^beta * b^alpha,
    driven by z.x mod 3, raced at speeds one and two (Floyd's cycle finding) until
    both copies sit on the same point, followed by solving the linear congruence
    that the collision gives.

    The walk, the race and what rho returns are stated for any point step f that
    keeps its points in the box [0, p) x [0, p); rho's own step is Next(a, b, d, p). */
module PollardRho {
  import opened Outcomes
  import opened ModArith
  import opened ECPoint
  import opened Orbit

  /** One of the two triples that rho carries: exponents of b and a, and the point. */
  datatype WalkState = WalkState(alpha: nat, beta: nat, z: Point)

  /** The result of a successful run: the logarithm m and the step count k. */
  datatype Recovery = Recovery(m: nat, steps: nat)

  /** Both triples start as (0, 0, (0, 1)). */
  const Start := WalkState(0, 0, Neutral)

  // ---------------------------------------------------------------------------
  // One step of the walk

  /** The point that follows z: b * z when z.x = 0 (mod 3), z * z when z.x = 1,
      a * z otherwise. Every point the walk produces is reduced modulo p, and
      with no positive modulus the very first step fails. */
  function NextPoint(z: Point, a: Point, b: Point, d: int, p: int): (r: Result<Point>)
    ensures r.Err? ==> r.error == ArithmeticError
    ensures r.Ok? ==> Reduced(r.value, p)
    ensures p <= 0 ==> r.Err?
  {
    if z.x % 3 == 0 then Mul(b, z, d, p)
    else if z.x % 3 == 1 then Mul(z, z, d, p)
    else Mul(a, z, d, p)
  }

  /** NextPoint as a function of the point alone: the point step of rho's walk. */
  function Next(a: Point, b: Point, d: int, p: int): Point -> Result<Point> {
    z => NextPoint(z, a, b, d, p)
  }

  /** Rho's point step keeps every point it produces in the box. */
  lemma NextStaysInBox(a: Point, b: Point, d: int, p: int)
    ensures StaysInBox(Next(a, b, d, p), p)
  {
  }

  /** The point carried by a walk result. */
  function PointOf(r: Result<WalkState>): Result<Point> {
    match r
    case Err(e) => Err(e)
    case Ok(s) => Ok(s.z)
  }

  /** One update of (alpha, beta, z) with point step f: alpha + 1 when z.x = 0
      (mod 3), both exponents doubled when z.x = 1, beta + 1 otherwise. The point
      it moves to depends on the old point alone. */
  function Step(s: WalkState, f: Point -> Result<Point>): (r: Result<WalkState>)
    ensures PointOf(r) == f(s.z)
  {
    match f(s.z)
    case Err(e) => Err(e)
    case Ok(z) =>
      if s.z.x % 3 == 0 then Ok(WalkState(s.alpha + 1, s.beta, z))
      else if s.z.x % 3 == 1 then Ok(WalkState(2 * s.alpha, 2 * s.beta, z))
      else Ok(WalkState(s.alpha, s.beta + 1, z))
  }

  /** The exponent bookkeeping of one step of rho, case by case: a multiplication by
      b counts in alpha, a squaring doubles both, a multiplication by a counts in beta. */
  lemma StepExponents(s: WalkState, a: Point, b: Point, d: int, p: int)
    requires Step(s, Next(a, b, d, p)).Ok?
    ensures var t := Step(s, Next(a, b, d, p)).value;
      (s.z.x % 3 == 0 ==> t.alpha == s.alpha + 1 && t.beta == s.beta && Ok(t.z) == Mul(b, s.z, d, p)) &&
      (s.z.x % 3 == 1 ==> t.alpha == 2 * s.alpha && t.beta == 2 * s.beta && Ok(t.z) == Mul(s.z, s.z, d, p)) &&
      (s.z.x % 3 == 2 ==> t.alpha == s.alpha && t.beta == s.beta + 1 && Ok(t.z) == Mul(a, s.z, d, p))
  {
  }

  // ---------------------------------------------------------------------------
  // The walk and its point sequence

  /** The k-th triple of the walk from Start; a failed step ends the walk. Its
      points are the orbit of (0, 1) under f: the exponents never steer the walk. */
  function Walk(f: Point -> Result<Point>, k: nat): (r: Result<WalkState>)
    ensures PointOf(r) == Iterate(f, Neutral, k)
  {
    if k == 0 then Ok(Start)
    else
      match Walk(f, k - 1)
      case Err(e) => Err(e)
      case Ok(s) => Step(s, f)
  }

  /** The walk of rho fails only with an arithmetic error, and after the start
      every point of it is reduced modulo p. */
  lemma WalkInBox(a: Point, b: Point, d: int, p: int, k: nat)
    ensures Walk(Next(a, b, d, p), k).Err? ==> Walk(Next(a, b, d, p), k).error == ArithmeticError
    ensures k > 0 && Walk(Next(a, b, d, p), k).Ok? ==> Reduced(Walk(Next(a, b, d, p), k).value.z, p)
  {
    NextStaysInBox(a, b, d, p);
    InBoxErrors(Next(a, b, d, p), p, k);
    if k > 0 {
      InBox(Next(a, b, d, p), Neutral, p, k);
    }
  }

  /** The iterates of rho's point step fail only with an arithmetic error. */
  lemma {:induction false} InBoxErrors(f: Point -> Result<Point>, p: int, k: nat)
    requires forall z :: f(z).Err? ==> f(z).error == ArithmeticError
    ensures Iterate(f, Neutral, k).Err? ==> Iterate(f, Neutral, k).error == ArithmeticError
  {
    if k > 0 {
      InBoxErrors(f, p, k - 1);
    }
  }

  // ---------------------------------------------------------------------------
  // Floyd's cycle finding stops

  /** The loop of rho ends after k rounds: k >= 1 and either a step in the first 2k
      failed, or the slow and the fast copy hold the same point. */
  predicate Stops(f: Point -> Result<Point>, k: nat) {
    k >= 1 &&
    (Walk(f, 2 * k).Err? ||
     (Walk(f, k).Ok? && Walk(f, 2 * k).Ok? && Walk(f, k).value.z == Walk(f, 2 * k).value.z))
  }

  /** The stopping condition read on the orbit of the points. */
  lemma StopsFromMeets(f: Point -> Result<Point>, k: nat)
    requires Meets(f, Neutral, k)
    ensures Stops(f, k)
  {
    assert PointOf(Walk(f, k)) == Iterate(f, Neutral, k);
    assert PointOf(Walk(f, 2 * k)) == Iterate(f, Neutral, 2 * k);
  }

  /** Floyd's argument: the race of the slow and the fast copy ends. */
  lemma FloydStops(f: Point -> Result<Point>, p: int)
    requires StaysInBox(f, p)
    ensures exists k: nat :: Stops(f, k)
  {
    var k := FloydMeets(f, Neutral, p);
    StopsFromMeets(f, k);
  }

  /** The first k >= i at which the race stops, given that it stops at K. */
  ghost function FirstStopFrom(f: Point -> Result<Point>, i: nat, K: nat): (k: nat)
    requires 1 <= i <= K && Stops(f, K)
    requires forall j :: 1 <= j < i ==> !Stops(f, j)
    ensures i <= k <= K && Stops(f, k)
    ensures forall j :: 1 <= j < k ==> !Stops(f, j)
    decreases K - i
  {
    if Stops(f, i) then i else FirstStopFrom(f, i + 1, K)
  }

  /** The number of rounds rho runs: the least k at which the race stops. */
  ghost function FirstStop(f: Point -> Result<Point>, p: int): (k: nat)
    requires StaysInBox(f, p)
    ensures k >= 1 && Stops(f, k)
    ensures forall j :: 1 <= j < k ==> !Stops(f, j)
  {
    FloydStops(f, p);
    var K: nat :| Stops(f, K);
    FirstStopFrom(f, 1, K)
  }

  // ---------------------------------------------------------------------------
  // Solving the collision

  /** From a collision a^beta_k * b^alpha_k = a^beta_2k * b^alpha_2k and b = a^m,
      m * (alpha_k - alpha_2k) = beta_2k - beta_k (mod n). Solve reduces the
      difference of the alphas modulo n (failing for n <= 0, as BigInteger.mod
      does), reports a degenerate walk when it is 0, and otherwise divides by it
      with BigInteger.modInverse, which fails when it is not a unit modulo n. */
  function Solve(slow: WalkState, fast: WalkState, n: int): (r: Result<nat>)
    ensures r == Err(DegenerateWalk) <==> n > 0 && (slow.alpha - fast.alpha) % n == 0
    ensures r == Err(ArithmeticError) <==>
      n <= 0 || ((slow.alpha - fast.alpha) % n != 0 && !HasInverse(slow.alpha - fast.alpha, n))
    ensures r.Err? ==> r.error != Mismatch
    ensures r.Ok? ==>
      (r.value < n && (r.value * (slow.alpha - fast.alpha)) % n == (fast.beta - slow.beta) % n)
  {
    var da := slow.alpha - fast.alpha;
    if n <= 0 then Err(ArithmeticError)
    else if da % n == 0 then Err(DegenerateWalk)
    else
      match ModInverse(da, n)
      case None => Err(ArithmeticError)
      case Some(inv) =>
        QuotientLaw(fast.beta - slow.beta, da, inv, n);
        Ok(((fast.beta - slow.beta) * inv) % n)
  }

  /** The congruence has only one solution in [0, n) when Solve succeeds, so a
      correct logarithm is always the one returned. */
  lemma SolveUnique(slow: WalkState, fast: WalkState, n: int, m: nat)
    requires Solve(slow, fast, n).Ok?
    requires m < n && (m * (slow.alpha - fast.alpha)) % n == (fast.beta - slow.beta) % n
    ensures Solve(slow, fast, n).value == m
  {
    var r := Solve(slow, fast, n).value;
    var da := slow.alpha - fast.alpha;
    assert HasInverse(da, n);
    CancelUnit(r, m, da, n);
    ModSmall(r, n);
    ModSmall(m, n);
  }

  // ---------------------------------------------------------------------------
  // The whole method

  /** The last lines of rho after k rounds: solve, and report m with k. */
  function Finish(slow: WalkState, fast: WalkState, n: int, k: nat): (r: Result<Recovery>)
    ensures r.Ok? ==> r.value.steps == k && Solve(slow, fast, n) == Ok(r.value.m)
    ensures r.Err? ==> Solve(slow, fast, n) == Err(r.error)
  {
    match Solve(slow, fast, n)
    case Err(e) => Err(e)
    case Ok(m) => Ok(Recovery(m, k))
  }

  /** What rho returns: after FirstStop rounds either a step failed (mul throws
      ArithmeticException, its only exception), or the slow and the fast triple are
      solved for m. */
  ghost function RhoSpec(f: Point -> Result<Point>, p: int, n: int): (r: Result<Recovery>)
    requires StaysInBox(f, p)
  {
    var k := FirstStop(f, p);
    match Walk(f, 2 * k)
    case Err(_) => Err(ArithmeticError)
    case Ok(fast) =>
      WalkOkBefore(f, k, 2 * k);
      Finish(Walk(f, k).value, fast, n, k)
  }

  /** A walk that is still running at step j was running at every earlier step. */
  lemma {:induction false} WalkOkBefore(f: Point -> Result<Point>, i: nat, j: nat)
    requires i <= j && Walk(f, j).Ok?
    ensures Walk(f, i).Ok?
    decreases j - i
  {
    if i < j {
      WalkOkBefore(f, i + 1, j);
    }
  }

  /** ECPoint.rho: the race of Race on rho's own step, Next(a, b, d, p). */
  method Rho(a: Point, b: Point, d: int, p: int, n: int) returns (r: Result<Recovery>)
    ensures StaysInBox(Next(a, b, d, p), p)
    ensures r == RhoSpec(Next(a, b, d, p), p, n)
  {
    NextStaysInBox(a, b, d, p);
    r := Race(Next(a, b, d, p), p, n);
  }

  /** The loop and the last lines of ECPoint.rho for point step f: races the slow
      triple (one step per round) against the fast one (two steps per round) until
      both carry the same point, then solves. */
  method Race(f: Point -> Result<Point>, p: int, n: int) returns (r: Result<Recovery>)
    requires StaysInBox(f, p)
    ensures r == RhoSpec(f, p, n)
  {
    var k: nat := 0;
    var slow := Start;
    var fast := Start;
    ghost var K := FirstStop(f, p);
    while k == 0 || slow.z != fast.z
      invariant k <= K
      invariant Walk(f, k) == Ok(slow) && Walk(f, 2 * k) == Ok(fast)
      decreases K - k
    {
      Round(f, p, n, k, slow, fast, K);
      k := k + 1;
      var next := Step(slow, f);
      if next.Err? {
        return Err(ArithmeticError);
      }
      slow := next.value;
      var mid := Step(fast, f);
      if mid.Err? {
        return Err(ArithmeticError);
      }
      next := Step(mid.value, f);
      if next.Err? {
        return Err(ArithmeticError);
      }
      fast := next.value;
    }
    RoundsEnd(f, p, n, k, slow, fast, K);
    r := Finish(slow, fast, n, k);
  }

  /** One round of the loop: it begins before the first stop, its three steps are
      the next steps of the walk, and a failure in any of them is the outcome of rho. */
  lemma Round(f: Point -> Result<Point>, p: int, n: int, k: nat, slow: WalkState, fast: WalkState, K: nat)
    requires StaysInBox(f, p) && K == FirstStop(f, p) && k <= K
    requires Walk(f, k) == Ok(slow) && Walk(f, 2 * k) == Ok(fast)
    requires k == 0 || slow.z != fast.z
    ensures k < K
    ensures Walk(f, k + 1) == Step(slow, f)
    ensures Walk(f, 2 * (k + 1) - 1) == Step(fast, f)
    ensures Step(fast, f).Ok? ==> Walk(f, 2 * (k + 1)) == Step(Step(fast, f).value, f)
    ensures (Walk(f, k + 1).Err? || Walk(f, 2 * (k + 1) - 1).Err? || Walk(f, 2 * (k + 1)).Err?) ==>
      RhoSpec(f, p, n) == Err(ArithmeticError)
  {
    if k > 0 {
      assert !Stops(f, k);
    }
    RoundSteps(f, k, slow, fast);
    RoundFails(f, p, n, k, K);
  }

  /** The three steps of a round are the next steps of the walk. */
  lemma RoundSteps(f: Point -> Result<Point>, k: nat, slow: WalkState, fast: WalkState)
    requires Walk(f, k) == Ok(slow) && Walk(f, 2 * k) == Ok(fast)
    ensures Walk(f, k + 1) == Step(slow, f)
    ensures Walk(f, 2 * (k + 1) - 1) == Step(fast, f)
    ensures Step(fast, f).Ok? ==> Walk(f, 2 * (k + 1)) == Step(Step(fast, f).value, f)
  {
    assert 2 * (k + 1) - 1 == 2 * k + 1;
    if Step(fast, f).Ok? {
      assert Walk(f, 2 * k + 2) == Step(Walk(f, 2 * k + 1).value, f);
    }
  }

  /** A failure in round k + 1, which comes no later than the first stop, is the
      outcome of rho. */
  lemma RoundFails(f: Point -> Result<Point>, p: int, n: int, k: nat, K: nat)
    requires StaysInBox(f, p) && K == FirstStop(f, p) && k < K
    ensures (Walk(f, k + 1).Err? || Walk(f, 2 * (k + 1) - 1).Err? || Walk(f, 2 * (k + 1)).Err?) ==>
      RhoSpec(f, p, n) == Err(ArithmeticError)
  {
    var i := if Walk(f, k + 1).Err? then k + 1
      else if Walk(f, 2 * (k + 1) - 1).Err? then 2 * (k + 1) - 1
      else 2 * (k + 1);
    if Walk(f, i).Err? {
      WalkFailsFinal(f, p, n, k + 1, i, K);
    }
  }

  /** When the loop ends it is at the first stop, with both copies running. */
  lemma RoundsEnd(f: Point -> Result<Point>, p: int, n: int, k: nat, slow: WalkState, fast: WalkState, K: nat)
    requires StaysInBox(f, p) && K == FirstStop(f, p) && k <= K
    requires Walk(f, k) == Ok(slow) && Walk(f, 2 * k) == Ok(fast)
    requires k != 0 && slow.z == fast.z
    ensures RhoSpec(f, p, n) == Finish(slow, fast, n, k)
  {
    assert Stops(f, k);
  }

  /** A failure within the first 2k steps, in a round k no later than the first
      stop, makes k the first stop and the outcome of rho a failure. */
  lemma WalkFailsFinal(f: Point -> Result<Point>, p: int, n: int, k: nat, i: nat, K: nat)
    requires StaysInBox(f, p) && K == FirstStop(f, p)
    requires 1 <= k <= K && i <= 2 * k && Walk(f, i).Err?
    ensures k == K && RhoSpec(f, p, n) == Err(ArithmeticError)
  {
    if Walk(f, 2 * k).Ok? {
      WalkOkBefore(f, i, 2 * k);
    }
    assert Stops(f, k);
  }

  // ---------------------------------------------------------------------------
  // What a run of rho means

  /** A successful run stops after k = FirstStop rounds, k >= 1, with the slow
      point z_k equal to the fast point z_2k. */
  lemma RhoStopsAtCollision(f: Point -> Result<Point>, p: int, n: int)
    requires StaysInBox(f, p) && RhoSpec(f, p, n).Ok?
    ensures var k := RhoSpec(f, p, n).value.steps;
      k == FirstStop(f, p) && k >= 1 &&
      Walk(f, k).Ok? && Walk(f, 2 * k).Ok? && Walk(f, k).value.z == Walk(f, 2 * k).value.z
  {
    WalkOkBefore(f, FirstStop(f, p), 2 * FirstStop(f, p));
  }

  /** Before the first stop the walk runs and the two points differ in every round. */
  lemma NoEarlierCollision(f: Point -> Result<Point>, p: int)
    requires StaysInBox(f, p)
    ensures forall j :: 1 <= j < FirstStop(f, p) ==>
      Walk(f, j).Ok? && Walk(f, 2 * j).Ok? && Walk(f, j).value.z != Walk(f, 2 * j).value.z
  {
    var k := FirstStop(f, p);
    forall j | 1 <= j < k
      ensures Walk(f, j).Ok? && Walk(f, 2 * j).Ok? && Walk(f, j).value.z != Walk(f, 2 * j).value.z
    {
      Running(f, j);
    }
  }

  /** A round that does not stop has both copies running on different points. */
  lemma Running(f: Point -> Result<Point>, j: nat)
    requires j >= 1 && !Stops(f, j)
    ensures Walk(f, j).Ok? && Walk(f, 2 * j).Ok?
    ensures Walk(f, j).value.z != Walk(f, 2 * j).value.z
  {
    WalkOkBefore(f, j, 2 * j);
  }

  /** A successful run returns an m in [0, n) with
      m * (alpha_k - alpha_2k) = beta_2k - beta_k (mod n) at its stop k. */
  lemma RhoSolvesCollision(f: Point -> Result<Point>, p: int, n: int)
    requires StaysInBox(f, p) && RhoSpec(f, p, n).Ok?
    ensures var k := FirstStop(f, p);
      var m := RhoSpec(f, p, n).value.m;
      Walk(f, k).Ok? && Walk(f, 2 * k).Ok? && m < n &&
      (m * (Walk(f, k).value.alpha - Walk(f, 2 * k).value.alpha)) % n ==
      (Walk(f, 2 * k).value.beta - Walk(f, k).value.beta) % n
  {
    var k := FirstStop(f, p);
    WalkOkBefore(f, k, 2 * k);
    assert Solve(Walk(f, k).value, Walk(f, 2 * k).value, n) == Ok(RhoSpec(f, p, n).value.m);
  }

  /** Rho reports a degenerate walk exactly when the walk reaches its first stop
      without failing, n > 0 and alpha_k = alpha_2k (mod n). */
  lemma RhoSpecDegenerate(f: Point -> Result<Point>, p: int, n: int)
    requires StaysInBox(f, p)
    ensures var k := FirstStop(f, p);
      RhoSpec(f, p, n) == Err(DegenerateWalk) <==>
        Walk(f, k).Ok? && Walk(f, 2 * k).Ok? && n > 0 &&
        (Walk(f, k).value.alpha - Walk(f, 2 * k).value.alpha) % n == 0
  {
    var k := FirstStop(f, p);
    if Walk(f, 2 * k).Ok? {
      WalkOkBefore(f, k, 2 * k);
    }
  }

  /** Rho throws ArithmeticException exactly when a step of the walk fails before
      the first stop, or n <= 0, or alpha_k - alpha_2k is a nonzero non-unit
      modulo n. It never reports a mismatch. */
  lemma RhoSpecFails(f: Point -> Result<Point>, p: int, n: int)
    requires StaysInBox(f, p)
    ensures var k := FirstStop(f, p);
      RhoSpec(f, p, n) == Err(ArithmeticError) <==>
        Walk(f, 2 * k).Err? ||
        (Walk(f, k).Ok? && Walk(f, 2 * k).Ok? &&
         var da := Walk(f, k).value.alpha - Walk(f, 2 * k).value.alpha;
         n <= 0 || (da % n != 0 && !HasInverse(da, n)))
    ensures RhoSpec(f, p, n) != Err(Mismatch)
  {
    var k := FirstStop(f, p);
    if Walk(f, 2 * k).Ok? {
      WalkOkBefore(f, k, 2 * k);
    }
  }

  /** When the secret m0 with b = a^m0 satisfies the congruence of the collision
      (which the group law guarantees), a successful run returns exactly m0 mod n. */
  lemma RhoRecoversSecret(f: Point -> Result<Point>, p: int, n: int, m0: nat)
    requires StaysInBox(f, p) && RhoSpec(f, p, n).Ok? && m0 < n
    requires var k := FirstStop(f, p);
      Walk(f, k).Ok? && Walk(f, 2 * k).Ok? &&
      (m0 * (Walk(f, k).value.alpha - Walk(f, 2 * k).value.alpha)) % n ==
      (Walk(f, 2 * k).value.beta - Walk(f, k).value.beta) % n
    ensures RhoSpec(f, p, n).value.m == m0
  {
    var k := FirstStop(f, p);
    SolveUnique(Walk(f, k).value, Walk(f, 2 * k).value, n, m0);
  }
}

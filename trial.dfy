/** ECPoint.check: one trial of the rho method on a secret exponent. The secret
    is drawn at random in the source; here the drawn number is the parameter
    sample, which the trial reduces modulo the group order n. */
module Trial {
  import opened Outcomes
  import opened ModArith
  import opened ECPoint
  import opened Orbit
  import opened PollardRho

  const TwoTo63: int := 0x8000_0000_0000_0000
  const TwoTo64: int := 0x1_0000_0000_0000_0000

  /** BigInteger.longValue for k >= 0: the low 64 bits of k read as a
      two's-complement long. It agrees with k modulo 2^64 and equals k whenever k
      fits in a long. */
  function LongValue(k: nat): (r: int)
    ensures -TwoTo63 <= r < TwoTo63
    ensures (r - k) % TwoTo64 == 0
    ensures k < TwoTo63 ==> r == k
  {
    var low := k % TwoTo64;
    ModAddMultiple(0, -(k / TwoTo64), TwoTo64);
    ModAddMultiple(0, -(k / TwoTo64) - 1, TwoTo64);
    assert k < TwoTo64 ==> low == k by {
      if k < TwoTo64 {
        ModSmall(k, TwoTo64);
      }
    }
    if low < TwoTo63 then low else low - TwoTo64
  }

  /** The last comparison of a trial: a recovered logarithm other than the secret
      m is a mismatch, otherwise the trial reports the step count as a long. */
  function Verdict(res: Result<Recovery>, m: nat): (r: Result<int>)
    ensures r.Ok? <==> res.Ok? && res.value.m == m
    ensures r.Ok? ==> r.value == LongValue(res.value.steps)
    ensures r == Err(Mismatch) <==> res == Err(Mismatch) || (res.Ok? && res.value.m != m)
    ensures res.Err? ==> r == Err(res.error)
  {
    match res
    case Err(e) => Err(e)
    case Ok(rec) => if rec.m != m then Err(Mismatch) else Ok(LongValue(rec.steps))
  }

  /** What a trial returns: m = sample mod n (which fails for n <= 0), b = a^m,
      and rho's recovery of m from a and b, compared with m. */
  ghost function TrialSpec(a: Point, sample: nat, d: int, p: int, n: int): Result<int> {
    if n <= 0 then Err(ArithmeticError)
    else
      var m := sample % n;
      match Power(a, m, d, p)
      case Err(e) => Err(e)
      case Ok(b) =>
        NextStaysInBox(a, b, d, p);
        Verdict(RhoSpec(Next(a, b, d, p), p, n), m)
  }

  /** ECPoint.check with the random draw as the parameter sample. */
  method Check(a: Point, sample: nat, d: int, p: int, n: int) returns (r: Result<int>)
    ensures r == TrialSpec(a, sample, d, p, n)
  {
    if n <= 0 {
      return Err(ArithmeticError);
    }
    var m := sample % n;
    var b := Exp(a, m, d, p);
    if b.Err? {
      return Err(b.error);
    }
    var res := Rho(a, b.value, d, p, n);
    r := Verdict(res, m);
  }

  /** A passing trial means rho recovered the secret sample mod n from b = a^m,
      in at least one round, and the trial reports that round count as a long. */
  lemma TrialPasses(a: Point, sample: nat, d: int, p: int, n: int)
    requires TrialSpec(a, sample, d, p, n).Ok?
    ensures n > 0 && Power(a, sample % n, d, p).Ok?
    ensures StaysInBox(Next(a, Power(a, sample % n, d, p).value, d, p), p)
    ensures var f := Next(a, Power(a, sample % n, d, p).value, d, p);
      RhoSpec(f, p, n).Ok? && RhoSpec(f, p, n).value.m == sample % n &&
      RhoSpec(f, p, n).value.steps >= 1 &&
      TrialSpec(a, sample, d, p, n).value == LongValue(RhoSpec(f, p, n).value.steps)
  {
    var b := Power(a, sample % n, d, p).value;
    NextStaysInBox(a, b, d, p);
    RhoStopsAtCollision(Next(a, b, d, p), p, n);
  }

  /** The trial reports a mismatch exactly when rho succeeds with a logarithm other
      than the secret. */
  lemma TrialMismatch(a: Point, sample: nat, d: int, p: int, n: int)
    ensures TrialSpec(a, sample, d, p, n) == Err(Mismatch) <==>
      n > 0 && Power(a, sample % n, d, p).Ok? &&
      var f := Next(a, Power(a, sample % n, d, p).value, d, p);
      StaysInBox(f, p) && RhoSpec(f, p, n).Ok? && RhoSpec(f, p, n).value.m != sample % n
  {
    if n > 0 && Power(a, sample % n, d, p).Ok? {
      var b := Power(a, sample % n, d, p).value;
      NextStaysInBox(a, b, d, p);
      RhoSpecFails(Next(a, b, d, p), p, n);
    }
  }

  /** The degenerate outcome of rho is passed through unchanged, and is the only
      source of it. */
  lemma TrialDegenerate(a: Point, sample: nat, d: int, p: int, n: int)
    ensures TrialSpec(a, sample, d, p, n) == Err(DegenerateWalk) <==>
      n > 0 && Power(a, sample % n, d, p).Ok? &&
      var f := Next(a, Power(a, sample % n, d, p).value, d, p);
      StaysInBox(f, p) && RhoSpec(f, p, n) == Err(DegenerateWalk)
  {
    if n > 0 && Power(a, sample % n, d, p).Ok? {
      NextStaysInBox(a, Power(a, sample % n, d, p).value, d, p);
    }
  }

  /** If the secret satisfies the congruence of rho's collision (as the group law
      makes it do), a trial in which rho succeeds passes: no mismatch is possible. */
  lemma TrialPassesWhenSecretSolves(a: Point, sample: nat, d: int, p: int, n: int, b: Point)
    requires n > 0 && Power(a, sample % n, d, p) == Ok(b)
    requires StaysInBox(Next(a, b, d, p), p)
    requires var f := Next(a, b, d, p);
      var k := FirstStop(f, p);
      RhoSpec(f, p, n).Ok? && Walk(f, k).Ok? && Walk(f, 2 * k).Ok? &&
      ((sample % n) * (Walk(f, k).value.alpha - Walk(f, 2 * k).value.alpha)) % n ==
      (Walk(f, 2 * k).value.beta - Walk(f, k).value.beta) % n
    ensures TrialSpec(a, sample, d, p, n).Ok?
  {
    RhoRecoversSecret(Next(a, b, d, p), p, n, sample % n);
  }
}

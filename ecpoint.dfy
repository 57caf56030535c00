/** Points of the Edwards curve x^2 + y^2 = 1 + d*x^2*y^2 over the integers modulo p,
    the Edwards addition law (written multiplicatively, as the source does) and
    double-and-add exponentiation. */
module ECPoint {
  import opened Outcomes
  import opened ModArith

  /** A point, as the two-element BigInteger array of the source. */
  datatype Point = Point(x: int, y: int)

  /** The neutral element (0, 1). */
  const Neutral := Point(0, 1)

  /** Both coordinates are field elements in [0, p). */
  predicate Reduced(P: Point, p: int) {
    0 <= P.x < p && 0 <= P.y < p
  }

  function Reduce(P: Point, p: int): Point
    requires p > 0
  {
    Point(P.x % p, P.y % p)
  }

  /** The term d*x1*x2*y1*y2 that both denominators share. */
  function Twist(P: Point, Q: Point, d: int): int {
    d * P.x * Q.x * P.y * Q.y
  }

  /** The numerator x1*y2 + y1*x2 of the new x-coordinate. */
  function NumX(P: Point, Q: Point): int {
    P.x * Q.y + P.y * Q.x
  }

  /** The numerator y1*y2 - x1*x2 of the new y-coordinate. */
  function NumY(P: Point, Q: Point): int {
    P.y * Q.y - P.x * Q.x
  }

  /** ECPoint.mul: the Edwards sum of P and Q. It fails exactly when one of the
      denominators 1 + t and 1 - t has no inverse modulo p, and otherwise returns a
      point with both coordinates in [0, p) (see MulSolvesFieldEquations for what
      the coordinates are). */
  function Mul(P: Point, Q: Point, d: int, p: int): (r: Result<Point>)
    ensures r.Err? <==> !HasInverse(1 + Twist(P, Q, d), p) || !HasInverse(1 - Twist(P, Q, d), p)
    ensures r.Err? ==> r.error == ArithmeticError
    ensures r.Ok? ==> Reduced(r.value, p)
  {
    var t := Twist(P, Q, d);
    match ModInverse(1 + t, p)
    case None => Err(ArithmeticError)
    case Some(u) =>
      match ModInverse(1 - t, p)
      case None => Err(ArithmeticError)
      case Some(v) =>
        Ok(Point(((P.x * Q.y + P.y * Q.x) * u) % p, ((P.y * Q.y - P.x * Q.x) * v) % p))
  }

  /** The coordinates of a sum are the field quotients NumX / (1 + t) and
      NumY / (1 - t): multiplied back by their denominators they give the numerators. */
  lemma MulSolvesFieldEquations(P: Point, Q: Point, d: int, p: int)
    requires Mul(P, Q, d, p).Ok?
    ensures (Mul(P, Q, d, p).value.x * (1 + Twist(P, Q, d))) % p == NumX(P, Q) % p
    ensures (Mul(P, Q, d, p).value.y * (1 - Twist(P, Q, d))) % p == NumY(P, Q) % p
  {
    var t := Twist(P, Q, d);
    var u := ModInverse(1 + t, p).value;
    var v := ModInverse(1 - t, p).value;
    QuotientLaw(NumX(P, Q), 1 + t, u, p);
    QuotientLaw(NumY(P, Q), 1 - t, v, p);
  }

  /** The addition law is commutative. */
  lemma MulSymmetric(P: Point, Q: Point, d: int, p: int)
    ensures Mul(P, Q, d, p) == Mul(Q, P, d, p)
  {
    assert Twist(P, Q, d) == Twist(Q, P, d);
    assert NumX(P, Q) == NumX(Q, P);
    assert NumY(P, Q) == NumY(Q, P);
    MulOfParts(P, Q, Q, P, d, p);
  }

  /** Mul depends on its arguments only through t and the two numerators. */
  lemma MulOfParts(P: Point, Q: Point, P': Point, Q': Point, d: int, p: int)
    requires Twist(P, Q, d) == Twist(P', Q', d)
    requires NumX(P, Q) == NumX(P', Q') && NumY(P, Q) == NumY(P', Q')
    ensures Mul(P, Q, d, p) == Mul(P', Q', d, p)
  {
  }

  /** The field equations determine the sum: any reduced point that satisfies them
      is the result of Mul. */
  lemma MulDetermined(P: Point, Q: Point, d: int, p: int, R: Point)
    requires Mul(P, Q, d, p).Ok? && Reduced(R, p)
    requires (R.x * (1 + Twist(P, Q, d))) % p == NumX(P, Q) % p
    requires (R.y * (1 - Twist(P, Q, d))) % p == NumY(P, Q) % p
    ensures Mul(P, Q, d, p).value == R
  {
    var S := Mul(P, Q, d, p).value;
    var t := Twist(P, Q, d);
    MulSolvesFieldEquations(P, Q, d, p);
    CancelUnit(S.x, R.x, 1 + t, p);
    CancelUnit(S.y, R.y, 1 - t, p);
    ModSmall(S.x, p);
    ModSmall(R.x, p);
    ModSmall(S.y, p);
    ModSmall(R.y, p);
  }

  /** Adding the neutral point on either side reduces the other point modulo p. */
  lemma MulNeutral(P: Point, d: int, p: int)
    requires p > 0
    ensures Mul(P, Neutral, d, p) == Ok(Reduce(P, p))
    ensures Mul(Neutral, P, d, p) == Ok(Reduce(P, p))
  {
    assert Twist(P, Neutral, d) == 0 by {
      assert d * P.x * Neutral.x == 0;
    }
    assert NumX(P, Neutral) == P.x;
    assert NumY(P, Neutral) == P.y;
    assert HasInverse(1, p) by {
      assert IsInverse(1, 1, p);
    }
    var u := ModInverse(1, p).value;
    assert u == 1 % p by {
      ModSmall(u, p);
      assert 1 * u == u;
    }
    ModMulRight(P.x, 1, p);
    ModMulRight(P.y, 1, p);
    MulSymmetric(P, Neutral, d, p);
  }

  lemma TwistReduced(P: Point, Q: Point, d: int, p: int)
    requires p > 0
    ensures Twist(P, Q, d) % p == Twist(Reduce(P, p), Reduce(Q, p), d) % p
  {
    var P', Q' := Reduce(P, p), Reduce(Q, p);
    ModIdempotent(P.x, p);
    ModIdempotent(P.y, p);
    ModIdempotent(Q.x, p);
    ModIdempotent(Q.y, p);
    MulCongruent5(d, P.x, Q.x, P.y, Q.y, d, P'.x, Q'.x, P'.y, Q'.y, p);
  }

  lemma NumReduced(P: Point, Q: Point, p: int)
    requires p > 0
    ensures NumX(P, Q) % p == NumX(Reduce(P, p), Reduce(Q, p)) % p
    ensures NumY(P, Q) % p == NumY(Reduce(P, p), Reduce(Q, p)) % p
  {
    var P', Q' := Reduce(P, p), Reduce(Q, p);
    ModIdempotent(P.x, p);
    ModIdempotent(P.y, p);
    ModIdempotent(Q.x, p);
    ModIdempotent(Q.y, p);
    MulCongruent(P.x, P'.x, Q.y, Q'.y, p);
    MulCongruent(P.y, P'.y, Q.x, Q'.x, p);
    AddCongruent(P.x * Q.y, P'.x * Q'.y, P.y * Q.x, P'.y * Q'.x, p);
    MulCongruent(P.y, P'.y, Q.y, Q'.y, p);
    MulCongruent(P.x, P'.x, Q.x, Q'.x, p);
    AddCongruent(P.y * Q.y, P'.y * Q'.y, P.x * Q.x, P'.x * Q'.x, p);
  }

  /** Mul depends only on the residues of its arguments modulo p. */
  lemma MulReduced(P: Point, Q: Point, d: int, p: int)
    requires p > 0
    ensures Mul(P, Q, d, p) == Mul(Reduce(P, p), Reduce(Q, p), d, p)
  {
    var t := Twist(P, Q, d);
    ReducedInverses(P, Q, d, p);
    match ModInverse(1 + t, p)
    case None =>
    case Some(u) =>
      match ModInverse(1 - t, p)
      case None =>
      case Some(v) => MulReducedUnits(P, Q, d, p, u, v);
  }

  /** Both denominators of the addition law have the same inverses for the
      reduced arguments. */
  lemma ReducedInverses(P: Point, Q: Point, d: int, p: int)
    requires p > 0
    ensures ModInverse(1 + Twist(P, Q, d), p) == ModInverse(1 + Twist(Reduce(P, p), Reduce(Q, p), d), p)
    ensures ModInverse(1 - Twist(P, Q, d), p) == ModInverse(1 - Twist(Reduce(P, p), Reduce(Q, p), d), p)
  {
    var t, t' := Twist(P, Q, d), Twist(Reduce(P, p), Reduce(Q, p), d);
    TwistReduced(P, Q, d, p);
    AddCongruent(1, 1, t, t', p);
    ModInverseOfResidue(1 + t, 1 + t', p);
    ModInverseOfResidue(1 - t, 1 - t', p);
  }

  /** MulReduced where both denominators are units, with inverses u and v. */
  lemma MulReducedUnits(P: Point, Q: Point, d: int, p: int, u: int, v: int)
    requires p > 0
    requires ModInverse(1 + Twist(P, Q, d), p) == Some(u)
    requires ModInverse(1 - Twist(P, Q, d), p) == Some(v)
    ensures Mul(P, Q, d, p) == Mul(Reduce(P, p), Reduce(Q, p), d, p)
  {
    var P', Q' := Reduce(P, p), Reduce(Q, p);
    ReducedInverses(P, Q, d, p);
    NumReduced(P, Q, p);
    MulCongruent(NumX(P, Q), NumX(P', Q'), u, u, p);
    MulCongruent(NumY(P, Q), NumY(P', Q'), v, v, p);
  }

  // ---------------------------------------------------------------------------
  // Exponentiation

  /** The recursive double-and-add definition of a^m: a^0 is the neutral point and
      a^(2q + r) is (a^q * a^q) * a^r, each product formed by Mul. */
  function Power(a: Point, m: nat, d: int, p: int): (r: Result<Point>)
    ensures r.Err? ==> r.error == ArithmeticError
    ensures r.Ok? && m > 0 ==> Reduced(r.value, p)
    decreases m
  {
    if m == 0 then Ok(Neutral)
    else
      match Power(a, m / 2, d, p)
      case Err(e) => Err(e)
      case Ok(h) =>
        match Mul(h, h, d, p)
        case Err(e) => Err(e)
        case Ok(sq) => if m % 2 == 1 then Mul(sq, a, d, p) else Ok(sq)
  }

  /** ECPoint.exp returns the neutral point for the exponent 0. */
  lemma PowerZero(a: Point, d: int, p: int)
    ensures Power(a, 0, d, p) == Ok(Neutral)
  {
  }

  /** A failure computing a^(q / 2) is a failure computing a^q. */
  lemma PowerOfHalfFails(a: Point, q: nat, d: int, p: int)
    requires q > 0 && Power(a, q / 2, d, p).Err?
    ensures Power(a, q, d, p).Err?
  {
  }

  /** A failure while computing the power of a prefix of the bits of m is a failure
      of the power of m. */
  lemma {:induction false} PowerFailsUp(a: Point, m: nat, i: nat, d: int, p: int)
    requires Power(a, ShiftRight(m, i), d, p).Err?
    ensures Power(a, m, d, p) == Err(ArithmeticError)
  {
    if i > 0 {
      PrefixFailsUp(a, m, i, d, p);
      PowerFailsUp(a, m, i - 1, d, p);
    }
  }

  /** One more bit: the prefix of length one more fails too. */
  lemma PrefixFailsUp(a: Point, m: nat, i: nat, d: int, p: int)
    requires i > 0 && Power(a, ShiftRight(m, i), d, p).Err?
    ensures Power(a, ShiftRight(m, i - 1), d, p).Err?
  {
    var q := ShiftRight(m, i - 1);
    PowerZero(a, d, p);
    PowerOfHalfFails(a, q, d, p);
  }

  /** ECPoint.exp: scans the bits of m from the most significant one down, squaring
      the accumulator and multiplying in a where the bit is set. */
  method Exp(a: Point, m: nat, d: int, p: int) returns (r: Result<Point>)
    ensures r == Power(a, m, d, p)
  {
    var b := Neutral;
    var i: int := BitLength(m) - 1;
    ShiftedBounds(m, BitLength(m));
    while i >= 0
      invariant -1 <= i < BitLength(m)
      invariant Power(a, ShiftRight(m, i + 1), d, p) == Ok(b)
      decreases i
    {
      ShiftStep(m, i);
      ShiftedBounds(m, i);
      var sq := Mul(b, b, d, p);
      if sq.Err? {
        PowerFailsUp(a, m, i, d, p);
        return Err(ArithmeticError);
      }
      b := sq.value;
      if TestBit(m, i) {
        var prod := Mul(b, a, d, p);
        if prod.Err? {
          PowerFailsUp(a, m, i, d, p);
          return Err(ArithmeticError);
        }
        b := prod.value;
      }
      i := i - 1;
    }
    r := Ok(b);
  }

  /** One round of Exp from the other side: a^m is the square of a^(m / 2),
      multiplied by a when m is odd. */
  lemma PowerUnfold(a: Point, m: nat, d: int, p: int, h: Point, sq: Point)
    requires m > 0 && Power(a, m / 2, d, p) == Ok(h) && Mul(h, h, d, p) == Ok(sq)
    ensures Power(a, m, d, p) == if m % 2 == 1 then Mul(sq, a, d, p) else Ok(sq)
  {
  }

  /** a^1 is a reduced modulo p. */
  lemma PowerOne(a: Point, d: int, p: int)
    requires p > 0
    ensures Power(a, 1, d, p) == Ok(Reduce(a, p))
  {
    var N' := Reduce(Neutral, p);
    assert Power(a, 1, d, p) == Mul(N', a, d, p) by {
      MulNeutral(Neutral, d, p);
      PowerUnfold(a, 1, d, p, Neutral, N');
    }
    assert Mul(N', a, d, p) == Mul(Neutral, a, d, p) by {
      assert Reduce(N', p) == N' by {
        ModIdempotent(1, p);
      }
      MulReduced(N', a, d, p);
      MulReduced(Neutral, a, d, p);
    }
    MulNeutral(a, d, p);
  }

  /** Squaring by exponentiation agrees with the general addition law:
      a^2 == Mul(a, a), with no separate doubling formula. */
  lemma PowerTwo(a: Point, d: int, p: int)
    requires p > 0
    ensures Power(a, 2, d, p) == Mul(a, a, d, p)
  {
    PowerOne(a, d, p);
    MulReduced(a, a, d, p);
  }
}

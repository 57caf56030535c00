/** Arithmetic modulo a positive integer, with Euclidean remainders as in
    BigInteger.mod (and Dafny's % on int), and the modular inverse of
    BigInteger.modInverse computed by the extended Euclidean algorithm. */
module ModArith {
  import opened Outcomes

  /** y is a multiplicative inverse of x modulo m. */
  ghost predicate IsInverse(x: int, y: int, m: int) {
    m > 0 && (x * y) % m == 1 % m
  }

  /** x is invertible modulo m (BigInteger.modInverse does not throw). */
  ghost predicate HasInverse(x: int, m: int) {
    exists y :: IsInverse(x, y, m)
  }

  // ---------------------------------------------------------------------------
  // Facts about Euclidean division

  lemma DivModUnique(a: int, m: int, q: int, r: int)
    requires m > 0 && 0 <= r < m && a == m * q + r
    ensures a / m == q && a % m == r
  {
    var q0, r0 := a / m, a % m;
    assert m * (q - q0) == r0 - r;
    if q - q0 > 0 {
      MulAtLeast(m, q - q0);
    } else if q - q0 < 0 {
      MulAtLeast(m, q0 - q);
    }
  }

  lemma MulAtLeast(m: int, c: int)
    requires m > 0 && c >= 1
    ensures m * c >= m
  {
    assert m * c == m * (c - 1) + m;
  }

  lemma ModSmall(a: int, m: int)
    requires 0 <= a < m
    ensures a % m == a
  {
    DivModUnique(a, m, 0, a);
  }

  lemma ModIdempotent(a: int, m: int)
    requires m > 0
    ensures (a % m) % m == a % m
  {
    ModSmall(a % m, m);
  }

  lemma ModAddMultiple(a: int, k: int, m: int)
    requires m > 0
    ensures (a + m * k) % m == a % m
  {
    assert a + m * k == m * (a / m + k) + a % m;
    DivModUnique(a + m * k, m, a / m + k, a % m);
  }

  /** Reducing the left factor of a product does not change the product modulo m. */
  lemma ModMulLeft(a: int, b: int, m: int)
    requires m > 0
    ensures (a * b) % m == ((a % m) * b) % m
  {
    var q, r := a / m, a % m;
    assert a * b == r * b + m * (q * b) by {
      assert a == m * q + r;
    }
    ModAddMultiple(r * b, q * b, m);
  }

  lemma ModMulRight(a: int, b: int, m: int)
    requires m > 0
    ensures (a * b) % m == (a * (b % m)) % m
  {
    assert a * b == b * a;
    assert a * (b % m) == (b % m) * a;
    ModMulLeft(b, a, m);
  }

  /** Products and sums of congruent numbers are congruent. */
  lemma MulCongruent(a: int, a': int, b: int, b': int, m: int)
    requires m > 0 && a % m == a' % m && b % m == b' % m
    ensures (a * b) % m == (a' * b') % m
  {
    ModMulLeft(a, b, m);
    ModMulLeft(a', b, m);
    ModMulRight(a', b, m);
    ModMulRight(a', b', m);
  }

  lemma MulCongruent5(a: int, b: int, c: int, e: int, f: int, a': int, b': int, c': int, e': int, f': int, m: int)
    requires m > 0 && a % m == a' % m && b % m == b' % m && c % m == c' % m
    requires e % m == e' % m && f % m == f' % m
    ensures (a * b * c * e * f) % m == (a' * b' * c' * e' * f') % m
  {
    var ab, ab' := a * b, a' * b';
    MulCongruent(a, a', b, b', m);
    var abc, abc' := ab * c, ab' * c';
    MulCongruent(ab, ab', c, c', m);
    var abce, abce' := abc * e, abc' * e';
    MulCongruent(abc, abc', e, e', m);
    MulCongruent(abce, abce', f, f', m);
  }

  lemma AddCongruent(a: int, a': int, b: int, b': int, m: int)
    requires m > 0 && a % m == a' % m && b % m == b' % m
    ensures (a + b) % m == (a' + b') % m
    ensures (a - b) % m == (a' - b') % m
  {
    var qa, qa', qb, qb' := a / m, a' / m, b / m, b' / m;
    assert a - a' == m * qa - m * qa';
    assert b - b' == m * qb - m * qb';
    assert m * (qa - qa' + qb - qb') == m * qa - m * qa' + m * qb - m * qb';
    assert m * (qa - qa' - qb + qb') == m * qa - m * qa' - m * qb + m * qb';
    ModAddMultiple(a' + b', qa - qa' + qb - qb', m);
    ModAddMultiple(a' - b', qa - qa' - qb + qb', m);
  }

  lemma DividesProduct(u: int, v: int, g: int)
    requires g > 0 && u % g == 0
    ensures (u * v) % g == 0
  {
    ModMulLeft(u, v, g);
  }

  lemma DividesDifference(u: int, v: int, g: int)
    requires g > 0 && u % g == 0 && v % g == 0
    ensures (u - v) % g == 0 && (u + v) % g == 0
  {
    AddCongruent(u, 0, v, 0, g);
  }

  /** Multiplying the quotient num * inv back by the divisor gives num: the meaning of
      field division by a unit. */
  lemma QuotientLaw(num: int, den: int, inv: int, m: int)
    requires IsInverse(den, inv, m)
    ensures (((num * inv) % m) * den) % m == num % m
  {
    calc {
      (((num * inv) % m) * den) % m;
      { ModMulLeft(num * inv, den, m); }
      ((num * inv) * den) % m;
      { assert (num * inv) * den == num * (den * inv); }
      (num * (den * inv)) % m;
      { ModMulRight(num, den * inv, m); }
      (num * ((den * inv) % m)) % m;
      { ModMulRight(num, 1, m); }
      num % m;
    }
  }

  /** A unit can be cancelled from a congruence. */
  lemma CancelUnit(u: int, v: int, c: int, m: int)
    requires HasInverse(c, m)
    requires (u * c) % m == (v * c) % m
    ensures u % m == v % m
  {
    var inv :| IsInverse(c, inv, m);
    MulCongruent(u * c, v * c, inv, inv, m);
    assert (u * c) * inv == u * (c * inv);
    assert (v * c) * inv == v * (c * inv);
    calc {
      u % m;
      { ModMulRight(u, 1, m); }
      (u * (1 % m)) % m;
      { ModMulRight(u, c * inv, m); }
      (u * (c * inv)) % m;
      (v * (c * inv)) % m;
      { ModMulRight(v, c * inv, m); }
      (v * (1 % m)) % m;
      { ModMulRight(v, 1, m); }
      v % m;
    }
  }

  // ---------------------------------------------------------------------------
  // Extended Euclid and the modular inverse

  /** A common divisor of b and a % b divides a. */
  lemma DividesFromRemainder(a: int, b: int, g: int)
    requires b > 0
    ensures g > 0 && b % g == 0 && (a % b) % g == 0 ==> a % g == 0
  {
    if g > 0 && b % g == 0 && (a % b) % g == 0 {
      assert a == b * (a / b) + a % b;
      DividesProduct(b, a / b, g);
      DividesDifference(b * (a / b), a % b, g);
    }
  }

  lemma BezoutStep(a: int, b: int, q: int, r: int, s: int, t: int)
    requires a == b * q + r
    ensures t * a + (s - q * t) * b == s * b + t * r
  {
    assert t * a == t * (b * q) + t * r;
    assert (s - q * t) * b == s * b - (q * t) * b;
    assert t * (b * q) == (q * t) * b;
  }

  /** Returns (g, s, t) with s*a + t*b == g, where g divides both a and b. */
  function ExtGcd(a: nat, b: nat): (r: (nat, int, int))
    ensures r.1 * a + r.2 * b == r.0
    ensures (a > 0 || b > 0) ==> r.0 > 0 && a % r.0 == 0 && b % r.0 == 0
    decreases b
  {
    if b == 0 then (a, 1, 0)
    else
      var (g, s, t) := ExtGcd(b, a % b);
      DividesFromRemainder(a, b, g);
      BezoutStep(a, b, a / b, a % b, s, t);
      (g, t, s - (a / b) * t)
  }

  lemma BezoutInverse(x: int, m: int, s: int, t: int)
    requires m > 0 && s * (x % m) + t * m == 1
    ensures IsInverse(x, s % m, m)
  {
    calc {
      (x * (s % m)) % m;
      { ModMulRight(x, s, m); }
      (x * s) % m;
      { ModMulLeft(x, s, m); }
      ((x % m) * s) % m;
      { assert (x % m) * s == 1 + m * (-t); ModAddMultiple(1, -t, m); }
      1 % m;
    }
  }

  lemma DivisorAtMost(m: int, g: int)
    requires m > 0 && g > 0 && m % g == 0
    ensures g <= m
  {
    assert m == g * (m / g);
    assert m / g >= 1;
    MulAtLeast(g, m / g);
  }

  lemma MultipleNotUnit(x: int, y: int, m: int, g: int)
    requires m >= g > 1 && x % g == 0 && m % g == 0
    ensures (x * y) % m != 1
  {
    var xy := x * y;
    DividesProduct(x, y, g);
    var q := xy / m;
    if xy % m == 1 {
      assert xy == m * q + 1;
      DividesProduct(m, q, g);
      DividesDifference(xy, m * q, g);
    }
  }

  /** A common divisor of m and x % m divides x. */
  lemma DividesFromResidue(x: int, m: int, g: int)
    requires m > 0 && g > 1 && (x % m) % g == 0 && m % g == 0
    ensures x % g == 0
  {
    assert x == x % m + m * (x / m);
    DividesProduct(m, x / m, g);
    DividesDifference(x % m, m * (x / m), g);
  }

  /** A common divisor g > 1 of x and m rules out an inverse of x modulo m. */
  lemma CommonDivisorBlocksInverse(x: int, m: int, g: int)
    requires m > 0 && g > 1 && (x % m) % g == 0 && m % g == 0
    ensures !HasInverse(x, m)
  {
    DivisorAtMost(m, g);
    DividesFromResidue(x, m, g);
    forall y
      ensures !IsInverse(x, y, m)
    {
      MultipleNotUnit(x, y, m, g);
    }
  }

  /** The inverse depends only on the residue of x. */
  lemma ModInverseOfResidue(x: int, x': int, m: int)
    requires m > 0 && x % m == x' % m
    ensures ModInverse(x, m) == ModInverse(x', m)
  {
  }

  /** BigInteger.modInverse: the inverse of x modulo m in [0, m), or None where
      Java throws ArithmeticException (m not positive, or x not coprime to m). */
  function ModInverse(x: int, m: int): (r: Option<int>)
    ensures r.Some? <==> HasInverse(x, m)
    ensures r.Some? ==> 0 <= r.value < m && IsInverse(x, r.value, m)
  {
    if m <= 0 then None
    else
      var (g, s, t) := ExtGcd(x % m, m);
      if g == 1 then
        BezoutInverse(x, m, s, t);
        Some(s % m)
      else
        CommonDivisorBlocksInverse(x, m, g);
        None
  }

  // ---------------------------------------------------------------------------
  // Bits of a non-negative BigInteger

  /** 2^i. */
  function Pow2(i: nat): (r: nat)
    ensures r >= 1
  {
    if i == 0 then 1 else 2 * Pow2(i - 1)
  }

  /** BigInteger.bitLength for m >= 0: the number of binary digits of m. */
  function BitLength(m: nat): nat {
    if m == 0 then 0 else 1 + BitLength(m / 2)
  }

  /** m >> i for m >= 0: m with its i lowest binary digits dropped. */
  function ShiftRight(m: nat, i: nat): nat {
    if i == 0 then m else ShiftRight(m, i - 1) / 2
  }

  /** BigInteger.testBit for m >= 0: digit i of m in binary. */
  function TestBit(m: nat, i: nat): bool {
    ShiftRight(m, i) % 2 == 1
  }

  lemma MulMonotone(b: int, x: int, y: int)
    requires b >= 0 && x <= y
    ensures b * x <= b * y
  {
    assert b * y - b * x == b * (y - x);
  }

  /** BitLength(m) binary digits are enough for m and, for m > 0, all needed:
      2^(BitLength(m) - 1) <= m < 2^BitLength(m). */
  lemma {:induction false} BitLengthBounds(m: nat)
    ensures m < Pow2(BitLength(m))
    ensures m > 0 ==> Pow2(BitLength(m) - 1) <= m
  {
    if m > 0 {
      BitLengthBounds(m / 2);
    }
  }

  /** Dropping i + 1 digits is dropping the lowest digit, then i more. */
  lemma {:induction false} ShiftRightHalf(m: nat, i: nat)
    ensures ShiftRight(m, i + 1) == ShiftRight(m / 2, i)
  {
    if i > 0 {
      ShiftRightHalf(m, i - 1);
    }
  }

  /** Digit i splits m >> i into m >> (i + 1) and that digit. */
  lemma ShiftStep(m: nat, i: nat)
    ensures ShiftRight(m, i) == 2 * ShiftRight(m, i + 1) + (if TestBit(m, i) then 1 else 0)
  {
  }

  /** Exactly the digits below the bit length are significant: dropping fewer of
      them leaves a positive number, dropping at least that many leaves zero. */
  lemma {:induction false} ShiftedBounds(m: nat, i: nat)
    ensures i < BitLength(m) ==> ShiftRight(m, i) >= 1
    ensures i >= BitLength(m) ==> ShiftRight(m, i) == 0
  {
    if i > 0 {
      ShiftRightHalf(m, i - 1);
      ShiftedBounds(m / 2, i - 1);
    }
  }
}

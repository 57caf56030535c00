/** Iterating a step function that may fail, as the point part of the rho walk
    does. Nothing here depends on what the step computes: only that every point
    it produces lies in the box [0, p) x [0, p), which makes the orbit
    eventually periodic and Floyd's race of a slow and a fast copy end. */
module Orbit {
  import opened Outcomes
  import opened ModArith
  import opened ECPoint
  import opened Counting

  /** z0, f(z0), f(f(z0)), ...: the k-th point, or the first failure. */
  function Iterate(f: Point -> Result<Point>, z0: Point, k: nat): Result<Point> {
    if k == 0 then Ok(z0)
    else
      match Iterate(f, z0, k - 1)
      case Err(e) => Err(e)
      case Ok(z) => f(z)
  }

  /** Every point that f produces is reduced modulo p. */
  ghost predicate StaysInBox(f: Point -> Result<Point>, p: int) {
    forall z :: f(z).Ok? ==> Reduced(f(z).value, p)
  }

  /** Floyd's race stops at round k: both copies have failed, or they meet. */
  predicate Meets(f: Point -> Result<Point>, z0: Point, k: nat) {
    k >= 1 && (Iterate(f, z0, 2 * k).Err? || Iterate(f, z0, k) == Iterate(f, z0, 2 * k))
  }

  /** Once the orbit fails it stays failed. */
  lemma {:induction false} ErrPersists(f: Point -> Result<Point>, z0: Point, i: nat, j: nat)
    requires i <= j && Iterate(f, z0, i).Err?
    ensures Iterate(f, z0, j).Err?
    decreases j - i
  {
    if i < j {
      ErrPersists(f, z0, i + 1, j);
    }
  }

  /** Two equal entries of the orbit have equal futures. */
  lemma {:induction false} Shift(f: Point -> Result<Point>, z0: Point, i: nat, j: nat, t: nat)
    requires Iterate(f, z0, i) == Iterate(f, z0, j)
    ensures Iterate(f, z0, i + t) == Iterate(f, z0, j + t)
  {
    if t > 0 {
      Shift(f, z0, i, j, t - 1);
      assert i + t - 1 == i + (t - 1) && j + t - 1 == j + (t - 1);
    }
  }

  /** c laps of length L, counted without multiplication. */
  function Laps(c: nat, L: nat): (r: nat)
    ensures L >= 1 ==> r >= c
  {
    if c == 0 then 0 else Laps(c - 1, L) + L
  }

  /** After a repeat at i and i + L the orbit is periodic with period L from i on. */
  lemma {:induction false} Periodic(f: Point -> Result<Point>, z0: Point, i: nat, L: nat, t: nat, c: nat)
    requires Iterate(f, z0, i) == Iterate(f, z0, i + L)
    requires i <= t
    ensures Iterate(f, z0, t + Laps(c, L)) == Iterate(f, z0, t)
  {
    if c > 0 {
      Periodic(f, z0, i, L, t, c - 1);
      var before := t + Laps(c - 1, L);
      Shift(f, z0, i, i + L, before - i);
      assert i + (before - i) == before && i + L + (before - i) == t + Laps(c, L);
    }
  }

  /** A reduced point as a number in [0, p * p), or -1 for a failure. */
  function Code(r: Result<Point>, p: int): int {
    match r
    case Err(_) => -1
    case Ok(z) => z.x * p + z.y
  }

  lemma CodeBound(z: Point, p: int)
    requires Reduced(z, p)
    ensures 0 <= Code(Ok(z), p) < p * p
  {
    MulMonotone(p, z.x, p - 1);
    assert z.x * p <= p * (p - 1) == p * p - p;
  }

  lemma CodeInjective(z: Point, w: Point, p: int)
    requires Reduced(z, p) && Reduced(w, p)
    requires Code(Ok(z), p) == Code(Ok(w), p)
    ensures z == w
  {
    var c := Code(Ok(z), p);
    DivModUnique(c, p, z.x, z.y);
    DivModUnique(c, p, w.x, w.y);
  }

  /** In a box of p * p points, within the first p * p + 1 steps the orbit fails
      or repeats. */
  lemma Repeat(f: Point -> Result<Point>, z0: Point, p: int) returns (i: nat, j: nat)
    requires p > 0 && StaysInBox(f, p)
    ensures 1 <= i < j && i <= p * p + 1
    ensures Iterate(f, z0, i).Err? || (j <= p * p + 1 && Iterate(f, z0, i) == Iterate(f, z0, j))
  {
    var N := p * p;
    if Iterate(f, z0, N + 1).Err? {
      i, j := N + 1, N + 2;
    } else {
      i, j := RepeatWhileRunning(f, z0, p, N);
    }
  }

  /** The pigeonhole step of Repeat: when the first N + 1 = p * p + 1 steps all
      succeed, two of them land on the same point. */
  lemma RepeatWhileRunning(f: Point -> Result<Point>, z0: Point, p: int, N: nat) returns (i: nat, j: nat)
    requires p > 0 && StaysInBox(f, p) && N == p * p && Iterate(f, z0, N + 1).Ok?
    ensures 1 <= i < j <= N + 1 && Iterate(f, z0, i) == Iterate(f, z0, j)
  {
    i, j := SameCode(f, z0, p, N);
    RunningAt(f, z0, p, N, i);
    RunningAt(f, z0, p, N, j);
    CodeInjective(Iterate(f, z0, i).value, Iterate(f, z0, j).value, p);
  }

  /** Two of the first N + 1 points share a code. */
  lemma SameCode(f: Point -> Result<Point>, z0: Point, p: int, N: nat) returns (i: nat, j: nat)
    requires p > 0 && StaysInBox(f, p) && N == p * p && Iterate(f, z0, N + 1).Ok?
    ensures 1 <= i < j <= N + 1 && Code(Iterate(f, z0, i), p) == Code(Iterate(f, z0, j), p)
  {
    var codes := Codes(f, z0, p, N + 1);
    CodesBounded(f, z0, p, N, codes);
    var x, y := RepeatAt(codes, N);
    i, j := x + 1, y + 1;
  }

  /** The codes of the points after steps 1 .. n. */
  function Codes(f: Point -> Result<Point>, z0: Point, p: int, n: nat): (s: seq<int>)
    ensures |s| == n && forall x :: 0 <= x < n ==> s[x] == Code(Iterate(f, z0, x + 1), p)
  {
    if n == 0 then [] else Codes(f, z0, p, n - 1) + [Code(Iterate(f, z0, n), p)]
  }

  /** A step that succeeds was preceded by steps that succeeded, all in the box. */
  lemma RunningAt(f: Point -> Result<Point>, z0: Point, p: int, N: nat, k: nat)
    requires StaysInBox(f, p) && Iterate(f, z0, N + 1).Ok? && 1 <= k <= N + 1
    ensures Iterate(f, z0, k).Ok? && Reduced(Iterate(f, z0, k).value, p)
  {
    if Iterate(f, z0, k).Err? {
      ErrPersists(f, z0, k, N + 1);
    }
    InBox(f, z0, p, k);
  }

  /** The codes of the first N + 1 points all lie in [0, N). */
  lemma CodesBounded(f: Point -> Result<Point>, z0: Point, p: int, N: nat, codes: seq<int>)
    requires N == p * p && |codes| == N + 1 && StaysInBox(f, p) && Iterate(f, z0, N + 1).Ok?
    requires forall x :: 0 <= x < N + 1 ==> codes[x] == Code(Iterate(f, z0, x + 1), p)
    ensures Bounded(codes, N)
  {
    forall x | 0 <= x < N + 1
      ensures 0 <= codes[x] < N
    {
      RunningAt(f, z0, p, N, x + 1);
      CodeBound(Iterate(f, z0, x + 1).value, p);
    }
  }

  /** Every point of the orbit after the start is reduced. */
  lemma InBox(f: Point -> Result<Point>, z0: Point, p: int, k: nat)
    requires StaysInBox(f, p) && k >= 1
    ensures Iterate(f, z0, k).Ok? ==> Reduced(Iterate(f, z0, k).value, p)
  {
  }

  /** Floyd's cycle finding ends: some round k >= 1 has the fast copy failed or
      both copies on the same point. Without a positive modulus the first step
      already fails. */
  lemma FloydMeets(f: Point -> Result<Point>, z0: Point, p: int) returns (k: nat)
    requires StaysInBox(f, p)
    ensures Meets(f, z0, k)
  {
    if p <= 0 {
      InBox(f, z0, p, 1);
      ErrPersists(f, z0, 1, 2);
      k := 1;
    } else {
      var i, j := Repeat(f, z0, p);
      if Iterate(f, z0, i).Err? {
        ErrPersists(f, z0, i, 2 * i);
        k := i;
      } else {
        var L := j - i;
        k := Laps(i, L);
        Periodic(f, z0, i, L, k, i);
        assert k + Laps(i, L) == 2 * k;
      }
    }
  }
}

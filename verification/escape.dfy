/** The escape-time evaluator: iterates z := z*z + c from z = 0 and reports the
    first iteration at which the squared magnitude of z exceeds 4. Complex
    numbers are pairs of exact reals. */
module Escape {

  datatype Option<T> = None | Some(value: T)

  /** A complex number with real part `re` and imaginary part `im`. */
  datatype Complex = Complex(re: real, im: real)

  const Origin := Complex(0.0, 0.0)

  function Add(a: Complex, b: Complex): Complex {
    Complex(a.re + b.re, a.im + b.im)
  }

  function Mul(a: Complex, b: Complex): Complex {
    Complex(a.re * b.re - a.im * b.im, a.re * b.im + a.im * b.re)
  }

  /** The squared magnitude |z|^2; it is never negative. */
  function NormSqr(z: Complex): (n: real)
    ensures n >= 0.0
  {
    z.re * z.re + z.im * z.im
  }

  /** One step of the iteration: z*z + c. */
  function Step(z: Complex, c: Complex): Complex {
    Add(Mul(z, z), c)
  }

  /** From the origin, one step lands on c itself. */
  lemma StepFromOrigin(c: Complex)
    ensures Step(Origin, c) == c
  {
    assert Mul(Origin, Origin) == Origin;
  }

  /** One step from -1 returns to the origin. Kept apart from the induction
      below, whose context makes the solver lose its way on this product. */
  lemma StepAtMinusOne()
    ensures Step(Complex(-1.0, 0.0), Complex(-1.0, 0.0)) == Origin
  {
  }

  /** The n-th iterate of z := z*z + c, starting from z = 0. */
  function Orbit(c: Complex, n: nat): Complex {
    if n == 0 then Origin else Step(Orbit(c, n - 1), c)
  }

  /** The escape test applied at iteration n, before that iteration's update. */
  predicate Escapes(c: Complex, n: nat) {
    NormSqr(Orbit(c, n)) > 4.0
  }

  /** `r` is the outcome of the escape-time test with `limit` iterations:
      `Some(i)` names the first iteration below `limit` at which the orbit
      escapes, and `None` says that no iteration below `limit` escapes. */
  ghost predicate IsFirstEscape(c: Complex, limit: nat, r: Option<nat>) {
    match r
    case None => forall j :: 0 <= j < limit ==> !Escapes(c, j)
    case Some(i) => i < limit && Escapes(c, i) && forall j :: 0 <= j < i ==> !Escapes(c, j)
  }

  /** The escape-time result as a function, by recursion on the limit: raising
      the limit by one can only turn "did not escape" into an escape at the new
      last iteration. */
  function EscapeTime(c: Complex, limit: nat): (r: Option<nat>)
    ensures IsFirstEscape(c, limit, r)
  {
    if limit == 0 then None
    else match EscapeTime(c, limit - 1)
      case Some(i) => Some(i)
      case None => if Escapes(c, limit - 1) then Some(limit - 1) else None
  }

  /** At most one outcome satisfies the first-escape property. */
  lemma FirstEscapeUnique(c: Complex, limit: nat, r1: Option<nat>, r2: Option<nat>)
    requires IsFirstEscape(c, limit, r1) && IsFirstEscape(c, limit, r2)
    ensures r1 == r2
  {
  }

  /** The escape-time test, as a loop over a mutable z with an early return. */
  method PointZValue(c: Complex, limit: nat) returns (r: Option<nat>)
    ensures IsFirstEscape(c, limit, r)
    ensures r == EscapeTime(c, limit)
  {
    var z := Origin;
    for i := 0 to limit
      invariant z == Orbit(c, i)
      invariant forall j :: 0 <= j < i ==> !Escapes(c, j)
    {
      if NormSqr(z) > 4.0 {
        r := Some(i);
        FirstEscapeUnique(c, limit, r, EscapeTime(c, limit));
        return;
      }
      z := Add(Mul(z, z), c);
    }
    r := None;
    FirstEscapeUnique(c, limit, r, EscapeTime(c, limit));
  }

  /** The result is "did not escape" exactly when no iteration below the limit
      escapes, and an escape is reported at an index below the limit. */
  lemma EscapeTimeNoneIff(c: Complex, limit: nat)
    ensures EscapeTime(c, limit).None? <==> forall j :: 0 <= j < limit ==> !Escapes(c, j)
    ensures EscapeTime(c, limit).Some? ==> EscapeTime(c, limit).value < limit
  {
    var r := EscapeTime(c, limit);
    if r.Some? {
      assert Escapes(c, r.value);
    }
  }

  /** The escape test never fires at iteration 0: the orbit starts at the
      origin, whose squared magnitude is 0. */
  lemma ZeroNeverEscapes(c: Complex)
    ensures !Escapes(c, 0)
  {
    assert Orbit(c, 0) == Origin;
    assert NormSqr(Origin) == 0.0;
  }

  /** Iteration 0 is never reported as the escape iteration. */
  lemma NeverEscapesAtZero(c: Complex, limit: nat)
    ensures EscapeTime(c, limit) != Some(0)
  {
    ZeroNeverEscapes(c);
  }

  /** Raising the limit keeps an escape that was already found, and lowering
      it keeps "did not escape". */
  lemma {:induction false} EscapeTimeLimitMonotone(c: Complex, limit: nat, larger: nat)
    requires limit <= larger
    ensures EscapeTime(c, limit).Some? ==> EscapeTime(c, larger) == EscapeTime(c, limit)
    ensures EscapeTime(c, larger).None? ==> EscapeTime(c, limit).None?
    decreases larger - limit
  {
    if limit < larger {
      EscapeTimeLimitMonotone(c, limit, larger - 1);
    }
  }

  /** The first iterate is c itself. */
  lemma OrbitAtOne(c: Complex)
    ensures Orbit(c, 1) == c
  {
    assert Orbit(c, 0) == Origin;
    StepFromOrigin(c);
  }

  lemma LargePointEscapesAtIterationOne(c: Complex)
    requires NormSqr(c) > 4.0
    ensures Escapes(c, 1)
  {
    OrbitAtOne(c);
  }

  /** A point outside the disk of radius 2 escapes at iteration 1, the first
      iterate being c itself. */
  lemma LargePointEscapesAtOne(c: Complex, limit: nat)
    requires NormSqr(c) > 4.0 && limit >= 2
    ensures EscapeTime(c, limit) == Some(1)
  {
    LargePointEscapesAtIterationOne(c);
    ZeroNeverEscapes(c);
    FirstEscapeUnique(c, limit, EscapeTime(c, limit), Some(1));
  }

  lemma {:induction false} OriginOrbit(n: nat)
    ensures Orbit(Origin, n) == Origin
  {
    if n > 0 {
      OriginOrbit(n - 1);
    }
  }

  /** c = 0 lies in the Mandelbrot set: it never escapes, whatever the limit. */
  lemma OriginNeverEscapes(limit: nat)
    ensures EscapeTime(Origin, limit) == None
  {
    var r := EscapeTime(Origin, limit);
    if r.Some? {
      OriginOrbit(r.value);
      assert false;
    }
  }

  /** The orbit of -1 alternates between 0 and -1. */
  lemma {:induction false} MinusOneOrbit(c: Complex, n: nat)
    requires c == Complex(-1.0, 0.0)
    ensures Orbit(c, n) == Origin || Orbit(c, n) == c
  {
    if n > 0 {
      MinusOneOrbit(c, n - 1);
      if Orbit(c, n - 1) == Origin {
        StepFromOrigin(c);
      } else {
        StepAtMinusOne();
      }
    }
  }

  /** c = -1 lies in the Mandelbrot set: its orbit cycles 0, -1, 0, -1, ...
      and never escapes, whatever the limit. */
  lemma MinusOneNeverEscapes(limit: nat)
    ensures EscapeTime(Complex(-1.0, 0.0), limit) == None
  {
    var c := Complex(-1.0, 0.0);
    var r := EscapeTime(c, limit);
    if r.Some? {
      MinusOneOrbit(c, r.value);
      assert false;
    }
  }

  /** The first three iterates of c = 1+i are 0, 1+i and 1+3i. */
  lemma OnePlusIOrbit(c: Complex)
    requires c == Complex(1.0, 1.0)
    ensures Orbit(c, 1) == c && Orbit(c, 2) == Complex(1.0, 3.0)
  {
    OrbitAtOne(c);
    assert Step(c, c) == Complex(1.0, 3.0);
  }

  /** Only the third iterate of c = 1+i lies outside the disk of radius 2. */
  lemma OnePlusIEscapes(c: Complex)
    requires c == Complex(1.0, 1.0)
    ensures !Escapes(c, 0) && !Escapes(c, 1) && Escapes(c, 2)
  {
    ZeroNeverEscapes(c);
    OnePlusIOrbit(c);
    assert NormSqr(c) == 2.0 && NormSqr(Complex(1.0, 3.0)) == 10.0;
  }

  /** c = 1+i has orbit 0, 1+i, 1+3i, ...: squared magnitudes 0, 2, 10, so it
      escapes at iteration 2 once the limit lets iteration 2 run. */
  lemma OnePlusIEscapesAtTwo(limit: nat)
    ensures EscapeTime(Complex(1.0, 1.0), limit) == if limit >= 3 then Some(2) else None
  {
    var c := Complex(1.0, 1.0);
    OnePlusIEscapes(c);
    assert forall j :: 0 <= j < 2 ==> !Escapes(c, j) by {
      forall j | 0 <= j < 2 ensures !Escapes(c, j) {
        assert j == 0 || j == 1;
      }
    }
    if limit >= 3 {
      FirstEscapeUnique(c, limit, EscapeTime(c, limit), Some(2));
    } else {
      FirstEscapeUnique(c, limit, EscapeTime(c, limit), None);
    }
  }
}

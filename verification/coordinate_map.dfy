/** The coordinate mapper: linear interpolation from a source interval onto a
    target interval. Floating-point numbers are modelled as exact reals. */
module CoordinateMap {

  /** `x` lies in the closed interval spanned by `a` and `b`, whichever is larger. */
  predicate Between(x: real, a: real, b: real) {
    (a <= x <= b) || (b <= x <= a)
  }

  /** Maps `val` from the interval [floorIn, ceilIn] onto [floorOut, ceilOut],
      extrapolating linearly outside it. The source interval must not be empty:
      the division by its width is undefined otherwise. The ensures clause is the
      defining proportion: the distance from floorOut, scaled by the source width,
      equals the distance from floorIn, scaled by the target width. */
  function Affine(floorIn: real, val: real, ceilIn: real, floorOut: real, ceilOut: real): (r: real)
    requires ceilIn != floorIn
    ensures (r - floorOut) * (ceilIn - floorIn) == (val - floorIn) * (ceilOut - floorOut)
  {
    ((val - floorIn) / (ceilIn - floorIn)) * (ceilOut - floorOut) + floorOut
  }

  /** The lower end of the source interval maps onto the lower end of the target. */
  lemma AffineAtFloor(floorIn: real, ceilIn: real, floorOut: real, ceilOut: real)
    requires ceilIn != floorIn
    ensures Affine(floorIn, floorIn, ceilIn, floorOut, ceilOut) == floorOut
  {
  }

  /** The upper end of the source interval maps onto the upper end of the target
      (in exact arithmetic). */
  lemma AffineAtCeil(floorIn: real, ceilIn: real, floorOut: real, ceilOut: real)
    requires ceilIn != floorIn
    ensures Affine(floorIn, ceilIn, ceilIn, floorOut, ceilOut) == ceilOut
  {
    var r := Affine(floorIn, ceilIn, ceilIn, floorOut, ceilOut);
    assert (r - floorOut) * (ceilIn - floorIn) == (ceilOut - floorOut) * (ceilIn - floorIn);
  }

  /** Mapping back with the intervals exchanged recovers the original value:
      the map is a bijection between the two lines when both widths are nonzero. */
  lemma AffineInverse(floorIn: real, val: real, ceilIn: real, floorOut: real, ceilOut: real)
    requires ceilIn != floorIn && ceilOut != floorOut
    ensures Affine(floorOut, Affine(floorIn, val, ceilIn, floorOut, ceilOut), ceilOut, floorIn, ceilIn) == val
  {
    var r := Affine(floorIn, val, ceilIn, floorOut, ceilOut);
    var v := Affine(floorOut, r, ceilOut, floorIn, ceilIn);
    var dIn, dOut := ceilIn - floorIn, ceilOut - floorOut;
    assert (v - floorIn) * dOut == (r - floorOut) * dIn;
    assert (r - floorOut) * dIn == (val - floorIn) * dOut;
    assert (v - val) * dOut == 0.0;
  }

  /** A value inside the source interval is mapped inside the target interval:
      there is no extrapolation without an input outside the source interval. */
  lemma AffineBetween(floorIn: real, val: real, ceilIn: real, floorOut: real, ceilOut: real)
    requires ceilIn != floorIn
    requires Between(val, floorIn, ceilIn)
    ensures Between(Affine(floorIn, val, ceilIn, floorOut, ceilOut), floorOut, ceilOut)
  {
    var t := (val - floorIn) / (ceilIn - floorIn);
    assert 0.0 <= t <= 1.0 by {
      assert t * (ceilIn - floorIn) == val - floorIn;
    }
    var r := Affine(floorIn, val, ceilIn, floorOut, ceilOut);
    assert r == t * (ceilOut - floorOut) + floorOut;
    if floorOut <= ceilOut {
      ScaleWithin(t, ceilOut - floorOut);
    } else {
      ScaleWithin(t, floorOut - ceilOut);
    }
  }

  /** A fraction of a nonnegative width lies between zero and that width. */
  lemma ScaleWithin(t: real, w: real)
    requires 0.0 <= t <= 1.0 && 0.0 <= w
    ensures 0.0 <= t * w <= w
  {
    assert w - t * w == (1.0 - t) * w;
  }
}

/**
 * Snapping to the device-pixel grid in drawTile: JavaScript's Math.round and
 * pixelRound, which rounds a value to the nearest multiple of 1 / pixelRatio.
 */
module PixelGrid {

  /** A real that is a whole number. */
  predicate IsInteger(v: real) {
    v.Floor as real == v
  }

  /**
   * Math.round: the integer nearest to v, halves rounded up (towards +infinity), that
   * is floor(v + 0.5). It is the one integer in the half-open interval (v - 1/2, v + 1/2].
   */
  function JsRound(v: real): (r: int)
    ensures v - 0.5 < r as real <= v + 0.5
  {
    (v + 0.5).Floor
  }

  /** No other integer lies in (v - 1/2, v + 1/2]. */
  lemma JsRoundUnique(v: real, k: int)
    requires v - 0.5 < k as real <= v + 0.5
    ensures k == JsRound(v)
  {
  }

  /**
   * pixelRound: value rounded to the grid of multiples of 1 / pixelRatio. The
   * result lies on the grid and at most half a grid step from value (ties go up).
   */
  function PixelRound(value: real, pixelRatio: real): (r: real)
    requires pixelRatio > 0.0
    ensures r * pixelRatio == JsRound(value * pixelRatio) as real
    ensures IsInteger(r * pixelRatio)
    ensures value - 0.5 / pixelRatio < r <= value + 0.5 / pixelRatio
  {
    ScaleBack(JsRound(value * pixelRatio) as real, pixelRatio);
    ScaleBounds(value, JsRound(value * pixelRatio) as real, pixelRatio);
    JsRound(value * pixelRatio) as real / pixelRatio
  }

  /** (k / s) * s == k. */
  lemma ScaleBack(k: real, s: real)
    requires s > 0.0
    ensures (k / s) * s == k
  {
  }

  /** From v*s - 1/2 < k <= v*s + 1/2, dividing by s > 0. */
  lemma ScaleBounds(v: real, k: real, s: real)
    requires s > 0.0 && v * s - 0.5 < k <= v * s + 0.5
    ensures v - 0.5 / s < k / s <= v + 0.5 / s
  {
    assert k / s == (k - v * s) / s + v;
    assert (k - v * s) / s <= 0.5 / s;
    assert -0.5 / s < (k - v * s) / s;
  }

  /**
   * The grid point PixelRound picks is the only grid point in
   * (value - 1/(2 pixelRatio), value + 1/(2 pixelRatio)].
   */
  lemma PixelRoundUnique(value: real, pixelRatio: real, g: real)
    requires pixelRatio > 0.0 && IsInteger(g * pixelRatio)
    requires value - 0.5 / pixelRatio < g <= value + 0.5 / pixelRatio
    ensures g == PixelRound(value, pixelRatio)
  {
    var k := (g * pixelRatio).Floor;
    UnscaleBounds(value, g, pixelRatio);
    JsRoundUnique(value * pixelRatio, k);
    ScaleBack(g, pixelRatio);
    assert g == (g * pixelRatio) / pixelRatio;
  }

  /** The converse of ScaleBounds: multiplying by s > 0. */
  lemma UnscaleBounds(v: real, g: real, s: real)
    requires s > 0.0 && v - 0.5 / s < g <= v + 0.5 / s
    ensures v * s - 0.5 < g * s <= v * s + 0.5
  {
    assert (g - v) * s <= (0.5 / s) * s;
    assert (-0.5 / s) * s < (g - v) * s;
  }

  /** A value already on the grid is left where it is. */
  lemma PixelRoundOnGrid(value: real, pixelRatio: real)
    requires pixelRatio > 0.0 && IsInteger(value * pixelRatio)
    ensures PixelRound(value, pixelRatio) == value
  {
    assert 0.5 / pixelRatio > 0.0;
    PixelRoundUnique(value, pixelRatio, value);
  }

  /** Rounding twice is rounding once. */
  lemma PixelRoundIdempotent(value: real, pixelRatio: real)
    requires pixelRatio > 0.0
    ensures PixelRound(PixelRound(value, pixelRatio), pixelRatio) == PixelRound(value, pixelRatio)
  {
    var r := PixelRound(value, pixelRatio);
    assert r * pixelRatio == JsRound(value * pixelRatio) as real;
    PixelRoundOnGrid(r, pixelRatio);
  }

  /** Rounding keeps the order of values. */
  lemma PixelRoundMonotone(v: real, w: real, pixelRatio: real)
    requires pixelRatio > 0.0 && v <= w
    ensures PixelRound(v, pixelRatio) <= PixelRound(w, pixelRatio)
  {
    var kv := JsRound(v * pixelRatio);
    var kw := JsRound(w * pixelRatio);
    assert v * pixelRatio <= w * pixelRatio;
    assert kv <= kw;
    assert kv as real / pixelRatio <= kw as real / pixelRatio;
  }
}

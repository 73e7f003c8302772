/**
 * Pixel and percentage arithmetic of the focal point widget: the clamped
 * rounding `focalPointRound`, the conversions between an indicator offset
 * in pixels and a percentage of the image, and the choice of image size in
 * `focalPointGetDimensions`.
 */
module Geometry {
  import opened Numbers

  /** Width and height of the image in pixels. */
  datatype Dimensions = Dimensions(width: real, height: real)

  /**
   * `focalPointRound(value, min, max)`: `Math.round(value)`, raised to
   * `min`, then lowered to `max`. When `min <= max` the result lies in
   * `[min, max]`, and an integer already in that range comes back unchanged.
   */
  function FocalPointRound(value: real, min: int, max: int): (r: int)
    ensures min <= max ==> min <= r <= max
    ensures min <= max && value.Floor as real == value && min <= value.Floor <= max ==> r == value.Floor
    ensures r <= max
  {
    var raised := if Round(value) < min then min else Round(value);
    if raised > max then max else raised
  }

  /** Among the integers of `[min, max]`, none is closer to `value` than `FocalPointRound` gives. */
  lemma FocalPointRoundIsNearestInRange(value: real, min: int, max: int, k: int)
    requires min <= k <= max
    ensures Abs(value - FocalPointRound(value, min, max) as real) <= Abs(value - k as real)
  {
    var r := Round(value);
    RoundIsNearest(value, k);
    if r < min {
      assert value < min as real + 0.5;
    } else if r > max {
      assert value >= max as real - 0.5;
    }
  }

  /**
   * The offset `delta` of the indicator from the image's edge, as a whole
   * percentage of the image dimension `dimension` (lines 124-125).
   */
  function PixelsToPercent(delta: real, dimension: real): (p: int)
    requires dimension > 0.0
    ensures 0 <= p <= 100
    ensures delta <= 0.0 ==> p == 0
    ensures delta >= dimension ==> p == 100
  {
    ScaleBounds(delta, dimension);
    FocalPointRound(100.0 * delta / dimension, 0, 100)
  }

  // ---------------------------------------------------------------------
  // Real arithmetic, one non-linear step per lemma

  lemma DivisionCancels(a: real, d: real)
    requires d > 0.0
    ensures (a / d) * d == a
  {
  }

  lemma ProductCancels(a: real, d: real)
    requires d > 0.0
    ensures (a * d) / d == a
  {
    DivisionCancels(a * d, d);
  }

  lemma QuotientOfProduct(n: real, p: real, d: real)
    requires d > 0.0 && n == p * d
    ensures n / d == p
  {
    ProductCancels(p, d);
  }

  lemma NonNegativeQuotient(a: real, d: real)
    requires d > 0.0 && a >= 0.0
    ensures a / d >= 0.0
  {
  }

  lemma DivideMonotone(x: real, y: real, d: real)
    requires d > 0.0 && x <= y
    ensures x / d <= y / d
  {
    var q := y / d - x / d;
    DivisionCancels(y - x, d);
    assert q == (y - x) / d;
    NonNegativeQuotient(y - x, d);
  }

  lemma FractionOfNonNegative(f: real, b: real)
    requires 0.0 <= f <= 1.0 && 0.0 <= b
    ensures 0.0 <= f * b <= b
  {
    assert b - f * b == (1.0 - f) * b;
  }

  lemma HundredfoldOfFraction(p: real, d: real)
    ensures 100.0 * ((p / 100.0) * d) == p * d
  {
  }

  /** Where an offset falls relative to the image decides where its percentage falls relative to [0, 100]. */
  lemma ScaleBounds(delta: real, dimension: real)
    requires dimension > 0.0
    ensures delta <= 0.0 ==> 100.0 * delta / dimension <= 0.0
    ensures delta >= dimension ==> 100.0 * delta / dimension >= 100.0
    ensures 0.0 <= delta <= dimension ==> 0.0 <= 100.0 * delta / dimension <= 100.0
    ensures (100.0 * delta / dimension) * dimension == 100.0 * delta
  {
    DivisionCancels(100.0 * delta, dimension);
    ProductCancels(100.0, dimension);
    if delta <= 0.0 {
      DivideMonotone(100.0 * delta, 0.0, dimension);
    }
    if delta >= dimension {
      DivideMonotone(100.0 * dimension, 100.0 * delta, dimension);
    }
    if 0.0 <= delta <= dimension {
      DivideMonotone(0.0, 100.0 * delta, dimension);
      DivideMonotone(100.0 * delta, 100.0 * dimension, dimension);
    }
  }

  /** The pixel offset of a percentage of `dimension`, without rounding (lines 143-144). */
  function PercentToPixels(percent: int, dimension: real): (x: real)
    ensures 0 <= percent <= 100 && dimension >= 0.0 ==> 0.0 <= x <= dimension
    ensures percent == 50 ==> x == dimension / 2.0
    ensures percent == 0 ==> x == 0.0
  {
    PercentOfNonNegative(percent, dimension);
    (percent as real / 100.0) * dimension
  }

  lemma PercentOfNonNegative(percent: int, b: real)
    ensures 0 <= percent <= 100 && 0.0 <= b ==> 0.0 <= (percent as real / 100.0) * b <= b
  {
    if 0 <= percent <= 100 && 0.0 <= b {
      FractionOfNonNegative(percent as real / 100.0, b);
    }
  }

  /** Scaling a percentage to pixels and back gives the percentage again. */
  lemma PercentRoundTrip(percent: int, dimension: real)
    requires 0 <= percent <= 100 && dimension > 0.0
    ensures PixelsToPercent(PercentToPixels(percent, dimension), dimension) == percent
  {
    var p := percent as real;
    var x := PercentToPixels(percent, dimension);
    HundredfoldOfFraction(p, dimension);
    QuotientOfProduct(100.0 * x, p, dimension);
    RoundOfInteger(percent);
  }

  /**
   * Going from pixels to a percentage and back moves an offset inside the
   * image by at most half a percent of the dimension.
   */
  lemma PixelRoundTripError(delta: real, dimension: real)
    requires dimension > 0.0 && 0.0 <= delta <= dimension
    ensures Abs(PercentToPixels(PixelsToPercent(delta, dimension), dimension) - delta) <= dimension / 200.0
  {
    var v := 100.0 * delta / dimension;
    ScaleBounds(delta, dimension);
    var p := PixelsToPercent(delta, dimension);
    assert p == Round(v);
    var e := p as real - v;
    assert -0.5 <= e <= 0.5;
    ErrorScales(p as real, v, dimension, delta);
    HalfErrorBound(e, dimension);
  }

  lemma ErrorScales(p: real, v: real, dimension: real, delta: real)
    requires v * dimension == 100.0 * delta
    ensures (p / 100.0) * dimension - delta == (p - v) * dimension / 100.0
  {
    assert (p - v) * dimension == p * dimension - v * dimension;
  }

  lemma HalfErrorBound(e: real, dimension: real)
    requires dimension > 0.0 && -0.5 <= e <= 0.5
    ensures Abs(e * dimension / 100.0) <= dimension / 200.0
  {
    assert 0.5 * dimension - e * dimension == (0.5 - e) * dimension;
    assert e * dimension + 0.5 * dimension == (e + 0.5) * dimension;
  }

  /**
   * After one conversion to a percentage, placing the indicator from that
   * percentage and converting again changes nothing: the two directions do
   * not drift.
   */
  lemma NoDrift(delta: real, dimension: real)
    requires dimension > 0.0
    ensures var p := PixelsToPercent(delta, dimension);
            PixelsToPercent(PercentToPixels(p, dimension), dimension) == p
  {
    PercentRoundTrip(PixelsToPercent(delta, dimension), dimension);
  }

  /** A larger offset never gives a smaller percentage. */
  lemma PixelsToPercentMonotone(a: real, b: real, dimension: real)
    requires dimension > 0.0 && a <= b
    ensures PixelsToPercent(a, dimension) <= PixelsToPercent(b, dimension)
  {
    DivideMonotone(100.0 * a, 100.0 * b, dimension);
    RoundMonotone(100.0 * a / dimension, 100.0 * b / dimension);
  }

  /**
   * `focalPointGetDimensions`: the rendered size when both sides are
   * non-zero, otherwise the intrinsic size of the image source (which a
   * fresh `Image` probe reports). The result is a non-degenerate size
   * whenever either input is.
   */
  function GetDimensions(rendered: Dimensions, intrinsic: Dimensions): (d: Dimensions)
    ensures d == rendered || d == intrinsic
    ensures rendered.width != 0.0 && rendered.height != 0.0 ==> d == rendered
    ensures rendered.width == 0.0 || rendered.height == 0.0 ==> d == intrinsic
    ensures intrinsic.width != 0.0 && intrinsic.height != 0.0 ==> d.width != 0.0 && d.height != 0.0
  {
    if rendered.width != 0.0 && rendered.height != 0.0 then rendered else intrinsic
  }
}

/**
 * The border-thickness rule shared by the live preview (`borderPx`) and the
 * export (`borderSize`): the longer edge, scaled by the slider percentage and by
 * the constant BORDER_SCALE = 0.05, rounded to a whole pixel. Over exact
 * rationals this is the nearest integer to longestEdge * pct / 2000, with ties
 * rounded upwards as `Math.round` does.
 */
module Border {
  import opened Wrappers

  /** BORDER_SCALE = 0.05 = ScaleNum / ScaleDen. */
  const ScaleNum: nat := 1
  const ScaleDen: nat := 20
  /** The slider value is a percentage. */
  const PercentDen: nat := 100
  /** longestEdge * pct / Divisor is the exact, unrounded thickness. */
  const Divisor: nat := PercentDen * ScaleDen

  /** The range slider's bounds and the initial state value. */
  const MinPct: nat := 0
  const MaxPct: nat := 50
  const DefaultPct: nat := 4

  /** Natural dimensions of a decoded image. */
  datatype Size = Size(width: nat, height: nat)

  function LongestEdge(width: nat, height: nat): (e: nat)
    ensures e >= width && e >= height
    ensures e == width || e == height
  {
    if width >= height then width else height
  }

  /** `r` is `Math.round(num / den)`: the integer nearest to num/den, a tie going up. */
  predicate IsRoundOf(r: int, num: int, den: int)
    requires den > 0
  {
    2 * den * r - den <= 2 * num < 2 * den * r + den
  }

  /** Math.round on the exact rational num / den (floor of num/den + 1/2). */
  function Round(num: int, den: int): (r: int)
    requires den > 0
    ensures IsRoundOf(r, num, den)
  {
    var r := (2 * num + den) / (2 * den);
    RoundSpec(num, den, r);
    r
  }

  lemma RoundSpec(num: int, den: int, r: int)
    requires den > 0
    requires r == (2 * num + den) / (2 * den)
    ensures IsRoundOf(r, num, den)
  {
    var q := 2 * num + den;
    var d := 2 * den;
    assert d * r <= q < d * r + d by {
      var m := q % d;
      assert q == d * r + m && 0 <= m < d;
    }
    assert 2 * den * r == d * r;
  }

  /** Rounding is unique: no other integer is the rounding of the same rational. */
  lemma RoundUnique(r: int, s: int, num: int, den: int)
    requires den > 0
    requires IsRoundOf(r, num, den) && IsRoundOf(s, num, den)
    ensures r == s
  {
    if r < s {
      ScaledGap(den, r, s);
    } else if s < r {
      ScaledGap(den, s, r);
    }
  }

  /** Integers that differ by at least one stay at least `den` apart once scaled by `den`. */
  lemma ScaledGap(den: int, lo: int, hi: int)
    requires den > 0 && lo < hi
    ensures den * lo + den <= den * hi
  {
    var k := hi - lo - 1;
    assert den * k >= 0;
    assert den * hi == den * lo + den + den * k;
  }

  /** Rounding is nearest: no integer is closer to num / den than Round(num, den). */
  lemma RoundIsNearest(num: int, den: int, k: int)
    requires den > 0
    ensures Abs(den * Round(num, den) - num) <= Abs(den * k - num)
  {
    var r := Round(num, den);
    if k < r {
      ScaledGap(den, k, r);
    } else if k > r {
      ScaledGap(den, r, k);
    }
  }

  function Abs(x: int): (a: nat)
    ensures a == x || a == -x
  {
    if x < 0 then -x else x
  }

  /** The border thickness in pixels for an image whose longer edge is `longestEdge`. */
  function Thickness(longestEdge: nat, pct: nat): (b: nat)
    ensures IsRoundOf(b, longestEdge * pct * ScaleNum, Divisor)
  {
    Round(longestEdge * pct * ScaleNum, Divisor)
  }

  /** The preview's `borderPx`: no thickness until the image's natural size is known. */
  function BorderPx(imageSize: Option<Size>, pct: nat): (b: nat)
    ensures imageSize.None? ==> b == 0
    ensures imageSize.Some? ==> IsRoundOf(b, LongestEdge(imageSize.value.width, imageSize.value.height) * pct, Divisor)
  {
    match imageSize
    case None => 0
    case Some(size) => Thickness(LongestEdge(size.width, size.height), pct)
  }

  lemma ZeroPercentIsZero(longestEdge: nat)
    ensures Thickness(longestEdge, 0) == 0
  {
  }

  lemma ZeroWithoutSize(pct: nat)
    ensures BorderPx(None, pct) == 0
  {
  }

  /** A zero-sized image has no border. */
  lemma ZeroEdgeIsZero(pct: nat)
    ensures Thickness(0, pct) == 0
  {
  }

  /** Width and height only matter through the longer edge. */
  lemma SwapInvariant(width: nat, height: nat, pct: nat)
    ensures BorderPx(Some(Size(width, height)), pct) == BorderPx(Some(Size(height, width)), pct)
  {
  }

  /** Rounding never reverses the order of the rationals it rounds. */
  lemma RoundMonotone(m: int, n: int, den: int)
    requires den > 0 && m <= n
    ensures Round(m, den) <= Round(n, den)
  {
    var r, s := Round(m, den), Round(n, den);
    if s < r {
      ScaledGap(den, s, r);
    }
  }

  lemma MonotoneInPct(longestEdge: nat, p: nat, q: nat)
    requires p <= q
    ensures Thickness(longestEdge, p) <= Thickness(longestEdge, q)
  {
    assert longestEdge * p <= longestEdge * q by {
      assert longestEdge * q - longestEdge * p == longestEdge * (q - p);
    }
    RoundMonotone(longestEdge * p * ScaleNum, longestEdge * q * ScaleNum, Divisor);
  }

  lemma MonotoneInEdge(e: nat, f: nat, pct: nat)
    requires e <= f
    ensures Thickness(e, pct) <= Thickness(f, pct)
  {
    assert e * pct <= f * pct by {
      assert f * pct - e * pct == (f - e) * pct;
    }
    RoundMonotone(e * pct * ScaleNum, f * pct * ScaleNum, Divisor);
  }

  /**
   * Within the slider's range the border never exceeds its value at the maximum
   * setting, which is 2.5% of the longer edge rounded half up.
   */
  lemma CappedBySliderMax(longestEdge: nat, pct: nat)
    requires pct <= MaxPct
    ensures Thickness(longestEdge, pct) <= Thickness(longestEdge, MaxPct)
    ensures Thickness(longestEdge, MaxPct) == (longestEdge + 20) / 40
    ensures 40 * Thickness(longestEdge, MaxPct) <= longestEdge + 20
  {
    MonotoneInPct(longestEdge, pct, MaxPct);
    var b := Thickness(longestEdge, MaxPct);
    assert IsRoundOf(b, longestEdge * 50, 2000);
    assert 80 * b - 40 <= 2 * longestEdge < 80 * b + 40;
  }

  /** The worked example: a 1000x500 photo at the default 4% gets a 2 px border. */
  lemma DefaultOnLandscapeExample()
    ensures BorderPx(Some(Size(1000, 500)), DefaultPct) == 2
  {
  }
}

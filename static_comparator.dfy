/**
 * The two-image comparator of SIDSApp.detect_from_images: the mode and size
 * check, the sum of absolute per-channel differences, the percentage over a
 * fixed width * height * 3 denominator, and the 0.5 % threshold.
 */
module StaticComparator {
  import opened Imaging
  import opened Labels

  /** Percentages strictly below this classify as "no breathing". */
  const PercentThreshold: real := 0.5

  function AbsDiff(x: int, y: int): nat
  {
    if x < y then y - x else x - y
  }

  /** Sum of |c1 - c2| over the channels of two pixels, zipped (shorter wins). */
  function PixelDiff(p: Pixel, q: Pixel): nat
  {
    if |p| == 0 || |q| == 0 then 0 else AbsDiff(p[0], q[0]) + PixelDiff(p[1..], q[1..])
  }

  /** Sum of PixelDiff over two pixel sequences, zipped (shorter wins). */
  function DiffSum(xs: seq<Pixel>, ys: seq<Pixel>): nat
  {
    if |xs| == 0 || |ys| == 0 then 0 else PixelDiff(xs[0], ys[0]) + DiffSum(xs[1..], ys[1..])
  }

  /** The denominator: always three components per pixel, whatever the mode. */
  function TotalComponents(img: Image): nat
  {
    img.width * img.height * 3
  }

  /** diff_sum / 255 * 100 / total_components, in exact arithmetic. */
  function Percentage(diffSum: nat, total: nat): real
    requires total > 0
  {
    (diffSum as real / 255.0 * 100.0) / total as real
  }

  function Classify(percent: real): Label
  {
    if percent < PercentThreshold then NoBreathing else Breathing
  }

  /**
   * Outcome of one comparison: the images are incompatible, the denominator is
   * zero (the source raises a division error there), or a measurement.
   */
  datatype Comparison =
    | Incompatible
    | DivisionByZero
    | Measured(percent: real, verdict: Label)

  /** The comparison of two decoded images. */
  function Compare(a: Image, b: Image): (r: Comparison)
    ensures r.Incompatible? <==> a.mode != b.mode || a.width != b.width || a.height != b.height
    ensures r.DivisionByZero? <==> !r.Incompatible? && a.width * a.height == 0
    ensures r.Measured? ==> r.percent >= 0.0
    ensures r.Measured? ==>
      (r.verdict == NoBreathing <==> DiffSum(a.pixels, b.pixels) * 200 < 255 * TotalComponents(a))
  {
    if a.mode != b.mode || Size(a) != Size(b) then Incompatible
    else if TotalComponents(a) == 0 then DivisionByZero
    else
      var d := DiffSum(a.pixels, b.pixels);
      var t := TotalComponents(a);
      PercentageThreshold(d, t);
      Measured(Percentage(d, t), Classify(Percentage(d, t)))
  }

  // ---------------------------------------------------------------------
  // Arithmetic of the percentage
  // ---------------------------------------------------------------------

  /** The percentage undoes to 100 * diffSum when scaled by 255 * total. */
  lemma PercentageScaled(d: nat, t: nat)
    requires t > 0
    ensures Percentage(d, t) * (255.0 * t as real) == 100.0 * d as real
    ensures Percentage(d, t) >= 0.0
  {
  }

  /** Multiplying both sides by a positive factor keeps the order. */
  lemma ScaleOrder(x: real, y: real, k: real)
    requires k > 0.0
    ensures x < y <==> x * k < y * k
    ensures x == y <==> x * k == y * k
  {
  }

  /** The float test `percentage < 0.5` is the integer test 200 * d < 255 * t. */
  lemma PercentageThreshold(d: nat, t: nat)
    requires t > 0
    ensures Percentage(d, t) >= 0.0
    ensures Percentage(d, t) < PercentThreshold <==> d * 200 < 255 * t
  {
    PercentageScaled(d, t);
    HalfTest(Percentage(d, t), d as real, t as real);
    CastOrder(d, t);
  }

  /** A p with p * 255 * t == 100 * d is below one half exactly when 200 * d < 255 * t. */
  lemma HalfTest(p: real, dr: real, tr: real)
    requires tr > 0.0 && p * (255.0 * tr) == 100.0 * dr
    ensures p < 0.5 <==> 200.0 * dr < 255.0 * tr
  {
    ScaleOrder(p, 0.5, 255.0 * tr);
  }

  /** The integer comparison 200 * d < 255 * t survives the cast to real. */
  lemma CastOrder(d: int, t: int)
    ensures d * 200 < 255 * t <==> 200.0 * d as real < 255.0 * t as real
  {
    assert (d * 200) as real == 200.0 * d as real;
    assert (255 * t) as real == 255.0 * t as real;
  }

  /** The percentage is the v for which 100 * d == v * 255 * t. */
  lemma PercentageIs(d: nat, t: nat, v: real)
    requires t > 0 && 100.0 * d as real == v * (255.0 * t as real)
    ensures Percentage(d, t) == v
  {
    PercentageScaled(d, t);
    ScaleOrder(Percentage(d, t), v, 255.0 * t as real);
  }

  /** A percentage of exactly 0.5 is reached and classifies as "breathing". */
  lemma ExactThresholdIsBreathing(d: nat, t: nat)
    requires t > 0 && d * 200 == 255 * t
    ensures Percentage(d, t) == PercentThreshold
    ensures Classify(Percentage(d, t)) == Breathing
  {
    assert 200.0 * d as real == 255.0 * t as real by {
      assert (d * 200) as real == (255 * t) as real;
    }
    PercentageIs(d, t, 0.5);
  }

  /** 255 per channel over n channels per pixel is 100 * n / 3 percent. */
  lemma PercentageFull(n: nat, wh: nat)
    requires wh > 0
    ensures Percentage(255 * n * wh, 3 * wh) == 100.0 * n as real / 3.0
  {
  }

  // ---------------------------------------------------------------------
  // The difference sum
  // ---------------------------------------------------------------------

  /**
   * A single-band pixel, a bare number in the source, is a one-sample pixel
   * here; the per-channel formula then is |p1 - p2|, so the two branches of
   * the source compute the same sum.
   */
  lemma SingleBandPixelDiff(p: Pixel, q: Pixel)
    requires |p| == 1 && |q| == 1
    ensures PixelDiff(p, q) == AbsDiff(p[0], q[0])
  {
  }

  lemma {:induction false} PixelDiffSelf(p: Pixel)
    ensures PixelDiff(p, p) == 0
  {
    if |p| > 0 {
      PixelDiffSelf(p[1..]);
    }
  }

  lemma {:induction false} DiffSumSelf(xs: seq<Pixel>)
    ensures DiffSum(xs, xs) == 0
  {
    if |xs| > 0 {
      PixelDiffSelf(xs[0]);
      DiffSumSelf(xs[1..]);
    }
  }

  lemma {:induction false} PixelDiffSymmetric(p: Pixel, q: Pixel)
    ensures PixelDiff(p, q) == PixelDiff(q, p)
  {
    if |p| > 0 && |q| > 0 {
      PixelDiffSymmetric(p[1..], q[1..]);
    }
  }

  lemma {:induction false} DiffSumSymmetric(xs: seq<Pixel>, ys: seq<Pixel>)
    ensures DiffSum(xs, ys) == DiffSum(ys, xs)
  {
    if |xs| > 0 && |ys| > 0 {
      PixelDiffSymmetric(xs[0], ys[0]);
      DiffSumSymmetric(xs[1..], ys[1..]);
    }
  }

  lemma {:induction false} PixelDiffBound(p: Pixel, q: Pixel)
    requires |p| == |q|
    ensures PixelDiff(p, q) <= 255 * |p|
  {
    if |p| > 0 {
      PixelDiffBound(p[1..], q[1..]);
    }
  }

  /** Each channel pair contributes at most 255. */
  lemma {:induction false} DiffSumBound(xs: seq<Pixel>, ys: seq<Pixel>, n: nat)
    requires |xs| == |ys| && AllOfLength(xs, n) && AllOfLength(ys, n)
    ensures DiffSum(xs, ys) <= 255 * n * |xs|
  {
    if |xs| > 0 {
      PixelDiffBound(xs[0], ys[0]);
      DiffSumBound(xs[1..], ys[1..], n);
      assert 255 * n * |xs| == 255 * n + 255 * n * (|xs| - 1);
    }
  }

  /** Every channel of `p` is as far from the one of `q` as 8 bits allow. */
  ghost predicate Opposite(p: Pixel, q: Pixel)
  {
    |p| == |q| && forall i :: 0 <= i < |p| ==> AbsDiff(p[i], q[i]) == 255
  }

  lemma {:induction false} PixelDiffOpposite(p: Pixel, q: Pixel)
    requires Opposite(p, q)
    ensures PixelDiff(p, q) == 255 * |p|
  {
    if |p| > 0 {
      assert AbsDiff(p[0], q[0]) == 255;
      assert Opposite(p[1..], q[1..]) by {
        forall i | 0 <= i < |p| - 1
          ensures AbsDiff(p[1..][i], q[1..][i]) == 255
        {
          assert p[1..][i] == p[i + 1] && q[1..][i] == q[i + 1];
        }
      }
      PixelDiffOpposite(p[1..], q[1..]);
    }
  }

  /** Pixel sequences that are opposite everywhere reach the bound of DiffSumBound. */
  lemma {:induction false} DiffSumOpposite(xs: seq<Pixel>, ys: seq<Pixel>, n: nat)
    requires |xs| == |ys| && AllOfLength(xs, n)
    requires forall i :: 0 <= i < |xs| ==> Opposite(xs[i], ys[i])
    ensures DiffSum(xs, ys) == 255 * n * |xs|
  {
    if |xs| > 0 {
      assert Opposite(xs[0], ys[0]);
      PixelDiffOpposite(xs[0], ys[0]);
      assert forall i :: 0 <= i < |xs| - 1 ==> Opposite(xs[1..][i], ys[1..][i]) by {
        forall i | 0 <= i < |xs| - 1
          ensures Opposite(xs[1..][i], ys[1..][i])
        {
          assert xs[1..][i] == xs[i + 1] && ys[1..][i] == ys[i + 1];
        }
      }
      DiffSumOpposite(xs[1..], ys[1..], n);
      assert 255 * n * |xs| == 255 * n + 255 * n * (|xs| - 1);
    }
  }

  // ---------------------------------------------------------------------
  // Properties of the whole comparison
  // ---------------------------------------------------------------------

  /** An image compared with itself differs by 0 % and shows no breathing. */
  lemma CompareIdentical(a: Image)
    requires a.width * a.height > 0
    ensures Compare(a, a) == Measured(0.0, NoBreathing)
  {
    DiffSumSelf(a.pixels);
    PercentageIs(0, TotalComponents(a), 0.0);
  }

  /** Swapping the two images changes nothing: same error, same percentage, same verdict. */
  lemma CompareSymmetric(a: Image, b: Image)
    ensures Compare(a, b) == Compare(b, a)
  {
    DiffSumSymmetric(a.pixels, b.pixels);
  }

  /** A difference sum within 255 per channel keeps the percentage within 100 * n / 3. */
  lemma PercentageAtMost(d: nat, n: nat, wh: nat)
    requires wh > 0 && d <= 255 * n * wh
    ensures Percentage(d, 3 * wh) <= 100.0 * n as real / 3.0
  {
  }

  /**
   * With n bands the percentage lies in [0, 100 * n / 3]: the ×3 denominator
   * gives at most 100 for three-band images, 100 / 3 for single-band ones.
   */
  lemma ComparePercentRange(a: Image, b: Image)
    requires WellFormed(a) && WellFormed(b)
    ensures Compare(a, b).Measured? ==>
      0.0 <= Compare(a, b).percent <= 100.0 * Bands(a.mode) as real / 3.0
    ensures Compare(a, b).Measured? && Bands(a.mode) == 3 ==> Compare(a, b).percent <= 100.0
  {
    if Compare(a, b).Measured? {
      var n := Bands(a.mode);
      var wh := a.width * a.height;
      DiffSumBound(a.pixels, b.pixels, n);
      PercentageAtMost(DiffSum(a.pixels, b.pixels), n, wh);
      assert TotalComponents(a) == 3 * wh;
    }
  }

  /**
   * Images whose every channel differs by 255 give exactly 100 * n / 3 % and
   * "breathing"; for three-band images that is 100 %.
   */
  lemma CompareOpposite(a: Image, b: Image)
    requires WellFormed(a) && WellFormed(b)
    requires a.mode == b.mode && a.width == b.width && a.height == b.height
    requires a.width * a.height > 0
    requires forall i :: 0 <= i < |a.pixels| ==> Opposite(a.pixels[i], b.pixels[i])
    ensures Compare(a, b) == Measured(100.0 * Bands(a.mode) as real / 3.0, Breathing)
    ensures Bands(a.mode) == 3 ==> Compare(a, b) == Measured(100.0, Breathing)
  {
    var n := Bands(a.mode);
    var wh := a.width * a.height;
    DiffSumOpposite(a.pixels, b.pixels, n);
    PercentageFull(n, wh);
    assert TotalComponents(a) == 3 * wh;
    assert 100.0 * n as real / 3.0 >= 100.0 / 3.0;
  }
}

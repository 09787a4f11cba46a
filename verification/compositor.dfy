/**
 The geometry of pasting the watermark: its size from the image size, and
 its top-left corner from the winning candidate's centre, clamped into the
 image.
 */
module Compositor {
  import opened Numeric
  import opened Gray
  import opened Region
  import opened Placement
  import opened Colour

  datatype Size = Size(width: int, height: int)

  datatype Point = Point(x: int, y: int)

  /** Width over height of the resized watermark. */
  const AspectRatio: real := 1.5

  /**
   The watermark is a tenth of the larger image side wide (the larger of the
   two truncated tenths) and two thirds of that high.
   */
  function WatermarkSize(w: nat, h: nat): (s: Size)
    ensures s.width == Max(w, h) / 10
    ensures 3 * s.height <= 2 * s.width < 3 * s.height + 3
    ensures 0 <= s.height <= s.width
  {
    var width := Max(Trunc(w as real * 0.1), Trunc(h as real * 0.1));
    TenthIsDivision(w);
    TenthIsDivision(h);
    Size(width, Trunc(width as real / AspectRatio))
  }

  /** `int(n * 0.1)` is the integer tenth of `n`. */
  lemma TenthIsDivision(n: nat)
    ensures Trunc(n as real * 0.1) == n / 10
  {
    var t := Trunc(n as real * 0.1);
    assert 10 * t <= n < 10 * t + 10 by {
      assert (10 * t) as real <= n as real;
      assert n as real < (10 * t + 10) as real;
    }
  }

  /** `max(0, min(p, hi))`: into `[0, hi]`, or to 0 when `hi` is negative. */
  function Clamp(p: int, hi: int): (r: int)
    ensures 0 <= r <= Max(0, hi)
    ensures 0 <= p <= hi ==> r == p
    ensures p <= 0 ==> r == 0
  {
    Max(0, Min(p, hi))
  }

  /** When the range `[0, hi]` is not empty, the clamped value is a point of it nearest to `p`. */
  lemma ClampNearest(p: int, hi: int, q: int)
    requires 0 <= q <= hi
    ensures Abs(Clamp(p, hi) - p) <= Abs(q - p)
  {
  }

  /** `int(n * centre - extent // 2)`: the centre pixel minus half the watermark, truncated toward zero. */
  function NominalOrigin(n: nat, centre: real, extent: int): (p: int)
    ensures AbsReal(p as real - (n as real * centre - (extent / 2) as real)) < 1.0
  {
    Trunc(n as real * centre - (extent / 2) as real)
  }

  /** One coordinate of the paste position: the nominal origin clamped into `[0, n - extent]`. */
  function AxisOrigin(n: nat, centre: real, extent: int): (p: int)
    ensures 0 <= p <= Max(0, n - extent)
    ensures extent <= n ==> p + extent <= n
  {
    Clamp(NominalOrigin(n, centre, extent), n - extent)
  }

  /** The paste position: the nominal origin clamped so the watermark ends inside the image when it fits. */
  function Origin(w: nat, h: nat, c: Centre, s: Size): (o: Point)
    ensures 0 <= o.x <= Max(0, w - s.width) && 0 <= o.y <= Max(0, h - s.height)
    ensures s.width <= w ==> o.x + s.width <= w
    ensures s.height <= h ==> o.y + s.height <= h
  {
    Point(AxisOrigin(w, c.x, s.width), AxisOrigin(h, c.y, s.height))
  }

  /**
   Truncating toward zero and flooring the nominal origin give the same paste
   position: they differ only below zero, where the clamp yields 0 anyway.
   So the origin is also `floor(n * centre) - extent // 2`, clamped.
   */
  lemma ClampHidesTruncation(a: real, k: int, hi: int)
    requires 0.0 <= a
    ensures Clamp(Trunc(a - k as real), hi) == Clamp(a.Floor - k, hi)
  {
    var x := a - k as real;
    if 0.0 <= x {
      assert x.Floor == a.Floor - k;
    } else {
      assert a.Floor - k <= 0;
    }
  }

  /** The watermark chosen for an image: the winning candidate, the colour variant, its size and paste position. */
  datatype Plan = Plan(index: nat, variant: Variant, size: Size, origin: Point)

  /**
   The decisions behind compositing one image: select the candidate, pick
   the variant from the brightness of that candidate's region, size the
   watermark, and place it.
   */
  method AddWatermark(img: GrayImage, root: real -> real) returns (plan: Plan)
    requires img.Valid() && IsRoot(root)
    ensures IsFirstMax(CandidateScores(img, root), plan.index)
    ensures plan.variant == White <==> CandidateStats(img, root)[plan.index].brightness < 128.0
    ensures plan.size.width == Max(img.width, img.height) / 10
    ensures 3 * plan.size.height <= 2 * plan.size.width < 3 * plan.size.height + 3
    ensures plan.origin == Origin(img.width, img.height, Candidates[plan.index], plan.size)
    ensures 0 <= plan.origin.x <= Max(0, img.width - plan.size.width)
    ensures 0 <= plan.origin.y <= Max(0, img.height - plan.size.height)
    ensures plan.size.width <= img.width ==> plan.origin.x + plan.size.width <= img.width
    ensures plan.size.height <= img.height ==> plan.origin.y + plan.size.height <= img.height
  {
    var index, brightness := FindBestPosition(img, root);
    var variant := ChooseColour(brightness);
    var size := WatermarkSize(img.width, img.height);
    var origin := Origin(img.width, img.height, Candidates[index], size);
    plan := Plan(index, variant, size, origin);
  }

  /** The watermark is wider than the image exactly when the height is at least ten times the width plus one. */
  lemma WatermarkWiderThanImage(w: nat, h: nat)
    ensures WatermarkSize(w, h).width > w <==> h >= 10 * (w + 1)
  {
  }

  /**
   The clamp keeps the watermark inside only when it fits. An image whose
   height is at least ten times its width plus one (see
   `WatermarkWiderThanImage`) gets a watermark wider than itself, pinned to
   the left edge and overhanging the right one; a very flat image gets one
   taller than itself, overhanging the bottom edge. Either way, for every
   candidate.
   */
  lemma OversizedWatermarkOverhangs(i: int)
    requires 0 <= i < |Candidates|
    ensures WatermarkSize(1, 100) == Size(10, 6)
    ensures Origin(1, 100, Candidates[i], Size(10, 6)).x == 0
    ensures Origin(1, 100, Candidates[i], Size(10, 6)).x + 10 > 1
    ensures WatermarkSize(100, 5) == Size(10, 6)
    ensures Origin(100, 5, Candidates[i], Size(10, 6)).y == 0
    ensures Origin(100, 5, Candidates[i], Size(10, 6)).y + 6 > 5
  {
  }

  /**
   Each coordinate of the paste position equals the floor-based formula
   `floor(n * centre) - extent // 2`, clamped, for a non-negative centre.
   */
  lemma AxisOriginFloorForm(n: nat, centre: real, extent: int)
    requires 0.0 <= centre
    ensures AxisOrigin(n, centre, extent) == Clamp((n as real * centre).Floor - extent / 2, n - extent)
  {
    var a := n as real * centre;
    NonNegativeProduct(n as real, centre);
    assert NominalOrigin(n, centre, extent) == Trunc(a - (extent / 2) as real);
    assert AxisOrigin(n, centre, extent) == Clamp(NominalOrigin(n, centre, extent), n - extent);
    ClampHidesTruncation(a, extent / 2, n - extent);
  }

  /**
   A flat mid-gray image (every pixel 128, at least 10 pixels on each side):
   every candidate region is non-empty with brightness 128 and contrast 0,
   all six scores tie, the first candidate wins, and the black variant is
   chosen.
   */
  lemma MidGrayImage(img: GrayImage, root: real -> real, k: int)
    requires img.Valid() && IsRoot(root)
    requires 10 <= img.width && 10 <= img.height
    requires forall y, x :: 0 <= y < img.height && 0 <= x < img.width ==> img.pixels[y][x] == 128
    requires IsFirstMax(CandidateScores(img, root), k)
    ensures k == 0
    ensures CandidateStats(img, root)[k] == Stats(128.0, 0.0)
    ensures ChooseColour(CandidateStats(img, root)[k].brightness) == Black
    ensures forall i :: 0 <= i < |Candidates| ==>
      CandidateStats(img, root)[i] == Stats(128.0, 0.0) && CandidateScores(img, root)[i] == 0.6
  {
    var stats := CandidateStats(img, root);
    var scores := CandidateScores(img, root);
    forall i | 0 <= i < |Candidates|
      ensures stats[i] == Stats(128.0, 0.0) && scores[i] == 0.6
    {
      MidGrayRegion(img, root, i);
    }
    TieGoesToFirst(scores, k);
  }

  /** On a flat mid-gray image of at least 10×10, each candidate region is non-empty with brightness 128 and contrast 0. */
  lemma MidGrayRegion(img: GrayImage, root: real -> real, i: int)
    requires img.Valid() && IsRoot(root)
    requires 10 <= img.width && 10 <= img.height
    requires forall y, x :: 0 <= y < img.height && 0 <= x < img.width ==> img.pixels[y][x] == 128
    requires 0 <= i < |Candidates|
    ensures RegionBrightness(img, Candidates[i], RegionSizeRatio, root) == Stats(128.0, 0.0)
  {
    var c := Candidates[i];
    var b := RegionBounds(img.width, img.height, c, RegionSizeRatio);
    RegionNonEmpty(img.width, img.height, c, RegionSizeRatio);
    RegionPixelsLayout(img, c, RegionSizeRatio, b);
    MulPositive(b.y2 - b.y1, b.x2 - b.x1);
    UniformRegion(img, c, RegionSizeRatio, root, 128);
  }
}

/**
 The region scorer: from a normalised centre and a size ratio, the pixel
 rectangle of the grayscale grid it covers, and the mean brightness and
 population standard deviation (contrast) of the pixels inside it.
 */
module Region {
  import opened Numeric
  import opened Gray
  import opened Statistics

  /** A normalised centre point: `x` as a fraction of the width, `y` of the height. */
  datatype Centre = Centre(x: real, y: real)

  /** The rectangle `[x1, x2) × [y1, y2)` the scorer asks for, before slicing. */
  datatype Bounds = Bounds(x1: int, x2: int, y1: int, y2: int)

  /** The rectangle a slice `[ys:ye, xs:xe]` actually selects, normalised so that `xs <= xe` and `ys <= ye`. */
  datatype Window = Window(xs: nat, xe: nat, ys: nat, ye: nat)

  /** Brightness (mean) and contrast (standard deviation) of a region. */
  datatype Stats = Stats(brightness: real, contrast: real)

  /**
   One axis of the rectangle on a side of `n` pixels: the pixel centre is
   `int(n * centre)`, the region extent `int(n * sizeRatio)`, and the bounds
   are the centre minus and plus half the extent (floor division), the lower
   clamped at 0 and the upper at `n`.
   */
  function AxisBounds(n: nat, centre: real, sizeRatio: real): (r: (int, int))
    ensures 0 <= r.0 && r.1 <= n
  {
    var extent := Trunc(n as real * sizeRatio);
    var pixel := Trunc(n as real * centre);
    (Max(0, pixel - extent / 2), Min(n, pixel + extent / 2))
  }

  /** Both axes of the rectangle; the lower bounds are never negative and the upper bounds never pass the image. */
  function RegionBounds(w: nat, h: nat, c: Centre, sizeRatio: real): (b: Bounds)
    ensures 0 <= b.x1 && b.x2 <= w && 0 <= b.y1 && b.y2 <= h
  {
    var (x1, x2) := AxisBounds(w, c.x, sizeRatio);
    var (y1, y2) := AxisBounds(h, c.y, sizeRatio);
    Bounds(x1, x2, y1, y2)
  }

  /** Where a slice index lands on an axis of length `n`: negative indices count from the end, and everything is clamped to `[0, n]`. */
  function SliceIndex(i: int, n: nat): (r: nat)
    ensures r <= n
    ensures 0 <= i <= n ==> r == i
    ensures i < 0 ==> r == Max(0, i + n)
    ensures n < i ==> r == n
  {
    if i < 0 then Max(0, i + n) else Min(i, n)
  }

  /** The rectangle the slice `pixels[y1:y2, x1:x2]` selects on a `w × h` grid; a stop at or before its start selects nothing. */
  function View(w: nat, h: nat, b: Bounds): (v: Window)
    ensures v.xs <= v.xe <= w && v.ys <= v.ye <= h
    ensures 0 <= b.x1 <= b.x2 <= w ==> v.xs == b.x1 && v.xe == b.x2
    ensures 0 <= b.y1 <= b.y2 <= h ==> v.ys == b.y1 && v.ye == b.y2
  {
    var xs := SliceIndex(b.x1, w);
    var xstop := SliceIndex(b.x2, w);
    var ys := SliceIndex(b.y1, h);
    var ystop := SliceIndex(b.y2, h);
    Window(xs, Max(xs, xstop), ys, Max(ys, ystop))
  }

  function RegionWindow(img: GrayImage, c: Centre, sizeRatio: real): (v: Window)
    ensures v.xs <= v.xe <= img.width && v.ys <= v.ye <= img.height
  {
    View(img.width, img.height, RegionBounds(img.width, img.height, c, sizeRatio))
  }

  /** The pixel values of the region, row by row. */
  function RegionPixels(img: GrayImage, c: Centre, sizeRatio: real): (r: seq<int>)
    requires img.Valid()
    ensures forall i :: 0 <= i < |r| ==> 0 <= r[i] <= 255
  {
    var v := RegionWindow(img, c, sizeRatio);
    Rect(img, v.ys, v.ye, v.xs, v.xe)
  }

  /**
   Mean brightness and standard deviation of the region, or `(0, 0)` when
   the region holds no pixel. `root` is the square root (see `IsRoot`).
   */
  function RegionBrightness(img: GrayImage, c: Centre, sizeRatio: real, root: real -> real): (r: Stats)
    requires img.Valid() && IsRoot(root)
    ensures 0.0 <= r.contrast
    ensures |RegionPixels(img, c, sizeRatio)| == 0 ==> r == Stats(0.0, 0.0)
    ensures |RegionPixels(img, c, sizeRatio)| > 0 ==>
              && 0.0 <= r.brightness <= 255.0
              && r.brightness == Mean(RegionPixels(img, c, sizeRatio))
              && r.contrast == root(Variance(RegionPixels(img, c, sizeRatio)))
              && (r.contrast == 0.0 <==> Uniform(RegionPixels(img, c, sizeRatio)))
  {
    var pixels := RegionPixels(img, c, sizeRatio);
    if |pixels| == 0 then
      Stats(0.0, 0.0)
    else
      MeanBounds(pixels, 0, 255);
      VarianceZeroIffUniform(pixels);
      Stats(Mean(pixels), root(Variance(pixels)))
  }

  /**
   For a centre inside the unit square and a non-negative size ratio, the
   rectangle lies inside the grid, and each side is at most twice the
   halved region size, itself at most the region size.
   */
  lemma RegionBoundsInside(w: nat, h: nat, c: Centre, sizeRatio: real)
    requires 0.0 <= c.x <= 1.0 && 0.0 <= c.y <= 1.0 && 0.0 <= sizeRatio
    ensures var b := RegionBounds(w, h, c, sizeRatio);
            && 0 <= b.x1 <= b.x2 <= w
            && 0 <= b.y1 <= b.y2 <= h
            && b.x2 - b.x1 <= 2 * (Trunc(w as real * sizeRatio) / 2) <= Trunc(w as real * sizeRatio)
            && b.y2 - b.y1 <= 2 * (Trunc(h as real * sizeRatio) / 2) <= Trunc(h as real * sizeRatio)
  {
    AxisBoundsInside(w, c.x, sizeRatio);
    AxisBoundsInside(h, c.y, sizeRatio);
  }

  lemma AxisBoundsInside(n: nat, centre: real, sizeRatio: real)
    requires 0.0 <= centre <= 1.0 && 0.0 <= sizeRatio
    ensures var (lo, hi) := AxisBounds(n, centre, sizeRatio);
            && 0 <= lo <= hi <= n
            && hi - lo <= 2 * (Trunc(n as real * sizeRatio) / 2) <= Trunc(n as real * sizeRatio)
  {
    ScaleInside(n, centre);
    ScaleNonNegative(n, sizeRatio);
    AxisInside(n, Trunc(n as real * centre), Trunc(n as real * sizeRatio));
  }

  /** One axis of `RegionBounds`: a centre on a side of length `n` and a non-negative extent `k`. */
  lemma AxisInside(n: nat, centre: int, k: int)
    requires 0 <= centre <= n && 0 <= k
    ensures 0 <= Max(0, centre - k / 2) <= Min(n, centre + k / 2) <= n
    ensures Min(n, centre + k / 2) - Max(0, centre - k / 2) <= 2 * (k / 2) <= k
  {
  }

  lemma ScaleNonNegative(n: nat, f: real)
    requires 0.0 <= f
    ensures 0 <= Trunc(n as real * f)
  {
    NonNegativeProduct(n as real, f);
  }

  lemma NonNegativeProduct(a: real, b: real)
    requires 0.0 <= a && 0.0 <= b
    ensures 0.0 <= a * b
  {
  }

  lemma ProductAtMost(a: real, b: real)
    requires 0.0 <= a && b <= 1.0
    ensures a * b <= a
  {
    NonNegativeProduct(a, 1.0 - b);
    assert a * (1.0 - b) == a - a * b;
  }

  /** A pixel centre taken at a fraction in `[0, 1]` of a side lies on that side. */
  lemma ScaleInside(n: nat, f: real)
    requires 0.0 <= f <= 1.0
    ensures 0 <= Trunc(n as real * f) <= n
  {
    NonNegativeProduct(n as real, f);
    ProductAtMost(n as real, f);
  }

  /**
   Inside the unit square the slice takes the rectangle verbatim: the region
   holds `(x2 - x1) * (y2 - y1)` values, pixel `(y, x)` of the rectangle at
   its row-major offset.
   */
  lemma RegionPixelsLayout(img: GrayImage, c: Centre, sizeRatio: real, b: Bounds)
    requires img.Valid()
    requires 0.0 <= c.x <= 1.0 && 0.0 <= c.y <= 1.0 && 0.0 <= sizeRatio
    requires b == RegionBounds(img.width, img.height, c, sizeRatio)
    ensures 0 <= b.x1 <= b.x2 <= img.width && 0 <= b.y1 <= b.y2 <= img.height
    ensures RegionPixels(img, c, sizeRatio) == Rect(img, b.y1, b.y2, b.x1, b.x2)
    ensures |RegionPixels(img, c, sizeRatio)| == (b.x2 - b.x1) * (b.y2 - b.y1)
    ensures forall y: nat, x: nat :: b.y1 <= y < b.y2 && b.x1 <= x < b.x2 ==>
              0 <= Offset(b.y1, b.x1, b.x2, y, x) < |RegionPixels(img, c, sizeRatio)| &&
              RegionPixels(img, c, sizeRatio)[Offset(b.y1, b.x1, b.x2, y, x)] == img.pixels[y][x]
  {
    RegionPixelsAreBounds(img, c, sizeRatio, b);
    BoundsLayout(img, b);
  }

  /** Inside the unit square the slice selects the rectangle of `RegionBounds` unchanged. */
  lemma RegionPixelsAreBounds(img: GrayImage, c: Centre, sizeRatio: real, b: Bounds)
    requires img.Valid()
    requires 0.0 <= c.x <= 1.0 && 0.0 <= c.y <= 1.0 && 0.0 <= sizeRatio
    requires b == RegionBounds(img.width, img.height, c, sizeRatio)
    ensures 0 <= b.x1 <= b.x2 <= img.width && 0 <= b.y1 <= b.y2 <= img.height
    ensures RegionPixels(img, c, sizeRatio) == Rect(img, b.y1, b.y2, b.x1, b.x2)
  {
    RegionBoundsInside(img.width, img.height, c, sizeRatio);
    assert RegionWindow(img, c, sizeRatio) == Window(b.x1, b.x2, b.y1, b.y2);
  }

  lemma BoundsLayout(img: GrayImage, b: Bounds)
    requires img.Valid()
    requires 0 <= b.x1 <= b.x2 <= img.width && 0 <= b.y1 <= b.y2 <= img.height
    ensures var pixels := Rect(img, b.y1, b.y2, b.x1, b.x2);
            && |pixels| == (b.x2 - b.x1) * (b.y2 - b.y1)
            && forall y: nat, x: nat :: b.y1 <= y < b.y2 && b.x1 <= x < b.x2 ==>
                 0 <= Offset(b.y1, b.x1, b.x2, y, x) < |pixels| &&
                 pixels[Offset(b.y1, b.x1, b.x2, y, x)] == img.pixels[y][x]
  {
    RectLayout(img, b.y1, b.y2, b.x1, b.x2);
    var pixels := Rect(img, b.y1, b.y2, b.x1, b.x2);
    assert |pixels| == (b.x2 - b.x1) * (b.y2 - b.y1);
  }

  /**
   Inside the unit square, a rectangle with no width or no height yields the
   sentinel `(0, 0)`; any other yields a brightness in `[0, 255]`.
   */
  lemma EmptyRegionSentinel(img: GrayImage, c: Centre, sizeRatio: real, root: real -> real, b: Bounds)
    requires img.Valid() && IsRoot(root)
    requires 0.0 <= c.x <= 1.0 && 0.0 <= c.y <= 1.0 && 0.0 <= sizeRatio
    requires b == RegionBounds(img.width, img.height, c, sizeRatio)
    ensures b.x1 == b.x2 || b.y1 == b.y2 ==> RegionBrightness(img, c, sizeRatio, root) == Stats(0.0, 0.0)
    ensures b.x1 < b.x2 && b.y1 < b.y2 ==>
              && 0.0 <= RegionBrightness(img, c, sizeRatio, root).brightness <= 255.0
              && RegionBrightness(img, c, sizeRatio, root).brightness == Mean(RegionPixels(img, c, sizeRatio))
  {
    RegionEmptyIffDegenerate(img, c, sizeRatio, b);
  }

  /** Inside the unit square the region holds no pixel exactly when its rectangle has no width or no height. */
  lemma RegionEmptyIffDegenerate(img: GrayImage, c: Centre, sizeRatio: real, b: Bounds)
    requires img.Valid()
    requires 0.0 <= c.x <= 1.0 && 0.0 <= c.y <= 1.0 && 0.0 <= sizeRatio
    requires b == RegionBounds(img.width, img.height, c, sizeRatio)
    ensures b.x1 <= b.x2 && b.y1 <= b.y2
    ensures |RegionPixels(img, c, sizeRatio)| == 0 <==> b.x1 == b.x2 || b.y1 == b.y2
  {
    RegionPixelsAreBounds(img, c, sizeRatio, b);
    RectEmptyIff(img, b.y1, b.y2, b.x1, b.x2);
  }

  /** A non-empty region whose pixels all have value `v` has brightness `v` and contrast zero. */
  lemma UniformRegion(img: GrayImage, c: Centre, sizeRatio: real, root: real -> real, v: int)
    requires img.Valid() && IsRoot(root)
    requires forall y, x :: 0 <= y < img.height && 0 <= x < img.width ==> img.pixels[y][x] == v
    requires |RegionPixels(img, c, sizeRatio)| > 0
    ensures RegionBrightness(img, c, sizeRatio, root) == Stats(v as real, 0.0)
  {
    var w := RegionWindow(img, c, sizeRatio);
    var pixels := RegionPixels(img, c, sizeRatio);
    forall k | 0 <= k < |pixels| ensures pixels[k] == v {
      RectFrom(img, w.ys, w.ye, w.xs, w.xe, k);
    }
    UniformMean(pixels);
  }

  /**
   A centre strictly inside the unit square whose region spans at least two
   pixels on each axis yields a rectangle with positive width and height.
   */
  lemma RegionNonEmpty(w: nat, h: nat, c: Centre, sizeRatio: real)
    requires 0.0 <= c.x < 1.0 && 0.0 <= c.y < 1.0
    requires 2.0 <= w as real * sizeRatio && 2.0 <= h as real * sizeRatio
    ensures var b := RegionBounds(w, h, c, sizeRatio);
            b.x1 < b.x2 && b.y1 < b.y2
  {
    AxisNonEmpty(w, c.x, sizeRatio);
    AxisNonEmpty(h, c.y, sizeRatio);
  }

  lemma AxisNonEmpty(n: nat, centre: real, sizeRatio: real)
    requires 0.0 <= centre < 1.0 && 2.0 <= n as real * sizeRatio
    ensures AxisBounds(n, centre, sizeRatio).0 < AxisBounds(n, centre, sizeRatio).1
  {
    assert 0 < n;
    StrictScaleInside(n, centre);
    assert 2 <= Trunc(n as real * sizeRatio);
  }

  lemma StrictScaleInside(n: nat, f: real)
    requires 0.0 <= f < 1.0 && 0 < n
    ensures 0 <= Trunc(n as real * f) < n
  {
    NonNegativeProduct(n as real, f);
    ProductBelow(n as real, f);
  }

  lemma ProductBelow(a: real, b: real)
    requires 0.0 < a && b < 1.0
    ensures a * b < a
  {
    assert a * (1.0 - b) == a - a * b;
    assert 0.0 < a * (1.0 - b);
  }
}

/**
 The single-channel intensity grid the placement logic reads: a rectangular
 array of 8-bit values, as the grayscale conversion of the input image
 produces it.
 */
module Gray {

  datatype GrayImage = GrayImage(width: nat, height: nat, pixels: seq<seq<int>>) {

    /** Rectangular, `height` rows of `width` values each, every value 8-bit. */
    predicate Valid() {
      && |pixels| == height
      && (forall y :: 0 <= y < height ==> |pixels[y]| == width)
      && (forall y, x :: 0 <= y < height && 0 <= x < width ==> 0 <= pixels[y][x] <= 255)
    }
  }

  /**
   The values of the view `pixels[ys:ye, xs:xe]`, row by row (the order in
   which a mean or a standard deviation over the view visits them).
   */
  function Rect(g: GrayImage, ys: nat, ye: nat, xs: nat, xe: nat): (vals: seq<int>)
    requires g.Valid()
    requires ys <= ye <= g.height && xs <= xe <= g.width
    ensures forall k :: 0 <= k < |vals| ==> 0 <= vals[k] <= 255
    decreases ye - ys
  {
    if ys == ye then [] else g.pixels[ys][xs..xe] + Rect(g, ys + 1, ye, xs, xe)
  }

  /** The view holds `rows * cols` values. */
  lemma {:induction false} RectLength(g: GrayImage, ys: nat, ye: nat, xs: nat, xe: nat)
    requires g.Valid()
    requires ys <= ye <= g.height && xs <= xe <= g.width
    ensures |Rect(g, ys, ye, xs, xe)| == (ye - ys) * (xe - xs)
    decreases ye - ys
  {
    if ys < ye {
      RectLength(g, ys + 1, ye, xs, xe);
      MulStep(ye - ys, xe - xs);
    }
  }

  /** The pixel at row `y`, column `x` of the rectangle sits at offset `(y - ys) * cols + (x - xs)` of the view. */
  lemma {:induction false} RectAt(g: GrayImage, ys: nat, ye: nat, xs: nat, xe: nat, y: nat, x: nat)
    requires g.Valid()
    requires ys <= ye <= g.height && xs <= xe <= g.width
    requires ys <= y < ye && xs <= x < xe
    ensures 0 <= Offset(ys, xs, xe, y, x) < |Rect(g, ys, ye, xs, xe)|
    ensures Rect(g, ys, ye, xs, xe)[Offset(ys, xs, xe, y, x)] == g.pixels[y][x]
    decreases ye - ys
  {
    var cols := xe - xs;
    var row := g.pixels[ys][xs..xe];
    var rest := Rect(g, ys + 1, ye, xs, xe);
    assert Rect(g, ys, ye, xs, xe) == row + rest;
    assert |row| == cols;
    if y == ys {
      assert (y - ys) * cols == 0;
      RectLength(g, ys, ye, xs, xe);
      MulPositive(ye - ys, cols);
    } else {
      RectAt(g, ys + 1, ye, xs, xe, y, x);
      MulStep(y - ys, cols);
      assert (y - ys) * cols + (x - xs) == cols + ((y - (ys + 1)) * cols + (x - xs));
    }
  }

  /**
   The view holds exactly the pixels of the rectangle: `rows * cols` values,
   pixel `(y, x)` of the rectangle at offset `(y - ys) * cols + (x - xs)`.
   */
  lemma {:induction false} RectLayout(g: GrayImage, ys: nat, ye: nat, xs: nat, xe: nat)
    requires g.Valid()
    requires ys <= ye <= g.height && xs <= xe <= g.width
    ensures |Rect(g, ys, ye, xs, xe)| == (ye - ys) * (xe - xs)
    ensures forall y: nat, x: nat :: ys <= y < ye && xs <= x < xe ==>
              0 <= Offset(ys, xs, xe, y, x) < |Rect(g, ys, ye, xs, xe)| &&
              Rect(g, ys, ye, xs, xe)[Offset(ys, xs, xe, y, x)] == g.pixels[y][x]
  {
    RectLength(g, ys, ye, xs, xe);
    var vals := Rect(g, ys, ye, xs, xe);
    forall y: nat, x: nat | ys <= y < ye && xs <= x < xe
      ensures 0 <= Offset(ys, xs, xe, y, x) < |vals| && vals[Offset(ys, xs, xe, y, x)] == g.pixels[y][x]
    {
      RectAt(g, ys, ye, xs, xe, y, x);
    }
  }

  /** The view is empty exactly when it has no rows or no columns. */
  lemma RectEmptyIff(g: GrayImage, ys: nat, ye: nat, xs: nat, xe: nat)
    requires g.Valid()
    requires ys <= ye <= g.height && xs <= xe <= g.width
    ensures |Rect(g, ys, ye, xs, xe)| == 0 <==> ys == ye || xs == xe
  {
    RectLength(g, ys, ye, xs, xe);
    if ys < ye && xs < xe {
      MulPositive(ye - ys, xe - xs);
    }
  }

  /** Row-major offset of pixel `(y, x)` in a view whose columns run from `xs` to `xe`, first row `ys`. */
  function Offset(ys: nat, xs: nat, xe: nat, y: nat, x: nat): int {
    (y - ys) * (xe - xs) + (x - xs)
  }

  lemma MulStep(a: int, c: int)
    ensures a * c == c + (a - 1) * c
  {
  }

  lemma MulPositive(a: int, c: int)
    requires 0 < a && 0 < c
    ensures c <= a * c
  {
  }

  /** Every value of the view is one of the grid's pixels inside the rectangle. */
  lemma {:induction false} RectFrom(g: GrayImage, ys: nat, ye: nat, xs: nat, xe: nat, k: nat)
    requires g.Valid()
    requires ys <= ye <= g.height && xs <= xe <= g.width
    requires k < |Rect(g, ys, ye, xs, xe)|
    ensures exists y, x :: ys <= y < ye && xs <= x < xe && Rect(g, ys, ye, xs, xe)[k] == g.pixels[y][x]
    decreases ye - ys
  {
    var row := g.pixels[ys][xs..xe];
    var rest := Rect(g, ys + 1, ye, xs, xe);
    if k < |row| {
      assert Rect(g, ys, ye, xs, xe)[k] == g.pixels[ys][xs + k];
    } else {
      RectFrom(g, ys + 1, ye, xs, xe, k - |row|);
      var y, x :| ys + 1 <= y < ye && xs <= x < xe && rest[k - |row|] == g.pixels[y][x];
      assert Rect(g, ys, ye, xs, xe)[k] == g.pixels[y][x];
    }
  }
}

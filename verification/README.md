# Watermark placement and contrast model

A Dafny model of the decision logic of `WatermarkProcessor` in the
photo-watermark tool (`photo_watermark.py`). Given the grayscale intensity
grid of a photograph, the tool samples six fixed candidate regions (top and
bottom corners and centres), scores each by how close its mean brightness
is to mid-gray 128 and how textured it is (its standard deviation), picks the
first candidate with the highest score, chooses the white watermark for a
dark region and the black one otherwise, and computes the size of the
watermark and the clamped position where it is pasted.

The model is split by component:

- `numeric.dfy` (`Numeric`): Python's `int()` on a float (`Trunc`, truncation
  toward zero), `min`/`max`/`abs`, and `IsRoot`, what the model needs of the
  square root.
- `gray_image.dfy` (`Gray`): the grayscale grid as rows of 8-bit values, and
  the values of a rectangular view `pixels[ys:ye, xs:xe]` in row-major order.
- `statistics.dfy` (`Statistics`): mean and population variance.
- `region.dfy` (`Region`): `calculate_region_brightness`: region bounds,
  slicing, and the `(brightness, contrast)` pair with its `(0, 0)` sentinel.
- `placement.dfy` (`Placement`): the candidate table, the score, and the
  first-strict-maximum selection of `find_best_position`.
- `colour.dfy` (`Colour`): `choose_watermark_color`.
- `compositor.dfy` (`Compositor`): the size, nominal origin and clamp of
  `add_watermark_to_image`, and the whole decision as one method.

Modelling decisions:

- Floats are exact `real`s. The ratio constants 0.1, 0.2 and 0.9 are, as
  doubles, each slightly above their decimal value, so the truncations of
  products with whole numbers agree with the exact ones.
- Python `//` by 2 is Dafny `/` by 2 (both floor for a positive divisor).
- numpy slicing is modelled in full: negative indices count from the end,
  indices are clamped to the axis, and a stop at or before its start
  selects nothing. So the region scorer needs no precondition on its ratios.
- The variance is exact: `Σ (n·v − S)² / n³`, with `S` the sum and `n` the
  count. `Statistics.VarianceIsMeanSquaredDeviation` proves it equals the
  sum of the squared deviations from the mean divided by `n`, the population
  variance `np.std` takes the root of. The square root is a parameter
  `root`. Dafny's reals have no square root, so the model uses only what the
  score needs of it (`IsRoot`): it is non-negative, and it is zero exactly at
  zero.

Three readings of the placement arithmetic that one might expect differ from
what the code does; the model follows the code:

- One might expect the paste origin to be `floor(w·cx) − width // 2`. The
  code computes `int(w·cx − width // 2)`, which truncates toward zero.
  `Compositor.AxisOriginFloorForm` proves the two agree once clamped.
- One might expect the clamp to keep the watermark inside the image. It does
  so only when the watermark fits: a 1×100 or 100×5 image gets a 10×6
  watermark that overhangs (`Compositor.OversizedWatermarkOverhangs`).
- One might expect both region bounds to be clamped to `[0, w]`. The code
  clamps only the lower bound from below and the upper bound from above, and
  numpy slicing handles the rest. Inside the unit square the two coincide
  (`Region.RegionBoundsInside`).

## Model

| member | source | states |
|---|---|---|
| Numeric.Trunc | photo_watermark.py:46-50 | `int()` of a float is the integer next to it toward zero: at most `x` and within 1 of it for `x ≥ 0`, at least `x` and within 1 of it below 0 |
| Gray.RectLayout | photo_watermark.py:59 | the view `[y1:y2, x1:x2]` holds exactly `rows·cols` values, and pixel `(y, x)` of the rectangle sits at its row-major offset |
| Gray.RectFrom | photo_watermark.py:59 | every value of the view is a pixel of the grid from inside the rectangle |
| Gray.RectEmptyIff | photo_watermark.py:59-61 | the view has size 0 exactly when it has no rows or no columns |
| Statistics.Mean | photo_watermark.py:65 | the mean taken `n` times gives back the sum of the values |
| Statistics.MeanBounds | photo_watermark.py:65 | the mean lies between any lower and upper bound that every value respects, so 8-bit values give a mean in `[0, 255]` |
| Statistics.Variance | photo_watermark.py:68 | the population variance is never negative |
| Statistics.VarianceZeroIffUniform | photo_watermark.py:68 | the variance is zero if and only if all values in the region are equal |
| Statistics.VarianceIsMeanSquaredDeviation | photo_watermark.py:68 | the computed variance equals `Σ (v − mean)² / n`, the population variance (divisor `n`, not `n − 1`) |
| Statistics.VarianceAround | photo_watermark.py:68 | for any `m` with `m·n` equal to the sum, the computed variance is `Σ (v − m)² / n` |
| Region.AxisBounds | photo_watermark.py:46-56 | on one axis of `n` pixels, the bounds `max(0, c − e // 2)` and `min(n, c + e // 2)` around `c = int(n·centre)` with `e = int(n·ratio)`; the lower is never negative and the upper never passes `n` |
| Region.RegionBounds | photo_watermark.py:46-56 | the bounds `x1, x2, y1, y2` of both axes, with `0 ≤ x1`, `x2 ≤ w`, `0 ≤ y1` and `y2 ≤ h` |
| Region.SliceIndex | photo_watermark.py:59 | a numpy slice index lands in `[0, n]`: one inside the axis is kept, a negative one counts from the end (`max(0, i + n)`), and one past the end becomes `n` |
| Region.View | photo_watermark.py:59 | the numpy slice selects a rectangle inside the grid, and takes the requested bounds unchanged when they already lie inside it |
| Region.RegionPixels | photo_watermark.py:59 | the values of `img_array[y1:y2, x1:x2]` row by row, every one an 8-bit value |
| Region.RegionBoundsInside | photo_watermark.py:45-56 | for centre ratios in `[0,1]` and a size ratio ≥ 0, `0 ≤ x1 ≤ x2 ≤ w` and `0 ≤ y1 ≤ y2 ≤ h`, and each side is at most `2·(region_w // 2) ≤ region_w` |
| Region.RegionPixelsLayout | photo_watermark.py:53-59 | inside the unit square the region's values are exactly the pixels of `[x1,x2)×[y1,y2)`, `(x2−x1)·(y2−y1)` of them |
| Region.RegionEmptyIffDegenerate | photo_watermark.py:53-61 | inside the unit square the region is empty exactly when `x1 == x2` or `y1 == y2` |
| Region.RegionBrightness | photo_watermark.py:33-70 | an empty region yields `(0, 0)`; a non-empty one yields its mean, in `[0, 255]`, and the root of its variance, ≥ 0 and zero exactly when all its pixels are equal |
| Region.EmptyRegionSentinel | photo_watermark.py:59-62 | inside the unit square a rectangle with no width or no height yields exactly `(0, 0)`; any other yields the mean of its pixels, in `[0, 255]` |
| Region.UniformRegion | photo_watermark.py:64-68 | a non-empty region of a flat image of value `v` has brightness `v` and contrast 0 |
| Region.RegionNonEmpty | photo_watermark.py:45-56 | a centre strictly inside the unit square whose region spans at least 2 pixels per axis yields a rectangle of positive width and height |
| Placement.Candidates | photo_watermark.py:19-26 | the six normalised centres: top-left, top-centre, top-right, bottom-left, bottom-centre, bottom-right at ratios 0.1, 0.5, 0.9 and 0.1, 0.9 |
| Placement.CandidateLayout | photo_watermark.py:19-26 | six distinct centres strictly inside the unit square, the first three in the top half and the last three in the bottom half, each band ordered left to right |
| Placement.BrightnessScore | photo_watermark.py:87 | the brightness score is at most 1, equals 1 exactly at brightness 128, and is ≥ 0 for brightness in `[0, 256]` |
| Placement.BrightnessScoreCloserIsBetter | photo_watermark.py:85-87 | a brightness nearer to 128, on either side, scores strictly higher |
| Placement.ContrastScore | photo_watermark.py:88 | the contrast score lies in `[0, 1]` for non-negative contrast, is 1 exactly from contrast 64 up, and is 0 for a flat region |
| Placement.ContrastScoreMonotone | photo_watermark.py:85-88 | more contrast never scores lower, and below 64 strictly higher: textured regions are preferred until the score saturates |
| Placement.Score | photo_watermark.py:91 | the combined score lies in `[0, 1]` for brightness in `[0, 255]` and contrast ≥ 0, and is 1 exactly for brightness 128 with contrast ≥ 64 |
| Placement.MoreContrastScoresHigher | photo_watermark.py:85-91 | of two equally bright regions the more textured never scores lower, and strictly higher while the other's contrast is below 64 |
| Placement.CandidateStats | photo_watermark.py:82-83 | one `(brightness, contrast)` pair per candidate, in table order, each with brightness in `[0, 255]` and contrast ≥ 0 |
| Placement.CandidateScores | photo_watermark.py:82-91 | one score per candidate, in table order; a candidate scores 1 exactly when its region has brightness 128 and contrast ≥ 64 |
| Placement.CandidateScoresInRange | photo_watermark.py:78-91 | every candidate's score lies in `[0, 1]`, strictly above the initial best of −1 |
| Placement.SelectFirstMax | photo_watermark.py:78-96 | the strict `>` scan from −1 returns the first index holding the maximum (every score ≤ it, every earlier score < it) once any score exceeds −1, and 0 otherwise |
| Placement.FindBestPosition | photo_watermark.py:72-98 | the returned index is the first maximum of the six candidates' scores, and the returned brightness is that candidate's region brightness, not its score |
| Placement.FirstMaxUnique | photo_watermark.py:94-96 | at most one index is a first maximum, so the winner is determined by the scores alone |
| Placement.TieGoesToFirst | photo_watermark.py:94-96 | when all scores are equal the winner is index 0 |
| Colour.ChooseColour | photo_watermark.py:100-110 | the white watermark is chosen if and only if brightness < 128; 128 itself gets the black one |
| Colour.ChooseColourMonotone | photo_watermark.py:107-110 | a region at least as bright as one given black is also given black |
| Compositor.WatermarkSize | photo_watermark.py:140-143 | the width is the integer tenth of the larger side, and the height is `⌊2·width/3⌋`, never above the width |
| Compositor.TenthIsDivision | photo_watermark.py:142 | `int(n·0.1)` equals `n // 10` |
| Compositor.WatermarkWiderThanImage | photo_watermark.py:140-143 | the watermark is wider than the image exactly when the height is at least ten times the width plus one |
| Compositor.Clamp | photo_watermark.py:152-153 | the clamped value lies in `[0, max(0, hi)]`, is unchanged inside `[0, hi]`, and is 0 for a value ≤ 0 |
| Compositor.ClampNearest | photo_watermark.py:152-153 | when `[0, hi]` is non-empty, the clamped value is a point of it nearest the unclamped one |
| Compositor.NominalOrigin | photo_watermark.py:148-149 | the unclamped paste coordinate `int(n·centre − extent // 2)`, within 1 of the exact value |
| Compositor.AxisOrigin | photo_watermark.py:148-153 | each paste coordinate lies in `[0, max(0, n − extent)]`, and the watermark ends inside the side whenever it fits |
| Compositor.Origin | photo_watermark.py:147-153 | `0 ≤ pos_x ≤ max(0, w − ww)`, `0 ≤ pos_y ≤ max(0, h − wh)`, `pos_x + ww ≤ w` when `ww ≤ w` and `pos_y + wh ≤ h` when `wh ≤ h` |
| Compositor.ClampHidesTruncation | photo_watermark.py:148-153 | truncating toward zero or flooring the nominal origin gives the same clamped position |
| Compositor.AxisOriginFloorForm | photo_watermark.py:148-153 | the paste coordinate equals `floor(n·centre) − extent // 2`, clamped |
| Compositor.AddWatermark | photo_watermark.py:133-153 | the plan uses the first-maximum candidate, white exactly when that region's brightness is < 128, a tenth-of-the-larger-side 3:2 size, and a clamped origin inside the image whenever the watermark fits |
| Compositor.OversizedWatermarkOverhangs | photo_watermark.py:140-153 | on a 1×100 (resp. 100×5) image the 10×6 watermark is pinned at 0 and overhangs the right (resp. bottom) edge, for every candidate |
| Compositor.MidGrayImage | photo_watermark.py:72-110 | on a flat mid-gray image of at least 10×10 every region has brightness 128 and contrast 0, all scores tie, index 0 wins and the black watermark is chosen |
| Compositor.MidGrayRegion | photo_watermark.py:33-70 | on a flat mid-gray image of at least 10×10 each candidate region has brightness 128 and contrast 0 |

## Left out

- Pixel conversion and compositing: the RGB-to-gray conversion, the RGBA
  conversion, the LANCZOS resize, the identity brightness enhancement of the
  alpha channel, the alpha paste and the RGB flatten on save
  (photo_watermark.py:41-43, 129-130, 145, 155-170). These are library calls
  with filter- and codec-specific rounding; the grayscale grid is an input.
- Loading the watermark files, `process_batch` (directory listing, extension
  filter, per-file error handling, counting and printing) and the command line
  (photo_watermark.py:28-31, 173-233): file-system and console I/O.
- `resize_watermark` (photo_watermark.py:112-119): an unused function that
  returns its argument.
- Float rounding: means, deviations, products with ratios and scores are exact
  reals. Ties between candidates with identical statistics are ties in both.
- Region.RegionBrightness: the contrast is `root(variance)` for a caller-given
  `root` that is non-negative and zero exactly at zero, not the IEEE square
  root, because Dafny's reals have no square root.
- Compositor.WatermarkSize: for images whose larger side is under 20 pixels
  the computed height is 0, and under 10 pixels the width is 0 as well; what
  the resize library does with a zero size is not modelled.

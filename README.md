# Image search: a verified model of the matching engine

The program finds every occurrence of a mask image inside a larger PNG image.
The mask's opaque-black pixels mark *background* positions; every other mask pixel
marks *pattern*. For each window origin, in raster order, the program:

1. estimates the window's background colour as the truncated per-channel mean of the
   image pixels under the black mask pixels (`computeBackgroundPixel`);
2. classifies each window position as correct when a black mask pixel lies over a pixel
   of the background's shade, or a non-black one lies over a pixel of a different shade
   (`sameShade`, `calcNetMatch`);
3. offers the window as a potential match when the net match exceeds `matchPercent` per
   cent of the mask area. The net match is correct minus incorrect positions.
4. `processPotentialRegion` drops the window when one of its four corners lies in a region
   already stored (`pointInRegion`). Otherwise it appends the window's origin to the list
   and draws a red outline around the window in the output image (`drawBox`).

The model also covers the rectangle type `MatchedRect` and `MatchedRectList::isMatched`
from `MatchedRect.h`. The scan in `main.cpp` does not use them.

Modules, one per concern:

- `Images` (`images.dfy`): pixels, read-only images and the setRed update.
  - A read-only image is a value `Image` (rows of `Pixel`s).
  - The output image is a mutable `array2<Pixel>`.
- `Background` (`background.dfy`): `computeBackgroundPixel` as a loop method.
  - It is proved equal to the specification function `BackgroundOf`.
  - The lemmas are about the mean.
- `Scoring` (`scoring.dfy`): `sameShade`, plus `calcNetMatch` as a loop method.
  - `calcNetMatch` is proved equal to `NetMatch`.
  - Lemmas relate the count to "every position correct".
- `Regions` (`regions.dfy`): the region list, the corner test, `drawBox` and
  `processPotentialRegion`. The last two modify the output buffer in place.
- `Search` (`search.dfy`): the scan loop of `imageSearch`.
  - It is split into one method per window and one per row.
  - It is proved against `ScanResult`, a description of the stored list in terms of the
    set of potential-match origins.
  - It is also proved against `Outlined`, a description of the output image.
- `MatchedRects` (`matched_rect.dfy`): `MatchedRect` and `isMatched`, as pure functions.

## Model

| member | source | states |
|---|---|---|
| Images.IsBlack | main.cpp:31 | the source's `getPixel(row, col).rgba == Black.rgba` test: the pixel equals opaque black (0, 0, 0, 255) in all four channels |
| Images.GetPixel | main.cpp:32 | the source's `getPixel(row, col)`: the pixel at that row and column, defined only inside the image |
| Images.SetRed | main.cpp:92-98 | the source's `setRed` on one pixel: red to 255, the other channels kept; its properties are in the `Images.SetRedIdempotent` row |
| Images.SetRedIdempotent | main.cpp:91-99 | marking a pixel red twice, as drawBox does at the box corners, equals marking it once; green, blue and alpha are kept |
| Background.ComputeBackgroundPixel | main.cpp:24-44 | the loops return `BackgroundOf`: per channel the truncated mean over the image pixels under black mask pixels, with alpha 0; the call needs a nonzero count; under the mask-area bound, every intermediate value of `count`, `red`, `green` and `blue` stays at or below INT_MAX, so no `+=` overflows |
| Background.PartialBlackCountAtMost | main.cpp:29-36 | the count after any prefix of the scan is at most the final count |
| Background.ChannelSumBetween | main.cpp:29-37 | when every contributor's channel lies in [lo, hi], the channel sum lies between lo and hi times the count |
| Background.ChannelMeanIsByte | main.cpp:40-42 | every mean is below 256, so the narrowing to `unsigned char` loses nothing |
| Background.BackgroundChannelBetween | main.cpp:40-43 | each channel of the estimate lies between the least and the greatest contributing value |
| Background.UniformBackgroundRecovered | main.cpp:40-43 | contributors of a single colour p give exactly p with alpha 0 |
| Background.BlackCountAtMost | main.cpp:29-36 | the count is at most maxRow times maxCol |
| Background.AccumulatorsFitInt32 | main.cpp:28-36 | under the mask-area bound, the count and every channel sum fit in a 32-bit int |
| Background.BlackCountPositive | main.cpp:29-36 | the count is positive exactly when some mask position in range is opaque black; it depends on the mask alone, never on the window origin |
| Background.WhiteMaskLeavesNoDivisor | main.cpp:40-42 | an all-white 2 x 2 mask gives count 0, so the division has a zero divisor |
| Scoring.SameShade | main.cpp:50-59 | the source expression itself, `(diffRed < tolerance && diffGreen < tolerance) && diffBlue < tolerance`; its properties are in the rows `Scoring.SameShadePerChannel` to `Scoring.SameShadeMonotone` |
| Scoring.SameShadePerChannel | main.cpp:50-59 | same shade holds exactly when each of the red, green and blue differences is strictly below the tolerance |
| Scoring.SameShadeSymmetric | main.cpp:50-59 | the test is symmetric in its two pixels |
| Scoring.SameShadeIgnoresAlpha | main.cpp:50-59 | changing either alpha never changes the answer |
| Scoring.SameShadeReflexive | main.cpp:50-59 | a pixel has its own shade exactly when the tolerance is positive |
| Scoring.SameShadeMonotone | main.cpp:50-59 | raising the tolerance keeps a same-shade pair same-shade |
| Scoring.CorrectCountBounded | main.cpp:72-84 | the count of correct positions is at most the area, and equals it exactly when every position is correct |
| Scoring.NetMatch | main.cpp:86 | the net match lies in [-area, area] and equals the area exactly when every position is correct |
| Scoring.CalcNetMatch | main.cpp:64-87 | the loops return `NetMatch`, that is 2 * correct - maxRow * maxCol |
| Regions.PointInRegion | main.cpp:102-106 | the source expression itself, inclusive at both ends of both ranges; its properties are in the `Regions.PointInRegionInclusive` and `Regions.CornerInBounds` rows |
| Regions.Offsets | main.cpp:111-112 | the four corner offsets (0, 0), (h-1, 0), (0, w-1), (h-1, w-1), in the source's order |
| Regions.CornerIn | main.cpp:116-118 | the inner loop's test: some offset corner of the window at (row, col) satisfies `pointInRegion` for the region; closed form in the `Regions.CornerInBounds` row |
| Regions.Overlapped | main.cpp:115-123 | the outer loop's test: some stored region holds a corner of the window; `Regions.ProcessPotentialRegion` returns early exactly when it holds |
| Regions.PointInRegionInclusive | main.cpp:102-106 | the point regHeight rows and regWidth columns from the origin is inside; one row or column further is outside |
| Regions.CornerInBounds | main.cpp:111-123 | some corner of the window lies in a region exactly when the origin is within h-1 rows above to h rows below, and w-1 columns left to w columns right, of the region's origin |
| Regions.CornerInVersusIntersects | main.cpp:111-123 | the corner test holds exactly when the two MatchedRects intersect and the window is not right against the region's top or left edge from outside |
| Regions.DrawBox | main.cpp:89-100 | every pixel on the box's top and bottom rows or left and right columns is marked red; every other pixel is unchanged |
| Regions.ProcessPotentialRegion | main.cpp:108-130 | when a corner lies in a stored region, neither the list nor the image changes; otherwise the origin is appended and the outline drawn |
| Search.Accepted | main.cpp:186-192 | the source's threshold test on the window at (row, col): its background estimate, its net match, and `netMatch > area * matchPercent / 100` as `100 * netMatch > area * matchPercent`; equivalent form in the `Search.AcceptedIffCorrectShare` row |
| Search.AcceptedIffCorrectShare | main.cpp:186-192 | a window is offered exactly when 200 * correct > area * (100 + matchPercent); equality is rejected |
| Search.ScanWindow | main.cpp:186-196 | one window step keeps the scan invariant and the output-image invariant, one origin further on |
| Search.ScanRow | main.cpp:184-197 | one row of window origins keeps both invariants, up to the start of the next row |
| Search.ImageSearch | main.cpp:172-198 | the stored list satisfies `ScanResult` (see below); the output image is the main image with the outline of every stored region marked red; a mask without black pixels yields no regions |
| Search.ScanResultStoredRegions | main.cpp:183-196 | every stored origin is in the scan range and a potential match, and the origins are in strictly increasing (row, col) order |
| Search.ScanResultDropped | main.cpp:192-195 | a potential match that is not stored has a corner in a region stored before it |
| Search.OversizedMaskNoMatches | main.cpp:183-184 | a mask taller or wider than the main image stores nothing |
| Search.DeduplicatedFootprintsDisjoint | main.cpp:111-126 | the pixel footprints of any two stored regions are disjoint |
| Search.DeduplicatedAdmitsIntersectingRects | main.cpp:111-123 | the corner test can keep two regions whose MatchedRects intersect: (0, 2) and (1, 0) with a 2 x 2 mask |
| Search.Reported | main.cpp:132-137 | printResult's line for each stored origin is the rectangle (row, col, row + height, col + width) |
| Search.ReportedSorted | main.cpp:132-137 | the reported rectangles are strictly increasing under MatchedRect's `operator<` |
| MatchedRects.Empty | MatchedRect.h:43 | all four coordinates are 0 |
| MatchedRects.At | MatchedRect.h:53-54 | (row1, col1) = (row, col), row2 - row1 = height, col2 - col1 = width; well-formed exactly when width and height are non-negative |
| MatchedRects.Intersects | MatchedRect.h:62-65 | the source expression itself: neither rectangle lies wholly above, below, left or right of the other; its properties are in the rows `MatchedRects.IntersectsIffCommonPoint` to `MatchedRects.TouchingRectsIntersect` |
| MatchedRects.Call | MatchedRect.h:73-75 | `operator()`: returns `intersects(other)`; see the `MatchedRects.CallIsIntersects` row |
| MatchedRects.Less | MatchedRect.h:83-86 | `operator<` as written: compares col1 when row1 is equal, row1 otherwise; its properties are in the rows `MatchedRects.LessIrreflexive` to `MatchedRects.LessIgnoresFarCorner` |
| MatchedRects.IntersectsIffCommonPoint | MatchedRect.h:62-65 | for well-formed rectangles, intersects holds exactly when the closed rectangles share a point |
| MatchedRects.IntersectsSymmetric | MatchedRect.h:62-65 | intersects is symmetric |
| MatchedRects.IntersectsReflexive | MatchedRect.h:62-65 | a well-formed rectangle intersects itself |
| MatchedRects.TouchingRectsIntersect | MatchedRect.h:62-65 | any two well-formed rectangles that share an edge intersect: a.row2 == b.row1 or a.col2 == b.col1, with the ranges overlapping along that edge |
| MatchedRects.CallIsIntersects | MatchedRect.h:73-75 | `operator()` answers exactly what intersects answers |
| MatchedRects.LessIrreflexive | MatchedRect.h:83-86 | `operator<` is irreflexive |
| MatchedRects.LessTransitive | MatchedRect.h:83-86 | `operator<` is transitive |
| MatchedRects.LessTrichotomous | MatchedRect.h:83-86 | exactly one of a < b, b < a, or "same top-left corner" holds |
| MatchedRects.LessIgnoresFarCorner | MatchedRect.h:83-86 | the order compares top-left corners only |
| MatchedRects.FindIf | MatchedRect.h:110 | `find_if` returns the index of the first element the functor accepts, or the length when none does |
| MatchedRects.IsMatched | MatchedRect.h:109-111 | true exactly when some element of the list intersects the argument, so false on an empty list |
| MatchedRects.IsMatchedAppend | MatchedRect.h:109-111 | appending a rectangle adds exactly its own intersection to the answer |

`ScanResult` states three things about the stored list:

- Every entry is the origin of an in-range window that is a potential match.
- The entries are in raster order, and no entry has a corner in an earlier one.
- Every potential match is either stored or has a corner in a region stored before it.

The scan's loop invariant, `ScanSoFar`, states the same three things for the windows
scanned so far.

Where the system's design description and the code disagree, the model follows the code:

- **Acceptance rule.** The description accepts a window when the count of correct
  positions exceeds `area * matchPercent / 100`. The code compares the net match
  (correct minus incorrect) with that value. `Search.AcceptedIffCorrectShare` states the
  code's rule as a share of correct positions.
- **Deduplication.** The description rejects a candidate that *intersects* an accepted
  rectangle. The code tests the candidate's four corners with the inclusive `pointInRegion`.
  - The two tests differ (`Regions.CornerInVersusIntersects`).
  - The stored list can hold rectangles that intersect (`Search.DeduplicatedAdmitsIntersectingRects`).
  - Their pixel footprints are still pairwise disjoint (`Search.DeduplicatedFootprintsDisjoint`).
- **Sorting.** The description sorts the report before printing. The code prints in scan
  order, which is already sorted (`Search.ReportedSorted`).
- **Concurrency.** The description has a concurrent scan and a locked registry. The code
  includes `omp.h` but has no parallel region, so the scan is sequential and so is the model.

## Left out

- PNG loading, writing and copying (main.cpp:172-175, 202). The images are parameters, and
  the copy is a fresh buffer filled from the main image. `PNG.h` is not part of this model.
- The internals of `getPixel` and `setRed`. `getPixel` is indexing into the image.
  `setRed` is modelled as "red to 255, other channels kept" (`Images.SetRed`).
- Command-line handling in `main` (main.cpp:222-239) and the unused `isMask` flag.
- Console output of `printResult` and of both `operator<<` overloads. Only the reported
  tuple is modelled (`Search.Reported`).
- The `double` comparison at main.cpp:192. It is stated exactly in integers as
  `100 * netMatch > area * matchPercent`. The two agree for every 32-bit product, because
  `area * matchPercent / 100.0` is never rounded onto an integer it does not equal.
- Background.ComputeBackgroundPixel: 32-bit overflow of the channel sums is not modelled.
  The mask area is required to be at most `INT_MAX / 255`. Under that bound the loop
  invariants show that every value the count and the sums take fits in an `int`.
- Search.ImageSearch: requires `area * matchPercent` to fit in an `int`, as the source's
  integer product does before its conversion to double. It does not model the wrap-around
  beyond that.
- MatchedRects.At: `row + height` and `col + width` are unbounded integers; 32-bit overflow
  is not modelled.
- Regions.DrawBox and Regions.ProcessPotentialRegion: require a box at least one pixel wide
  and high inside the image. This is what the scan passes for a mask that fits. A mask with
  no pixels has no black pixel, so the scan never reaches these calls with one.
- Search.ImageSearch: when the mask has no opaque-black pixel, it returns the unmarked copy
  with no regions before scanning. The source instead divides by zero in the first window
  whenever the mask fits inside the main image (see "## Findings"). So the clause "a mask
  without black pixels yields no regions" describes the corrected behaviour, not the source's.
- Search.ImageSearch: the per-window and per-row steps are separate methods (`ScanWindow`,
  `ScanRow`). The source writes them inline as the bodies of the two loops.

## Findings

| source | as written | input that shows it | evidently intended | confidence | as-written member | corrected member |
|---|---|---|---|---|---|---|
| main.cpp:40-42 | `computeBackgroundPixel` divides each channel sum by `count` with no guard. `count` is the number of opaque-black mask pixels, the same for every window. | a mask that fits inside the main image and has no opaque-black pixel, e.g. the all-white 2 x 2 mask over a main image of at least 2 x 2: `count` is 0 for the first window (integer division by zero) | a mask without background pixels gives no background estimate, and no window is accepted | not executed | Background.WhiteMaskLeavesNoDivisor | Search.ImageSearch |

`Background.ComputeBackgroundPixel` models the division as written, so it requires a
nonzero count. `Background.BlackCountPositive` shows that this count is zero exactly when the
mask has no black pixel. `Search.ImageSearch` therefore checks the count once, before the
scan, and returns the unmarked copy with no regions when it is zero.

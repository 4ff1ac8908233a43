/** The background estimate of one search window: the average colour of the
    image pixels that lie under opaque-black mask pixels. */
module Background {
  import opened Images

  /** Number of opaque-black pixels among the first `cols` pixels of mask row `r`. */
  function RowBlackCount(mask: Image, r: nat, cols: nat): nat
    requires WellFormed(mask) && r < mask.height && cols <= mask.width
  {
    if cols == 0 then 0
    else RowBlackCount(mask, r, cols - 1) + (if IsBlack(GetPixel(mask, r, cols - 1)) then 1 else 0)
  }

  /** Number of opaque-black pixels in the first `rows` rows and `cols` columns of the mask. */
  function BlackCount(mask: Image, rows: nat, cols: nat): nat
    requires WellFormed(mask) && rows <= mask.height && cols <= mask.width
  {
    if rows == 0 then 0
    else BlackCount(mask, rows - 1, cols) + RowBlackCount(mask, rows - 1, cols)
  }

  /** Sum of channel `ch` over the image pixels under the black pixels among the
      first `cols` pixels of mask row `r`, with the mask's origin at (sr, sc). */
  function RowChannelSum(img: Image, mask: Image, sr: int, sc: int,
                         r: nat, cols: nat, ch: Channel): nat
    requires WindowInside(img, mask, sr, sc, r + 1, cols)
  {
    if cols == 0 then 0
    else RowChannelSum(img, mask, sr, sc, r, cols - 1, ch)
         + (if IsBlack(GetPixel(mask, r, cols - 1)) then Chan(GetPixel(img, sr + r, sc + cols - 1), ch) else 0)
  }

  /** Sum of channel `ch` over the image pixels under the black pixels of the
      first `rows` rows and `cols` columns of the mask. */
  function ChannelSum(img: Image, mask: Image, sr: int, sc: int,
                      rows: nat, cols: nat, ch: Channel): nat
    requires WindowInside(img, mask, sr, sc, rows, cols)
  {
    if rows == 0 then 0
    else ChannelSum(img, mask, sr, sc, rows - 1, cols, ch) + RowChannelSum(img, mask, sr, sc, rows - 1, cols, ch)
  }

  /** Every image pixel that contributes to the estimate has channel `ch` in [lo, hi]. */
  ghost predicate ContributorsBetween(img: Image, mask: Image, sr: int, sc: int,
                                      rows: nat, cols: nat, ch: Channel, lo: int, hi: int)
    requires WindowInside(img, mask, sr, sc, rows, cols)
  {
    forall r, c :: 0 <= r < rows && 0 <= c < cols && IsBlack(GetPixel(mask, r, c)) ==>
      lo <= Chan(GetPixel(img, sr + r, sc + c), ch) <= hi
  }

  lemma {:induction false} RowChannelSumBetween(img: Image, mask: Image, sr: int, sc: int,
                                                r: nat, cols: nat, ch: Channel, lo: int, hi: int)
    requires WindowInside(img, mask, sr, sc, r + 1, cols)
    requires ContributorsBetween(img, mask, sr, sc, r + 1, cols, ch, lo, hi)
    ensures lo * RowBlackCount(mask, r, cols) <= RowChannelSum(img, mask, sr, sc, r, cols, ch)
                                              <= hi * RowBlackCount(mask, r, cols)
  {
    if cols > 0 {
      RowChannelSumBetween(img, mask, sr, sc, r, cols - 1, ch, lo, hi);
      var k := RowBlackCount(mask, r, cols - 1);
      if IsBlack(GetPixel(mask, r, cols - 1)) {
        Distribute(lo, k, 1);
        Distribute(hi, k, 1);
      }
    }
  }

  /** The channel sum lies between `lo` and `hi` times the number of contributors. */
  lemma {:induction false} ChannelSumBetween(img: Image, mask: Image, sr: int, sc: int,
                                             rows: nat, cols: nat, ch: Channel, lo: int, hi: int)
    requires WindowInside(img, mask, sr, sc, rows, cols)
    requires ContributorsBetween(img, mask, sr, sc, rows, cols, ch, lo, hi)
    ensures lo * BlackCount(mask, rows, cols) <= ChannelSum(img, mask, sr, sc, rows, cols, ch)
                                              <= hi * BlackCount(mask, rows, cols)
  {
    if rows > 0 {
      ChannelSumBetween(img, mask, sr, sc, rows - 1, cols, ch, lo, hi);
      RowChannelSumBetween(img, mask, sr, sc, rows - 1, cols, ch, lo, hi);
      var a, b := BlackCount(mask, rows - 1, cols), RowBlackCount(mask, rows - 1, cols);
      Distribute(lo, a, b);
      Distribute(hi, a, b);
    }
  }

  /** Truncating division by a positive count keeps a value that lies between
      `lo` and `hi` times the count between `lo` and `hi`. */
  lemma DivBetween(s: int, n: int, lo: int, hi: int)
    requires n > 0 && lo * n <= s <= hi * n
    ensures lo <= s / n <= hi
  {
    var q := s / n;
    assert q * n <= s < (q + 1) * n;
    MulCancel(lo, q + 1, n);
    MulCancel(q, hi + 1, n);
  }

  lemma Distribute(x: int, a: int, b: int)
    ensures x * (a + b) == x * a + x * b
  {
  }

  /** Multiplying by a positive factor preserves a strict order. */
  lemma MulCancel(a: int, b: int, n: int)
    requires n > 0 && a * n < b * n
    ensures a < b
  {
  }

  /** Every channel mean fits in a byte, so narrowing it to `unsigned char` loses nothing. */
  lemma ChannelMeanIsByte(img: Image, mask: Image, sr: int, sc: int,
                          rows: nat, cols: nat, ch: Channel)
    requires WindowInside(img, mask, sr, sc, rows, cols) && BlackCount(mask, rows, cols) > 0
    ensures 0 <= ChannelSum(img, mask, sr, sc, rows, cols, ch) / BlackCount(mask, rows, cols) < 256
  {
    ChannelSumBetween(img, mask, sr, sc, rows, cols, ch, 0, 255);
    DivBetween(ChannelSum(img, mask, sr, sc, rows, cols, ch), BlackCount(mask, rows, cols), 0, 255);
  }

  /** The background pixel of the window at (sr, sc) of `rows` x `cols` mask pixels:
      each colour channel is the truncated mean over the contributors, alpha is 0.
      The count depends on the mask alone, never on the window origin. */
  function BackgroundOf(img: Image, mask: Image, sr: int, sc: int,
                        rows: nat, cols: nat): Pixel
    requires WindowInside(img, mask, sr, sc, rows, cols) && BlackCount(mask, rows, cols) > 0
  {
    var count := BlackCount(mask, rows, cols);
    ChannelMeanIsByte(img, mask, sr, sc, rows, cols, Red);
    ChannelMeanIsByte(img, mask, sr, sc, rows, cols, Green);
    ChannelMeanIsByte(img, mask, sr, sc, rows, cols, Blue);
    Pixel(ChannelSum(img, mask, sr, sc, rows, cols, Red) / count,
          ChannelSum(img, mask, sr, sc, rows, cols, Green) / count,
          ChannelSum(img, mask, sr, sc, rows, cols, Blue) / count,
          0)
  }

  /** computeBackgroundPixel: accumulates the red, green and blue sums and the
      count of black mask pixels row by row, then divides each sum by the count. */
  method ComputeBackgroundPixel(img1: Image, mask: Image,
                                startRow: int, startCol: int, maxRow: nat, maxCol: nat)
    returns (avg: Pixel)
    requires WindowInside(img1, mask, startRow, startCol, maxRow, maxCol)
    requires maxRow * maxCol <= MaxMaskArea
    requires BlackCount(mask, maxRow, maxCol) > 0
    ensures avg == BackgroundOf(img1, mask, startRow, startCol, maxRow, maxCol)
    ensures avg.alpha == 0
  {
    var red, blue, green, count := 0, 0, 0, 0;
    ghost var total := BlackCount(mask, maxRow, maxCol);
    BlackCountAtMost(mask, maxRow, maxCol);
    for row := 0 to maxRow
      invariant count == BlackCount(mask, row, maxCol)
      invariant red == ChannelSum(img1, mask, startRow, startCol, row, maxCol, Red)
      invariant green == ChannelSum(img1, mask, startRow, startCol, row, maxCol, Green)
      invariant blue == ChannelSum(img1, mask, startRow, startCol, row, maxCol, Blue)
      invariant count <= total
      invariant red <= 255 * count && green <= 255 * count && blue <= 255 * count
    {
      for col := 0 to maxCol
        invariant count == BlackCount(mask, row, maxCol) + RowBlackCount(mask, row, col)
        invariant red == ChannelSum(img1, mask, startRow, startCol, row, maxCol, Red)
                         + RowChannelSum(img1, mask, startRow, startCol, row, col, Red)
        invariant green == ChannelSum(img1, mask, startRow, startCol, row, maxCol, Green)
                           + RowChannelSum(img1, mask, startRow, startCol, row, col, Green)
        invariant blue == ChannelSum(img1, mask, startRow, startCol, row, maxCol, Blue)
                          + RowChannelSum(img1, mask, startRow, startCol, row, col, Blue)
        invariant count <= total
        invariant red <= 255 * count && green <= 255 * count && blue <= 255 * count
        // no `+=` overflows: every value the accumulators take fits in an `int`
        invariant count <= IntMax && red <= IntMax && green <= IntMax && blue <= IntMax
      {
        PartialBlackCountAtMost(mask, row, col + 1, maxRow, maxCol);
        if IsBlack(GetPixel(mask, row, col)) {
          var pix := GetPixel(img1, row + startRow, col + startCol);
          red := red + pix.red;
          green := green + pix.green;
          blue := blue + pix.blue;
          count := count + 1;
        }
      }
    }
    ChannelMeanIsByte(img1, mask, startRow, startCol, maxRow, maxCol, Red);
    ChannelMeanIsByte(img1, mask, startRow, startCol, maxRow, maxCol, Green);
    ChannelMeanIsByte(img1, mask, startRow, startCol, maxRow, maxCol, Blue);
    var avgRed, avgGreen, avgBlue := red / count, green / count, blue / count;
    avg := Pixel(avgRed, avgGreen, avgBlue, 0);
  }

  /** Each channel of the estimate lies between the least and the greatest value
      that contributed to it. */
  lemma BackgroundChannelBetween(img: Image, mask: Image, sr: int, sc: int,
                                 rows: nat, cols: nat, ch: Channel, lo: int, hi: int)
    requires WindowInside(img, mask, sr, sc, rows, cols) && BlackCount(mask, rows, cols) > 0
    requires ContributorsBetween(img, mask, sr, sc, rows, cols, ch, lo, hi)
    ensures lo <= Chan(BackgroundOf(img, mask, sr, sc, rows, cols), ch) <= hi
  {
    ChannelSumBetween(img, mask, sr, sc, rows, cols, ch, lo, hi);
    DivBetween(ChannelSum(img, mask, sr, sc, rows, cols, ch), BlackCount(mask, rows, cols), lo, hi);
  }

  /** A window whose contributing pixels all have one colour `p` yields exactly that
      colour as its background, with alpha 0. */
  lemma UniformBackgroundRecovered(img: Image, mask: Image, sr: int, sc: int,
                                   rows: nat, cols: nat, p: Pixel)
    requires WindowInside(img, mask, sr, sc, rows, cols) && BlackCount(mask, rows, cols) > 0
    requires forall r, c :: 0 <= r < rows && 0 <= c < cols && IsBlack(GetPixel(mask, r, c)) ==>
               GetPixel(img, sr + r, sc + c) == p
    ensures BackgroundOf(img, mask, sr, sc, rows, cols) == p.(alpha := 0)
  {
    BackgroundChannelBetween(img, mask, sr, sc, rows, cols, Red, p.red, p.red);
    BackgroundChannelBetween(img, mask, sr, sc, rows, cols, Green, p.green, p.green);
    BackgroundChannelBetween(img, mask, sr, sc, rows, cols, Blue, p.blue, p.blue);
  }

  lemma {:induction false} RowBlackCountAtMost(mask: Image, r: nat, cols: nat)
    requires WellFormed(mask) && r < mask.height && cols <= mask.width
    ensures RowBlackCount(mask, r, cols) <= cols
  {
    if cols > 0 {
      RowBlackCountAtMost(mask, r, cols - 1);
    }
  }

  /** At most every mask position is black. */
  lemma {:induction false} BlackCountAtMost(mask: Image, rows: nat, cols: nat)
    requires WellFormed(mask) && rows <= mask.height && cols <= mask.width
    ensures BlackCount(mask, rows, cols) <= rows * cols
  {
    if rows > 0 {
      BlackCountAtMost(mask, rows - 1, cols);
      RowBlackCountAtMost(mask, rows - 1, cols);
      assert rows * cols == (rows - 1) * cols + cols;
    }
  }

  /** Under the mask-area bound, the final count and every final channel sum of
      computeBackgroundPixel fit in a 32-bit `int`. The loop invariants of
      `ComputeBackgroundPixel` carry the same bound for every intermediate value. */
  lemma AccumulatorsFitInt32(img: Image, mask: Image, sr: int, sc: int,
                             rows: nat, cols: nat, ch: Channel)
    requires WindowInside(img, mask, sr, sc, rows, cols) && rows * cols <= MaxMaskArea
    ensures BlackCount(mask, rows, cols) <= IntMax
    ensures ChannelSum(img, mask, sr, sc, rows, cols, ch) <= IntMax
  {
    ChannelSumBetween(img, mask, sr, sc, rows, cols, ch, 0, 255);
    BlackCountAtMost(mask, rows, cols);
  }

  /** The count is positive exactly when some position of the mask is black. */
  lemma {:induction false} BlackCountPositive(mask: Image, rows: nat, cols: nat)
    requires WellFormed(mask) && rows <= mask.height && cols <= mask.width
    ensures BlackCount(mask, rows, cols) > 0 <==>
            exists r, c :: 0 <= r < rows && 0 <= c < cols && IsBlack(GetPixel(mask, r, c))
  {
    if rows > 0 {
      BlackCountPositive(mask, rows - 1, cols);
      RowBlackCountPositive(mask, rows - 1, cols);
    }
  }

  lemma {:induction false} RowBlackCountPositive(mask: Image, r: nat, cols: nat)
    requires WellFormed(mask) && r < mask.height && cols <= mask.width
    ensures RowBlackCount(mask, r, cols) > 0 <==> exists c :: 0 <= c < cols && IsBlack(GetPixel(mask, r, c))
  {
    if cols > 0 {
      RowBlackCountPositive(mask, r, cols - 1);
    }
  }

  /** A mask with no opaque-black pixel, such as this all-white 2 x 2 one, leaves the
      count at zero for every window origin, so the division by `count` has a zero divisor. */
  lemma WhiteMaskLeavesNoDivisor()
    ensures var white := Pixel(255, 255, 255, 255);
            var mask := Image(2, 2, [[white, white], [white, white]]);
            WellFormed(mask) && BlackCount(mask, 2, 2) == 0
  {
    var white := Pixel(255, 255, 255, 255);
    var mask := Image(2, 2, [[white, white], [white, white]]);
    assert forall r, c :: 0 <= r < 2 && 0 <= c < 2 ==> !IsBlack(GetPixel(mask, r, c));
    BlackCountPositive(mask, 2, 2);
  }

  lemma {:induction false} RowBlackCountMonotone(mask: Image, r: nat, c1: nat, c2: nat)
    requires WellFormed(mask) && r < mask.height && c1 <= c2 <= mask.width
    ensures RowBlackCount(mask, r, c1) <= RowBlackCount(mask, r, c2)
  {
    if c1 < c2 {
      RowBlackCountMonotone(mask, r, c1, c2 - 1);
    }
  }

  lemma {:induction false} BlackCountMonotone(mask: Image, r1: nat, r2: nat, cols: nat)
    requires WellFormed(mask) && r1 <= r2 <= mask.height && cols <= mask.width
    ensures BlackCount(mask, r1, cols) <= BlackCount(mask, r2, cols)
  {
    if r1 < r2 {
      BlackCountMonotone(mask, r1, r2 - 1, cols);
    }
  }

  /** The count after the first `col` columns of row `row` never exceeds the final
      count, so no intermediate value of the accumulators exceeds its final bound. */
  lemma {:induction false} PartialBlackCountAtMost(mask: Image, row: nat, col: nat, maxRow: nat, maxCol: nat)
    requires WellFormed(mask) && row < maxRow <= mask.height && col <= maxCol <= mask.width
    ensures BlackCount(mask, row, maxCol) + RowBlackCount(mask, row, col) <= BlackCount(mask, maxRow, maxCol)
  {
    RowBlackCountMonotone(mask, row, col, maxCol);
    BlackCountMonotone(mask, row + 1, maxRow, maxCol);
  }
}

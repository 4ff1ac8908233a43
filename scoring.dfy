/** Scoring of one search window: each position is classified as background or
    pattern by comparing its image pixel with the window's background estimate. */
module Scoring {
  import opened Images

  /** `abs(a - b)` on two channel values. */
  function Diff(a: int, b: int): nat {
    if a < b then b - a else a - b
  }

  /** sameShade: the red, green and blue differences are each strictly below `tolerance`. */
  predicate SameShade(pixel1: Pixel, pixel2: Pixel, tolerance: int) {
    (Diff(pixel1.red, pixel2.red) < tolerance && Diff(pixel1.green, pixel2.green) < tolerance)
    && Diff(pixel1.blue, pixel2.blue) < tolerance
  }

  /** The same test channel by channel: a conjunction over the three colour channels. */
  lemma SameShadePerChannel(pixel1: Pixel, pixel2: Pixel, tolerance: int)
    ensures SameShade(pixel1, pixel2, tolerance) <==>
            forall ch: Channel :: Diff(Chan(pixel1, ch), Chan(pixel2, ch)) < tolerance
  {
    if forall ch: Channel :: Diff(Chan(pixel1, ch), Chan(pixel2, ch)) < tolerance {
      assert Diff(Chan(pixel1, Red), Chan(pixel2, Red)) < tolerance;
      assert Diff(Chan(pixel1, Green), Chan(pixel2, Green)) < tolerance;
      assert Diff(Chan(pixel1, Blue), Chan(pixel2, Blue)) < tolerance;
    }
  }

  lemma SameShadeSymmetric(pixel1: Pixel, pixel2: Pixel, tolerance: int)
    ensures SameShade(pixel1, pixel2, tolerance) == SameShade(pixel2, pixel1, tolerance)
  {
  }

  /** Alpha takes no part in the comparison. */
  lemma SameShadeIgnoresAlpha(pixel1: Pixel, pixel2: Pixel, tolerance: int, a1: Byte, a2: Byte)
    ensures SameShade(pixel1.(alpha := a1), pixel2.(alpha := a2), tolerance) == SameShade(pixel1, pixel2, tolerance)
  {
  }

  /** A pixel has the same shade as itself exactly when the tolerance is positive. */
  lemma SameShadeReflexive(p: Pixel, tolerance: int)
    ensures SameShade(p, p, tolerance) <==> tolerance > 0
  {
  }

  /** Raising the tolerance never turns a same-shade pair into a different-shade pair. */
  lemma SameShadeMonotone(pixel1: Pixel, pixel2: Pixel, tolerance: int, larger: int)
    requires tolerance <= larger && SameShade(pixel1, pixel2, tolerance)
    ensures SameShade(pixel1, pixel2, larger)
  {
  }

  /** Position (r, c) of the mask is classified correctly: a black mask pixel over an
      image pixel of the background's shade, or a non-black one over an image pixel
      of a different shade. */
  predicate Correct(img: Image, mask: Image, sr: int, sc: int,
                    r: nat, c: nat, avgPixel: Pixel, tolerance: int)
    requires WindowInside(img, mask, sr, sc, r + 1, c + 1)
  {
    var hasSameShade := SameShade(GetPixel(img, sr + r, sc + c), avgPixel, tolerance);
    (IsBlack(GetPixel(mask, r, c)) && hasSameShade) || (!IsBlack(GetPixel(mask, r, c)) && !hasSameShade)
  }

  /** Correct classifications among the first `cols` positions of mask row `r`. */
  function RowCorrectCount(img: Image, mask: Image, sr: int, sc: int,
                           r: nat, cols: nat, avgPixel: Pixel, tolerance: int): nat
    requires WindowInside(img, mask, sr, sc, r + 1, cols)
  {
    if cols == 0 then 0
    else RowCorrectCount(img, mask, sr, sc, r, cols - 1, avgPixel, tolerance)
         + (if Correct(img, mask, sr, sc, r, cols - 1, avgPixel, tolerance) then 1 else 0)
  }

  /** Correct classifications in the first `rows` rows and `cols` columns of the mask. */
  function CorrectCount(img: Image, mask: Image, sr: int, sc: int,
                        rows: nat, cols: nat, avgPixel: Pixel, tolerance: int): nat
    requires WindowInside(img, mask, sr, sc, rows, cols)
  {
    if rows == 0 then 0
    else CorrectCount(img, mask, sr, sc, rows - 1, cols, avgPixel, tolerance)
         + RowCorrectCount(img, mask, sr, sc, rows - 1, cols, avgPixel, tolerance)
  }

  /** Every position of the first `rows` rows and `cols` columns is classified correctly. */
  ghost predicate AllCorrect(img: Image, mask: Image, sr: int, sc: int,
                             rows: nat, cols: nat, avgPixel: Pixel, tolerance: int)
    requires WindowInside(img, mask, sr, sc, rows, cols)
  {
    forall r, c :: 0 <= r < rows && 0 <= c < cols ==> Correct(img, mask, sr, sc, r, c, avgPixel, tolerance)
  }

  /** Every one of the first `cols` positions of mask row `r` is classified correctly. */
  ghost predicate RowAllCorrect(img: Image, mask: Image, sr: int, sc: int,
                                r: nat, cols: nat, avgPixel: Pixel, tolerance: int)
    requires WindowInside(img, mask, sr, sc, r + 1, cols)
  {
    forall c :: 0 <= c < cols ==> Correct(img, mask, sr, sc, r, c, avgPixel, tolerance)
  }

  lemma {:induction false} RowCorrectCountBounded(img: Image, mask: Image, sr: int, sc: int,
                                                  r: nat, cols: nat, avgPixel: Pixel, tolerance: int)
    requires WindowInside(img, mask, sr, sc, r + 1, cols)
    ensures RowCorrectCount(img, mask, sr, sc, r, cols, avgPixel, tolerance) <= cols
    ensures RowCorrectCount(img, mask, sr, sc, r, cols, avgPixel, tolerance) == cols <==>
            RowAllCorrect(img, mask, sr, sc, r, cols, avgPixel, tolerance)
  {
    if cols > 0 {
      RowCorrectCountBounded(img, mask, sr, sc, r, cols - 1, avgPixel, tolerance);
    }
  }

  /** At most every position is correct, and all are exactly when the count reaches the area. */
  lemma {:induction false} CorrectCountBounded(img: Image, mask: Image, sr: int, sc: int,
                                               rows: nat, cols: nat, avgPixel: Pixel, tolerance: int)
    requires WindowInside(img, mask, sr, sc, rows, cols)
    ensures CorrectCount(img, mask, sr, sc, rows, cols, avgPixel, tolerance) <= rows * cols
    ensures CorrectCount(img, mask, sr, sc, rows, cols, avgPixel, tolerance) == rows * cols <==>
            AllCorrect(img, mask, sr, sc, rows, cols, avgPixel, tolerance)
  {
    if rows > 0 {
      CorrectCountBounded(img, mask, sr, sc, rows - 1, cols, avgPixel, tolerance);
      RowCorrectCountBounded(img, mask, sr, sc, rows - 1, cols, avgPixel, tolerance);
      AllCorrectLastRow(img, mask, sr, sc, rows, cols, avgPixel, tolerance);
      assert rows * cols == (rows - 1) * cols + cols;
    }
  }

  /** All of `rows` rows are correct exactly when all earlier rows and the last row are. */
  lemma AllCorrectLastRow(img: Image, mask: Image, sr: int, sc: int,
                          rows: nat, cols: nat, avgPixel: Pixel, tolerance: int)
    requires rows > 0 && WindowInside(img, mask, sr, sc, rows, cols)
    ensures AllCorrect(img, mask, sr, sc, rows, cols, avgPixel, tolerance) <==>
            AllCorrect(img, mask, sr, sc, rows - 1, cols, avgPixel, tolerance) &&
            RowAllCorrect(img, mask, sr, sc, rows - 1, cols, avgPixel, tolerance)
  {
  }

  /** The net match of a window: correct classifications minus incorrect ones.
      It lies in [-area, area] and reaches the area exactly when every position is correct. */
  function NetMatch(img: Image, mask: Image, sr: int, sc: int,
                    rows: nat, cols: nat, avgPixel: Pixel, tolerance: int): (net: int)
    requires WindowInside(img, mask, sr, sc, rows, cols)
    ensures -(rows * cols) <= net <= rows * cols
    ensures net == rows * cols <==> AllCorrect(img, mask, sr, sc, rows, cols, avgPixel, tolerance)
  {
    CorrectCountBounded(img, mask, sr, sc, rows, cols, avgPixel, tolerance);
    var countMatch := CorrectCount(img, mask, sr, sc, rows, cols, avgPixel, tolerance);
    countMatch - (rows * cols - countMatch)
  }

  /** calcNetMatch: counts the correct classifications row by row and returns
      correct minus incorrect. */
  method CalcNetMatch(img1: Image, mask: Image, startRow: int, startCol: int,
                      maxRow: nat, maxCol: nat, avgPixel: Pixel, tolerance: int)
    returns (net: int)
    requires WindowInside(img1, mask, startRow, startCol, maxRow, maxCol)
    ensures net == NetMatch(img1, mask, startRow, startCol, maxRow, maxCol, avgPixel, tolerance)
    ensures net == 2 * CorrectCount(img1, mask, startRow, startCol, maxRow, maxCol, avgPixel, tolerance)
                   - maxRow * maxCol
  {
    var countMatch := 0;
    for row := 0 to maxRow
      invariant countMatch == CorrectCount(img1, mask, startRow, startCol, row, maxCol, avgPixel, tolerance)
    {
      for col := 0 to maxCol
        invariant countMatch == CorrectCount(img1, mask, startRow, startCol, row, maxCol, avgPixel, tolerance)
                                + RowCorrectCount(img1, mask, startRow, startCol, row, col, avgPixel, tolerance)
      {
        var pix := GetPixel(img1, startRow + row, startCol + col);
        var hasSameShade := SameShade(pix, avgPixel, tolerance);
        if (IsBlack(GetPixel(mask, row, col)) && hasSameShade) || (!IsBlack(GetPixel(mask, row, col)) && !hasSameShade) {
          countMatch := countMatch + 1;
        }
      }
    }
    net := countMatch - (maxRow * maxCol - countMatch);
  }
}

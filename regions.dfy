/** The list of accepted regions, the corner test that keeps it free of repeats,
    and the red outline drawn around each accepted region. */
module Regions {
  import opened Images
  import MatchedRects

  /** One accepted match, by the row and column of its top-left corner (the
      two-element `[row, col]` vector of the source). */
  datatype Region = Region(row: int, col: int)

  /** pointInRegion: inclusive at both ends, so the region stretches over
      height + 1 rows and width + 1 columns. */
  predicate PointInRegion(pointRow: int, pointCol: int, regRow: int, regCol: int,
                          regWidth: int, regHeight: int) {
    (regRow <= pointRow && pointRow <= regRow + regHeight)
    && (regCol <= pointCol && pointCol <= regCol + regWidth)
  }

  /** The far edges belong to the region: the point `regHeight` rows and `regWidth`
      columns from its origin is inside, one row or one column further is not. */
  lemma PointInRegionInclusive(regRow: int, regCol: int, regWidth: int, regHeight: int)
    requires regWidth >= 0 && regHeight >= 0
    ensures PointInRegion(regRow + regHeight, regCol + regWidth, regRow, regCol, regWidth, regHeight)
    ensures !PointInRegion(regRow + regHeight + 1, regCol, regRow, regCol, regWidth, regHeight)
    ensures !PointInRegion(regRow, regCol + regWidth + 1, regRow, regCol, regWidth, regHeight)
  {
  }

  /** The four corner offsets of a window, in the order they are tried. */
  function Offsets(width: int, height: int): seq<(int, int)> {
    [(0, 0), (height - 1, 0), (0, width - 1), (height - 1, width - 1)]
  }

  /** Some corner of the window at (row, col) lies in `region`, measured with the window's size. */
  predicate CornerIn(row: int, col: int, width: int, height: int, region: Region) {
    exists k :: 0 <= k < 4 &&
      PointInRegion(row + Offsets(width, height)[k].0, col + Offsets(width, height)[k].1,
                    region.row, region.col, width, height)
  }

  /** Some stored region holds a corner of the window at (row, col). */
  predicate Overlapped(regions: seq<Region>, row: int, col: int, width: int, height: int) {
    exists i :: 0 <= i < |regions| && CornerIn(row, col, width, height, regions[i])
  }

  /** The corner test in closed form: the window's origin lies within h - 1 rows above
      to h rows below, and w - 1 columns left to w columns right, of the region's. */
  lemma CornerInBounds(row: int, col: int, width: int, height: int, region: Region)
    requires width >= 1 && height >= 1
    ensures CornerIn(row, col, width, height, region) <==>
            (region.row - height + 1 <= row <= region.row + height &&
             region.col - width + 1 <= col <= region.col + width)
  {
    var offs := Offsets(width, height);
    if region.row - height + 1 <= row <= region.row + height &&
       region.col - width + 1 <= col <= region.col + width {
      var dr := if row < region.row then height - 1 else 0;
      var dc := if col < region.col then width - 1 else 0;
      var k := if dr == 0 then (if dc == 0 then 0 else 2) else (if dc == 0 then 1 else 3);
      assert offs[k] == (dr, dc);
      assert PointInRegion(row + offs[k].0, col + offs[k].1, region.row, region.col, width, height);
    }
  }

  /** The corner test and MatchedRect's intersects differ: for windows of one size the
      corner test holds exactly when the rectangles intersect and the new window does
      not sit right against the region's top or left edge from outside. */
  lemma CornerInVersusIntersects(row: int, col: int, width: int, height: int, region: Region)
    requires width >= 1 && height >= 1
    ensures CornerIn(row, col, width, height, region) <==>
            (MatchedRects.Intersects(MatchedRects.At(row, col, width, height),
                                     MatchedRects.At(region.row, region.col, width, height))
             && row != region.row - height && col != region.col - width)
  {
    CornerInBounds(row, col, width, height, region);
  }

  /** Pixel (r, c) lies on the outline of the box of the given size at (row, col). */
  predicate OnOutline(r: int, c: int, row: int, col: int, width: int, height: int) {
    ((r == row || r == row + height - 1) && col <= c < col + width)
    || ((c == col || c == col + width - 1) && row <= r < row + height)
  }

  /** The box lies inside the image and is at least one pixel wide and high. */
  predicate BoxInside(png: array2<Pixel>, row: int, col: int, width: int, height: int) {
    && 1 <= width && 1 <= height
    && 0 <= row && row + height <= png.Length0
    && 0 <= col && col + width <= png.Length1
  }

  /** drawBox: marks the top and bottom rows, then the left and right columns, of the box. */
  method DrawBox(png: array2<Pixel>, row: int, col: int, width: int, height: int)
    requires BoxInside(png, row, col, width, height)
    modifies png
    ensures forall r, c :: 0 <= r < png.Length0 && 0 <= c < png.Length1 ==>
      png[r, c] == if OnOutline(r, c, row, col, width, height) then SetRed(old(png[r, c])) else old(png[r, c])
  {
    for i := 0 to width
      invariant forall r, c :: 0 <= r < png.Length0 && 0 <= c < png.Length1 ==>
        png[r, c] == if (r == row || r == row + height - 1) && col <= c < col + i
                     then SetRed(old(png[r, c])) else old(png[r, c])
    {
      png[row, col + i] := SetRed(png[row, col + i]);
      png[row + height - 1, col + i] := SetRed(png[row + height - 1, col + i]);
    }
    for i := 0 to height
      invariant forall r, c :: 0 <= r < png.Length0 && 0 <= c < png.Length1 ==>
        png[r, c] == if ((r == row || r == row + height - 1) && col <= c < col + width)
                        || ((c == col || c == col + width - 1) && row <= r < row + i)
                     then SetRed(old(png[r, c])) else old(png[r, c])
    {
      png[row + i, col] := SetRed(png[row + i, col]);
      png[row + i, col + width - 1] := SetRed(png[row + i, col + width - 1]);
    }
  }

  /** processPotentialRegion: a window with a corner in a stored region is dropped and
      nothing changes; otherwise it is appended to the list and outlined in the image. */
  method ProcessPotentialRegion(png: array2<Pixel>, row: int, col: int, width: int, height: int,
                                regions: seq<Region>)
    returns (regions': seq<Region>)
    requires BoxInside(png, row, col, width, height)
    modifies png
    ensures Overlapped(regions, row, col, width, height) ==> regions' == regions && unchanged(png)
    ensures !Overlapped(regions, row, col, width, height) ==>
      && regions' == regions + [Region(row, col)]
      && forall r, c :: 0 <= r < png.Length0 && 0 <= c < png.Length1 ==>
           png[r, c] == if OnOutline(r, c, row, col, width, height) then SetRed(old(png[r, c])) else old(png[r, c])
  {
    var offsets := Offsets(width, height);
    for i := 0 to |regions|
      invariant forall j :: 0 <= j < i ==> !CornerIn(row, col, width, height, regions[j])
    {
      for k := 0 to |offsets|
        invariant forall t :: 0 <= t < k ==>
          !PointInRegion(row + offsets[t].0, col + offsets[t].1, regions[i].row, regions[i].col, width, height)
      {
        if PointInRegion(row + offsets[k].0, col + offsets[k].1, regions[i].row, regions[i].col, width, height) {
          assert CornerIn(row, col, width, height, regions[i]);
          return regions;
        }
      }
    }
    regions' := regions + [Region(row, col)];
    DrawBox(png, row, col, width, height);
  }
}

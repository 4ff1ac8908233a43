/** imageSearch: the raster scan over every window origin of the main image. */
module Search {
  import opened Images
  import opened Background
  import opened Scoring
  import opened Regions
  import MatchedRects

  /** Both images are rectangular and the mask has at least one opaque-black pixel,
      so that every window has a background estimate. */
  predicate Searchable(img: Image, mask: Image) {
    WellFormed(img) && WellFormed(mask) && BlackCount(mask, mask.height, mask.width) > 0
  }

  /** A window origin at which the whole mask fits inside the image. */
  predicate InScanRange(img: Image, mask: Image, row: int, col: int) {
    0 <= row <= img.height - mask.height && 0 <= col <= img.width - mask.width
  }

  /** The window at (row, col) is a potential match: its net match exceeds
      matchPercent per cent of the mask area strictly. */
  predicate Accepted(img: Image, mask: Image, row: int, col: int,
                     matchPercent: int, tolerance: int)
    requires InScanRange(img, mask, row, col)
    requires Searchable(img, mask)
  {
    var h, w := mask.height, mask.width;
    var avgPixel := BackgroundOf(img, mask, row, col, h, w);
    100 * NetMatch(img, mask, row, col, h, w, avgPixel, tolerance) > h * w * matchPercent
  }

  /** The net-match rule in terms of correct classifications alone: more than
      (100 + matchPercent) / 200 of the positions must be correct. */
  lemma AcceptedIffCorrectShare(img: Image, mask: Image, row: int, col: int,
                                matchPercent: int, tolerance: int)
    requires InScanRange(img, mask, row, col)
    requires Searchable(img, mask)
    ensures var h, w := mask.height, mask.width;
            Accepted(img, mask, row, col, matchPercent, tolerance) <==>
            200 * CorrectCount(img, mask, row, col, h, w, BackgroundOf(img, mask, row, col, h, w), tolerance)
            > h * w * (100 + matchPercent)
  {
  }

  /** Region `a` comes before window (row, col) in raster order. */
  predicate Precedes(a: Region, row: int, col: int) {
    a.row < row || (a.row == row && a.col < col)
  }

  /** Pixel (r, c) lies on the outline of some stored region. */
  predicate OnSomeOutline(regions: seq<Region>, r: int, c: int, width: int, height: int) {
    exists i :: 0 <= i < |regions| && OnOutline(r, c, regions[i].row, regions[i].col, width, height)
  }

  /** Stored regions in raster order, none holding a corner of a later one. */
  ghost predicate Deduplicated(regions: seq<Region>, width: int, height: int) {
    forall i, j :: 0 <= i < j < |regions| ==>
      Precedes(regions[i], regions[j].row, regions[j].col) &&
      !CornerIn(regions[j].row, regions[j].col, width, height, regions[i])
  }

  /** Window (r, c) is stored, or has a corner in a region stored before it. */
  predicate Covered(regions: seq<Region>, r: int, c: int, width: int, height: int) {
    Region(r, c) in regions ||
    exists i :: 0 <= i < |regions| && Precedes(regions[i], r, c) && CornerIn(r, c, width, height, regions[i])
  }

  /** The origins of all in-range windows that are potential matches. */
  ghost function AcceptedOrigins(img: Image, mask: Image, matchPercent: int, tolerance: int)
    : set<Region>
    requires Searchable(img, mask)
  {
    set r, c | 0 <= r <= img.height - mask.height && 0 <= c <= img.width - mask.width
                 && Accepted(img, mask, r, c, matchPercent, tolerance) :: Region(r, c)
  }

  /** An origin belongs to the set exactly when it is in range and a potential match. */
  lemma AcceptedOriginsMembers(img: Image, mask: Image, matchPercent: int, tolerance: int)
    requires Searchable(img, mask)
    ensures forall row, col :: Region(row, col) in AcceptedOrigins(img, mask, matchPercent, tolerance) <==>
            InScanRange(img, mask, row, col) && Accepted(img, mask, row, col, matchPercent, tolerance)
  {
  }

  /** What the scan has established once every window before (row, col) is done,
      given the set `accepted` of potential-match origins. */
  ghost predicate ScanSoFar(accepted: set<Region>, regions: seq<Region>, row: int, col: int,
                            width: int, height: int)
  {
    && (forall i :: 0 <= i < |regions| ==> regions[i] in accepted && Precedes(regions[i], row, col))
    && Deduplicated(regions, width, height)
    && (forall x :: x in accepted && Precedes(x, row, col) ==> Covered(regions, x.row, x.col, width, height))
  }

  /** The result of the whole scan: every stored region is the origin of an in-range
      potential match, the list is in raster order and free of corner hits, and every
      potential match is stored or has a corner in an earlier stored region. */
  ghost predicate ScanResult(img: Image, mask: Image, regions: seq<Region>,
                             matchPercent: int, tolerance: int)
    requires Searchable(img, mask)
  {
    var accepted := AcceptedOrigins(img, mask, matchPercent, tolerance);
    && (forall i :: 0 <= i < |regions| ==> regions[i] in accepted)
    && Deduplicated(regions, mask.width, mask.height)
    && (forall x :: x in accepted ==> Covered(regions, x.row, x.col, mask.width, mask.height))
  }

  /** The output image: the main image with a red outline around every stored region. */
  ghost predicate Outlined(res: array2<Pixel>, img: Image, regions: seq<Region>,
                           width: int, height: int)
    requires WellFormed(img) && res.Length0 == img.height && res.Length1 == img.width
    reads res
  {
    forall r, c :: 0 <= r < res.Length0 && 0 <= c < res.Length1 ==>
      res[r, c] == if OnSomeOutline(regions, r, c, width, height) then SetRed(GetPixel(img, r, c)) else GetPixel(img, r, c)
  }

  lemma OnSomeOutlineAppend(regions: seq<Region>, x: Region, r: int, c: int, width: int, height: int)
    ensures OnSomeOutline(regions + [x], r, c, width, height) <==>
            OnSomeOutline(regions, r, c, width, height) || OnOutline(r, c, x.row, x.col, width, height)
  {
    var s := regions + [x];
    assert s[|regions|] == x;
    if OnSomeOutline(regions, r, c, width, height) {
      var i :| 0 <= i < |regions| && OnOutline(r, c, regions[i].row, regions[i].col, width, height);
      assert s[i] == regions[i];
    }
  }

  /** The preconditions the scan keeps throughout: the images can be searched, the
      accumulators of one window fit in an `int`, and `res` is a buffer of the main
      image's size. */
  predicate ScanSetting(img: Image, mask: Image, matchPercent: int, res: array2<Pixel>) {
    && Searchable(img, mask)
    && mask.height * mask.width <= MaxMaskArea
    && res.Length0 == img.height && res.Length1 == img.width
  }

  /** One iteration of the inner scan loop: scores the window at (row, col) and, when it
      is a potential match, hands it to processPotentialRegion. */
  method ScanWindow(searchImg: Image, subImg: Image, matchPercent: int, tolerance: int,
                    resImg: array2<Pixel>, row: int, col: int, regs: seq<Region>,
                    ghost accepted: set<Region>)
    returns (regs': seq<Region>)
    requires ScanSetting(searchImg, subImg, matchPercent, resImg)
    requires accepted == AcceptedOrigins(searchImg, subImg, matchPercent, tolerance)
    requires InScanRange(searchImg, subImg, row, col)
    requires ScanSoFar(accepted, regs, row, col, subImg.width, subImg.height)
    requires Outlined(resImg, searchImg, regs, subImg.width, subImg.height)
    modifies resImg
    ensures ScanSoFar(accepted, regs', row, col + 1, subImg.width, subImg.height)
    ensures Outlined(resImg, searchImg, regs', subImg.width, subImg.height)
  {
    var subWidth, subHeight := subImg.width, subImg.height;
    var avgPixel := ComputeBackgroundPixel(searchImg, subImg, row, col, subHeight, subWidth);
    var netMatch := CalcNetMatch(searchImg, subImg, row, col, subHeight, subWidth, avgPixel, tolerance);
    AcceptedOriginsMembers(searchImg, subImg, matchPercent, tolerance);
    regs' := regs;
    if 100 * netMatch > subHeight * subWidth * matchPercent {
      regs' := ProcessPotentialRegion(resImg, row, col, subWidth, subHeight, regs);
      if Overlapped(regs, row, col, subWidth, subHeight) {
        SkipWindow(accepted, regs, row, col, subWidth, subHeight);
      } else {
        forall r, c | 0 <= r < resImg.Length0 && 0 <= c < resImg.Length1
          ensures OnSomeOutline(regs', r, c, subWidth, subHeight) <==>
                  OnSomeOutline(regs, r, c, subWidth, subHeight) ||
                  OnOutline(r, c, row, col, subWidth, subHeight)
        {
          OnSomeOutlineAppend(regs, Region(row, col), r, c, subWidth, subHeight);
        }
        ExtendScan(accepted, regs, row, col, subWidth, subHeight);
      }
    } else {
      SkipWindow(accepted, regs, row, col, subWidth, subHeight);
    }
  }

  /** One iteration of the outer scan loop: every window origin of row `row`, left to right. */
  method ScanRow(searchImg: Image, subImg: Image, matchPercent: int, tolerance: int,
                 resImg: array2<Pixel>, row: int, regs: seq<Region>, ghost accepted: set<Region>)
    returns (regs': seq<Region>)
    requires ScanSetting(searchImg, subImg, matchPercent, resImg)
    requires accepted == AcceptedOrigins(searchImg, subImg, matchPercent, tolerance)
    requires 0 <= row <= searchImg.height - subImg.height
    requires ScanSoFar(accepted, regs, row, 0, subImg.width, subImg.height)
    requires Outlined(resImg, searchImg, regs, subImg.width, subImg.height)
    modifies resImg
    ensures ScanSoFar(accepted, regs', row + 1, 0, subImg.width, subImg.height)
    ensures Outlined(resImg, searchImg, regs', subImg.width, subImg.height)
  {
    var width: int, subWidth: int := searchImg.width, subImg.width;
    regs' := regs;
    var col := 0;
    while col < width - subWidth + 1
      invariant 0 <= col && (col <= width - subWidth + 1 || col == 0)
      invariant ScanSoFar(accepted, regs', row, col, subImg.width, subImg.height)
      invariant Outlined(resImg, searchImg, regs', subImg.width, subImg.height)
    {
      regs' := ScanWindow(searchImg, subImg, matchPercent, tolerance, resImg, row, col, regs', accepted);
      col := col + 1;
    }
    AcceptedOriginsMembers(searchImg, subImg, matchPercent, tolerance);
    NextRow(accepted, regs', row, col, subImg.width, subImg.height);
  }

  /** imageSearch, from the loaded images on: copies the main image, scans every window
      origin in raster order, and hands each potential match to processPotentialRegion.
      A mask without any opaque-black pixel yields no regions (see README, Findings). */
  method ImageSearch(searchImg: Image, subImg: Image, matchPercent: int, tolerance: int)
    returns (regs: seq<Region>, resImg: array2<Pixel>)
    requires WellFormed(searchImg) && WellFormed(subImg)
    requires subImg.height * subImg.width <= MaxMaskArea
    requires InInt32(subImg.height * subImg.width * matchPercent)
    ensures fresh(resImg)
    ensures resImg.Length0 == searchImg.height && resImg.Length1 == searchImg.width
    ensures BlackCount(subImg, subImg.height, subImg.width) == 0 ==> regs == []
    ensures BlackCount(subImg, subImg.height, subImg.width) > 0 ==>
              ScanResult(searchImg, subImg, regs, matchPercent, tolerance)
    ensures Outlined(resImg, searchImg, regs, subImg.width, subImg.height)
  {
    var height, width := searchImg.height, searchImg.width;
    resImg := new Pixel[height, width]((r, c) requires 0 <= r < height && 0 <= c < width =>
                                         GetPixel(searchImg, r, c));
    regs := [];
    if BlackCount(subImg, subImg.height, subImg.width) == 0 {
      return;
    }
    ghost var accepted := AcceptedOrigins(searchImg, subImg, matchPercent, tolerance);
    var row := 0;
    while row < height - subImg.height + 1
      invariant 0 <= row && (row <= height - subImg.height + 1 || row == 0)
      invariant ScanSoFar(accepted, regs, row, 0, subImg.width, subImg.height)
      invariant Outlined(resImg, searchImg, regs, subImg.width, subImg.height)
    {
      regs := ScanRow(searchImg, subImg, matchPercent, tolerance, resImg, row, regs, accepted);
      row := row + 1;
    }
    AcceptedOriginsMembers(searchImg, subImg, matchPercent, tolerance);
  }

  /** Passing over a window that is no potential match, or that a stored region
      already holds a corner of, keeps the scan's invariant one window further on. */
  lemma SkipWindow(accepted: set<Region>, regions: seq<Region>, row: int, col: int, width: int, height: int)
    requires ScanSoFar(accepted, regions, row, col, width, height)
    requires Region(row, col) in accepted ==> Overlapped(regions, row, col, width, height)
    ensures ScanSoFar(accepted, regions, row, col + 1, width, height)
  {
  }

  /** Finishing a row moves the scan to the start of the next one. */
  lemma NextRow(accepted: set<Region>, regions: seq<Region>, row: int, col: int, width: int, height: int)
    requires forall x :: x in accepted ==> 0 <= x.col < col
    requires ScanSoFar(accepted, regions, row, col, width, height)
    ensures ScanSoFar(accepted, regions, row + 1, 0, width, height)
  {
  }

  /** Appending a potential match that no stored region holds a corner of keeps the
      scan's invariant, one window further on. */
  lemma ExtendScan(accepted: set<Region>, regions: seq<Region>, row: int, col: int, width: int, height: int)
    requires ScanSoFar(accepted, regions, row, col, width, height)
    requires Region(row, col) in accepted
    requires !Overlapped(regions, row, col, width, height)
    ensures ScanSoFar(accepted, regions + [Region(row, col)], row, col + 1, width, height)
  {
    var s := regions + [Region(row, col)];
    assert s[|regions|] == Region(row, col);
    assert forall i :: 0 <= i < |regions| ==> s[i] == regions[i];
  }

  /** What the scan's result promises in the source's own terms: every stored origin
      lies in the scan range and is a potential match, the origins are in strictly
      increasing (row, col) order, and no stored region holds a corner of a later one. */
  lemma ScanResultStoredRegions(img: Image, mask: Image, regions: seq<Region>,
                                matchPercent: int, tolerance: int)
    requires Searchable(img, mask)
    requires ScanResult(img, mask, regions, matchPercent, tolerance)
    ensures forall i :: 0 <= i < |regions| ==>
              InScanRange(img, mask, regions[i].row, regions[i].col) &&
              Accepted(img, mask, regions[i].row, regions[i].col, matchPercent, tolerance)
    ensures forall i, j :: 0 <= i < j < |regions| ==> Precedes(regions[i], regions[j].row, regions[j].col)
  {
    AcceptedOriginsMembers(img, mask, matchPercent, tolerance);
  }

  /** A mask taller or wider than the main image leaves no window origin, so nothing is stored. */
  lemma OversizedMaskNoMatches(img: Image, mask: Image, regions: seq<Region>,
                               matchPercent: int, tolerance: int)
    requires Searchable(img, mask)
    requires ScanResult(img, mask, regions, matchPercent, tolerance)
    requires mask.height > img.height || mask.width > img.width
    ensures AcceptedOrigins(img, mask, matchPercent, tolerance) == {}
    ensures forall x :: x !in regions
  {
    AcceptedOriginsMembers(img, mask, matchPercent, tolerance);
  }

  /** A potential match that is not stored has a corner in a region stored before it. */
  lemma ScanResultDropped(img: Image, mask: Image, regions: seq<Region>,
                          matchPercent: int, tolerance: int, row: int, col: int)
    requires Searchable(img, mask)
    requires ScanResult(img, mask, regions, matchPercent, tolerance)
    requires InScanRange(img, mask, row, col) && Accepted(img, mask, row, col, matchPercent, tolerance)
    requires Region(row, col) !in regions
    ensures exists i :: 0 <= i < |regions| && Precedes(regions[i], row, col) &&
                        CornerIn(row, col, mask.width, mask.height, regions[i])
  {
    AcceptedOriginsMembers(img, mask, matchPercent, tolerance);
  }

  /** Pixel (r, c) is one of the pixels a window of the given size at `region` covers. */
  predicate Footprint(region: Region, r: int, c: int, width: int, height: int) {
    region.row <= r < region.row + height && region.col <= c < region.col + width
  }

  /** The corner test keeps the pixel footprints of stored regions pairwise disjoint. */
  lemma DeduplicatedFootprintsDisjoint(regions: seq<Region>, width: int, height: int,
                                       i: int, j: int, r: int, c: int)
    requires width >= 1 && height >= 1
    requires Deduplicated(regions, width, height)
    requires 0 <= i < j < |regions|
    ensures !(Footprint(regions[i], r, c, width, height) && Footprint(regions[j], r, c, width, height))
  {
    CornerInBounds(regions[j].row, regions[j].col, width, height, regions[i]);
  }

  /** The corner test is not MatchedRect's intersects: with a 2 x 2 mask the scan may
      keep origins (0, 2) and (1, 0), whose reported rectangles intersect. */
  lemma DeduplicatedAdmitsIntersectingRects()
    ensures Deduplicated([Region(0, 2), Region(1, 0)], 2, 2)
    ensures MatchedRects.Intersects(MatchedRects.At(0, 2, 2, 2), MatchedRects.At(1, 0, 2, 2))
  {
    CornerInBounds(1, 0, 2, 2, Region(0, 2));
  }

  /** printResult's line for a stored region: (row, col, row + height, col + width). */
  function Reported(regions: seq<Region>, width: int, height: int): (rects: seq<MatchedRects.MatchedRect>)
    ensures |rects| == |regions|
    ensures forall i :: 0 <= i < |regions| ==>
              rects[i].row1 == regions[i].row && rects[i].col1 == regions[i].col &&
              rects[i].row2 == regions[i].row + height && rects[i].col2 == regions[i].col + width
  {
    if |regions| == 0 then []
    else Reported(regions[..|regions| - 1], width, height)
         + [MatchedRects.At(regions[|regions| - 1].row, regions[|regions| - 1].col, width, height)]
  }

  /** The report comes out already sorted by MatchedRect's operator<, strictly. */
  lemma ReportedSorted(regions: seq<Region>, width: int, height: int)
    requires Deduplicated(regions, width, height)
    ensures forall i, j :: 0 <= i < j < |regions| ==>
              MatchedRects.Less(Reported(regions, width, height)[i], Reported(regions, width, height)[j])
  {
  }
}

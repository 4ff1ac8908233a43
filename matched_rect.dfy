/** The rectangle value type of matched regions, and the list that searches it. */
module MatchedRects {

  /** A region by its two corners; the source keeps row1 <= row2 and col1 <= col2. */
  datatype MatchedRect = MatchedRect(row1: int, col1: int, row2: int, col2: int)

  predicate WellFormed(r: MatchedRect) {
    r.row1 <= r.row2 && r.col1 <= r.col2
  }

  /** The default constructor: the empty rectangle at the origin. */
  function Empty(): (r: MatchedRect)
    ensures r.row1 == 0 && r.col1 == 0 && r.row2 == 0 && r.col2 == 0
  {
    MatchedRect(0, 0, 0, 0)
  }

  /** The convenience constructor: the rectangle of the given width and height whose
      top-left corner is (row, col). */
  function At(row: int, col: int, width: int, height: int): (r: MatchedRect)
    ensures r.row1 == row && r.col1 == col
    ensures r.row2 - r.row1 == height && r.col2 - r.col1 == width
    ensures WellFormed(r) <==> width >= 0 && height >= 0
  {
    MatchedRect(row, col, row + height, col + width)
  }

  /** intersects: neither rectangle lies wholly above, below, left or right of the other. */
  predicate Intersects(self: MatchedRect, other: MatchedRect) {
    !((self.row1 > other.row2) || (self.row2 < other.row1) ||
      (self.col1 > other.col2) || (self.col2 < other.col1))
  }

  /** operator(): the rectangle used as a predicate on other rectangles. */
  predicate Call(self: MatchedRect, other: MatchedRect) {
    Intersects(self, other)
  }

  /** operator<: top-most first, then left-most; the far corner takes no part. */
  predicate Less(self: MatchedRect, other: MatchedRect) {
    if self.row1 == other.row1 then self.col1 < other.col1 else self.row1 < other.row1
  }

  /** The point (r, c) lies in the closed rectangle. */
  predicate Contains(rect: MatchedRect, r: int, c: int) {
    rect.row1 <= r <= rect.row2 && rect.col1 <= c <= rect.col2
  }

  /** For well-formed rectangles, intersects is exactly "the closed rectangles share a point". */
  lemma IntersectsIffCommonPoint(a: MatchedRect, b: MatchedRect)
    requires WellFormed(a) && WellFormed(b)
    ensures Intersects(a, b) <==> exists r, c :: Contains(a, r, c) && Contains(b, r, c)
  {
    if Intersects(a, b) {
      var r := if a.row1 < b.row1 then b.row1 else a.row1;
      var c := if a.col1 < b.col1 then b.col1 else a.col1;
      assert Contains(a, r, c) && Contains(b, r, c);
    }
  }

  lemma IntersectsSymmetric(a: MatchedRect, b: MatchedRect)
    ensures Intersects(a, b) == Intersects(b, a)
  {
  }

  lemma IntersectsReflexive(a: MatchedRect)
    requires WellFormed(a)
    ensures Intersects(a, a)
  {
  }

  /** Closed intervals: two rectangles that only share an edge, one right below the
      other or one right beside the other, intersect. */
  lemma TouchingRectsIntersect(a: MatchedRect, b: MatchedRect)
    requires WellFormed(a) && WellFormed(b)
    requires (a.row2 == b.row1 && a.col1 <= b.col2 && b.col1 <= a.col2) ||
             (a.col2 == b.col1 && a.row1 <= b.row2 && b.row1 <= a.row2)
    ensures Intersects(a, b)
  {
  }

  /** operator() answers exactly what intersects answers. */
  lemma CallIsIntersects(self: MatchedRect, other: MatchedRect)
    ensures Call(self, other) <==> Intersects(self, other)
  {
  }

  lemma LessIrreflexive(a: MatchedRect)
    ensures !Less(a, a)
  {
  }

  lemma LessTransitive(a: MatchedRect, b: MatchedRect, c: MatchedRect)
    requires Less(a, b) && Less(b, c)
    ensures Less(a, c)
  {
  }

  /** Exactly one of a < b, b < a, or "same top-left corner" holds. */
  lemma LessTrichotomous(a: MatchedRect, b: MatchedRect)
    ensures Less(a, b) || Less(b, a) || (a.row1 == b.row1 && a.col1 == b.col1)
    ensures !(Less(a, b) && Less(b, a))
    ensures Less(a, b) ==> !(a.row1 == b.row1 && a.col1 == b.col1)
  {
  }

  /** The order compares top-left corners only. */
  lemma LessIgnoresFarCorner(a: MatchedRect, b: MatchedRect, row2: int, col2: int)
    ensures Less(a, b) == Less(a.(row2 := row2, col2 := col2), b)
    ensures Less(a, b) == Less(a, b.(row2 := row2, col2 := col2))
  {
  }

  /** std::find_if with `other` as the functor: the index of the first element that
      `other` intersects, or the length of the list when there is none. */
  function FindIf(list: seq<MatchedRect>, other: MatchedRect): (k: nat)
    ensures k <= |list|
    ensures k < |list| ==> Call(other, list[k])
    ensures forall j :: 0 <= j < k ==> !Call(other, list[j])
  {
    if |list| == 0 then 0
    else if Call(other, list[0]) then 0
    else 1 + FindIf(list[1..], other)
  }

  /** MatchedRectList::isMatched: some rectangle of the list intersects `other`. */
  function IsMatched(list: seq<MatchedRect>, other: MatchedRect): (r: bool)
    ensures r <==> exists i :: 0 <= i < |list| && Intersects(other, list[i])
  {
    FindIf(list, other) != |list|
  }

  /** Appending a rectangle adds exactly its own intersection to the answer. */
  lemma IsMatchedAppend(list: seq<MatchedRect>, x: MatchedRect, other: MatchedRect)
    ensures IsMatched(list + [x], other) <==> IsMatched(list, other) || Intersects(other, x)
  {
    assert (list + [x])[|list|] == x;
    if IsMatched(list, other) {
      var i :| 0 <= i < |list| && Intersects(other, list[i]);
      assert (list + [x])[i] == list[i];
    }
  }
}

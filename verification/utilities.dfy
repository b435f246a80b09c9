/**
  Pure geometry on axis-aligned rectangles: the overlap test and overlap
  fraction that rank candidate drop zones, the midpoint of a box, and the
  removal of an element's inline padding from its bounding box.
 */
module Utilities {
  import opened Numbers
  import opened Stores

  /** A point, or an offset between two points. */
  datatype Position = Position(x: real, y: real)

  /** The fraction of the first rectangle's width and height covered by the intersection. */
  datatype OverlapFraction = OverlapFraction(overlapX: Number, overlapY: Number)

  /** The four inline padding style strings of an element, e.g. `"12px"` or `""`. */
  datatype InlinePadding = InlinePadding(paddingTop: string, paddingLeft: string, paddingRight: string, paddingBottom: string)

  /** A rectangle whose width and height are not negative. */
  predicate Sized(r: Rect)
  {
    r.width >= 0.0 && r.height >= 0.0
  }

  /** The closed rectangle `r` contains the point `p`. */
  predicate Contains(r: Rect, p: Position)
  {
    r.x <= p.x <= r.x + r.width && r.y <= p.y <= r.y + r.height
  }

  /** `r` moved by the offset `d`. */
  function Translate(r: Rect, d: Position): Rect
  {
    Rect(r.x + d.x, r.y + d.y, r.width, r.height)
  }

  /** The closed intervals [lo1, hi1] and [lo2, hi2] share a point, when neither is reversed. */
  predicate ClosedExtentsMeet(lo1: real, hi1: real, lo2: real, hi2: real)
  {
    lo1 <= hi2 && lo2 <= hi1
  }

  /**
    Whether two rectangles intersect. They are apart only when one lies
    strictly to the left of or strictly above the other, so rectangles whose
    edges exactly meet do overlap.
   */
  function Overlap(rect1: Rect, rect2: Rect): (r: bool)
    ensures r <==> (ClosedExtentsMeet(rect1.x, rect1.x + rect1.width, rect2.x, rect2.x + rect2.width) &&
                    ClosedExtentsMeet(rect1.y, rect1.y + rect1.height, rect2.y, rect2.y + rect2.height))
    ensures (rect1.width >= 0.0 && rect2.width >= 0.0 && rect1.x + rect1.width == rect2.x &&
             ClosedExtentsMeet(rect1.y, rect1.y + rect1.height, rect2.y, rect2.y + rect2.height)) ==> r
  {
    !(rect1.x + rect1.width < rect2.x ||
      rect1.y + rect1.height < rect2.y ||
      rect2.x + rect2.width < rect1.x ||
      rect2.y + rect2.height < rect1.y)
  }

  /** For sized rectangles, `Overlap` holds exactly when some point lies in both closed boxes. */
  lemma OverlapIffCommonPoint(a: Rect, b: Rect)
    requires Sized(a) && Sized(b)
    ensures Overlap(a, b) <==> exists p :: Contains(a, p) && Contains(b, p)
  {
    if Overlap(a, b) {
      var p := Position(Max(a.x, b.x), Max(a.y, b.y));
      assert Contains(a, p) && Contains(b, p);
    }
  }

  /** The overlap test does not depend on the order of its arguments. */
  lemma OverlapSymmetric(a: Rect, b: Rect)
    ensures Overlap(a, b) <==> Overlap(b, a)
  {
  }

  /** Every sized rectangle overlaps itself. */
  lemma OverlapReflexive(a: Rect)
    requires Sized(a)
    ensures Overlap(a, a)
  {
  }

  /** Rectangles that touch along a vertical edge, with intersecting vertical extents, overlap. */
  lemma TouchingEdgesOverlap(a: Rect, b: Rect)
    requires Sized(a) && Sized(b)
    requires a.x + a.width == b.x
    requires a.y <= b.y + b.height && b.y <= a.y + a.height
    ensures Overlap(a, b) && Overlap(b, a)
  {
  }

  /** A rectangle strictly to the left of or strictly above another does not overlap it. */
  lemma SeparatedDoNotOverlap(a: Rect, b: Rect)
    requires a.x + a.width < b.x || a.y + a.height < b.y
    ensures !Overlap(a, b) && !Overlap(b, a)
  {
  }

  /** Moving both rectangles by the same offset does not change whether they overlap. */
  lemma OverlapTranslationInvariant(a: Rect, b: Rect, d: Position)
    ensures Overlap(Translate(a, d), Translate(b, d)) <==> Overlap(a, b)
  {
  }

  /**
    The length of the intersection of `rect1` and `rect2` along each axis,
    clamped at 0, as a fraction of `rect1`'s width and height. A zero width or
    height leaves an intersection of length 0 on that axis, so the division is
    0 / 0 and gives NaN; a negative one gives 0.
   */
  function PercentOverlap(rect1: Rect, rect2: Rect): (r: OverlapFraction)
    ensures rect1.width > 0.0 ==> r.overlapX.Finite? && 0.0 <= r.overlapX.value <= 1.0
    ensures rect1.height > 0.0 ==> r.overlapY.Finite? && 0.0 <= r.overlapY.value <= 1.0
    ensures rect1.width == 0.0 ==> r.overlapX == NaN
    ensures rect1.height == 0.0 ==> r.overlapY == NaN
    ensures rect1.width < 0.0 ==> r.overlapX == Finite(0.0)
    ensures rect1.height < 0.0 ==> r.overlapY == Finite(0.0)
  {
    var maxX := Min(rect1.width + rect1.x, rect2.width + rect2.x);
    var minX := Max(rect1.x, rect2.x);
    var maxY := Min(rect1.height + rect1.y, rect2.height + rect2.y);
    var minY := Max(rect1.y, rect2.y);
    var r := OverlapFraction(Divide(Max(maxX - minX, 0.0), rect1.width), Divide(Max(maxY - minY, 0.0), rect1.height));
    assert rect1.width > 0.0 ==> 0.0 <= r.overlapX.value <= 1.0 by {
      if rect1.width > 0.0 { DivideUnitInterval(Max(maxX - minX, 0.0), rect1.width); }
    }
    assert rect1.height > 0.0 ==> 0.0 <= r.overlapY.value <= 1.0 by {
      if rect1.height > 0.0 { DivideUnitInterval(Max(maxY - minY, 0.0), rect1.height); }
    }
    r
  }

  /** A sized rectangle with positive extent is wholly covered by itself. */
  lemma PercentOverlapSelf(a: Rect)
    requires a.width > 0.0 && a.height > 0.0
    ensures PercentOverlap(a, a) == OverlapFraction(Finite(1.0), Finite(1.0))
  {
    assert Min(a.width + a.x, a.width + a.x) - Max(a.x, a.x) == a.width;
    assert Min(a.height + a.y, a.height + a.y) - Max(a.y, a.y) == a.height;
    DivideUnitInterval(a.width, a.width);
    DivideUnitInterval(a.height, a.height);
  }

  /**
    For a positive width, the horizontal fraction is 1 exactly when `rect2`
    spans `rect1`'s whole horizontal extent, and likewise vertically.
   */
  lemma PercentOverlapFullIffCovered(rect1: Rect, rect2: Rect)
    requires rect1.width > 0.0 && rect1.height > 0.0
    ensures PercentOverlap(rect1, rect2).overlapX == Finite(1.0)
        <==> rect2.x <= rect1.x && rect1.x + rect1.width <= rect2.x + rect2.width
    ensures PercentOverlap(rect1, rect2).overlapY == Finite(1.0)
        <==> rect2.y <= rect1.y && rect1.y + rect1.height <= rect2.y + rect2.height
  {
    DivideUnitInterval(Max(Min(rect1.width + rect1.x, rect2.width + rect2.x) - Max(rect1.x, rect2.x), 0.0), rect1.width);
    DivideUnitInterval(Max(Min(rect1.height + rect1.y, rect2.height + rect2.y) - Max(rect1.y, rect2.y), 0.0), rect1.height);
  }

  /**
    For positive extents, a non-zero fraction on both axes implies the
    rectangles overlap; equivalently, rectangles that do not overlap score 0 on
    at least one axis.
   */
  lemma PercentOverlapPositiveImpliesOverlap(rect1: Rect, rect2: Rect)
    requires rect1.width > 0.0 && rect1.height > 0.0
    ensures !Overlap(rect1, rect2) ==>
      PercentOverlap(rect1, rect2).overlapX == Finite(0.0) || PercentOverlap(rect1, rect2).overlapY == Finite(0.0)
    ensures PercentOverlap(rect1, rect2).overlapX.value > 0.0 && PercentOverlap(rect1, rect2).overlapY.value > 0.0 ==>
      Overlap(rect1, rect2)
  {
    DivideUnitInterval(Max(Min(rect1.width + rect1.x, rect2.width + rect2.x) - Max(rect1.x, rect2.x), 0.0), rect1.width);
    DivideUnitInterval(Max(Min(rect1.height + rect1.y, rect2.height + rect2.y) - Max(rect1.y, rect2.y), 0.0), rect1.height);
  }

  /**
    For rectangles of positive width, the horizontal fraction is 0 exactly
    when one lies at or beyond the other's horizontal edge; likewise vertically
    for positive heights.
   */
  lemma PercentOverlapZeroIffApartOnAxis(rect1: Rect, rect2: Rect)
    requires rect1.width > 0.0 && rect2.width > 0.0
    requires rect1.height > 0.0 && rect2.height > 0.0
    ensures PercentOverlap(rect1, rect2).overlapX == Finite(0.0)
        <==> rect1.x + rect1.width <= rect2.x || rect2.x + rect2.width <= rect1.x
    ensures PercentOverlap(rect1, rect2).overlapY == Finite(0.0)
        <==> rect1.y + rect1.height <= rect2.y || rect2.y + rect2.height <= rect1.y
  {
    DivideUnitInterval(Max(Min(rect1.width + rect1.x, rect2.width + rect2.x) - Max(rect1.x, rect2.x), 0.0), rect1.width);
    DivideUnitInterval(Max(Min(rect1.height + rect1.y, rect2.height + rect2.y) - Max(rect1.y, rect2.y), 0.0), rect1.height);
  }

  /** Boxes that only touch along an edge overlap, yet the touching axis scores 0. */
  lemma TouchingEdgesScoreZero(a: Rect, b: Rect)
    requires a.width > 0.0 && a.height > 0.0 && Sized(b)
    requires a.x + a.width == b.x
    requires a.y <= b.y + b.height && b.y <= a.y + a.height
    ensures Overlap(a, b)
    ensures PercentOverlap(a, b).overlapX == Finite(0.0)
  {
  }

  /** The fraction is measured against the first rectangle only, so swapping the arguments can change it. */
  lemma PercentOverlapNotSymmetric()
    ensures PercentOverlap(Rect(0.0, 0.0, 1.0, 1.0), Rect(0.0, 0.0, 2.0, 2.0)) == OverlapFraction(Finite(1.0), Finite(1.0))
    ensures PercentOverlap(Rect(0.0, 0.0, 2.0, 2.0), Rect(0.0, 0.0, 1.0, 1.0)) == OverlapFraction(Finite(0.5), Finite(0.5))
  {
  }

  /** Moving both rectangles by the same offset does not change the fractions. */
  lemma PercentOverlapTranslationInvariant(a: Rect, b: Rect, d: Position)
    ensures PercentOverlap(Translate(a, d), Translate(b, d)) == PercentOverlap(a, b)
  {
    assert Min(a.width + (a.x + d.x), b.width + (b.x + d.x)) == Min(a.width + a.x, b.width + b.x) + d.x;
    assert Max(a.x + d.x, b.x + d.x) == Max(a.x, b.x) + d.x;
    assert Min(a.height + (a.y + d.y), b.height + (b.y + d.y)) == Min(a.height + a.y, b.height + b.y) + d.y;
    assert Max(a.y + d.y, b.y + d.y) == Max(a.y, b.y) + d.y;
  }

  /** The centre of a rectangle: equally far from its left and right edges, and from its top and bottom. */
  function ComputeMidpoint(rect: Rect): (m: Position)
    ensures m.x - rect.x == (rect.x + rect.width) - m.x
    ensures m.y - rect.y == (rect.y + rect.height) - m.y
    ensures Sized(rect) ==> Contains(rect, m)
  {
    Position(rect.width / 2.0 + rect.x, rect.height / 2.0 + rect.y)
  }

  /** The midpoint is the only point equally far from opposite edges on both axes. */
  lemma MidpointUnique(rect: Rect, p: Position)
    requires p.x - rect.x == (rect.x + rect.width) - p.x
    requires p.y - rect.y == (rect.y + rect.height) - p.y
    ensures p == ComputeMidpoint(rect)
  {
  }

  /** Translating a rectangle translates its midpoint by the same offset. */
  lemma MidpointTranslates(rect: Rect, d: Position)
    ensures ComputeMidpoint(Translate(rect, d)) == Position(ComputeMidpoint(rect).x + d.x, ComputeMidpoint(rect).y + d.y)
  {
  }

  /** An index clamped into [0, n], as `String.prototype.substring` treats its arguments. */
  function ClampIndex(i: int, n: nat): (c: nat)
    ensures c <= n
    ensures 0 <= i <= n ==> c == i
    ensures i < 0 ==> c == 0
    ensures i > n ==> c == n
  {
    if i < 0 then 0 else if i > n then n else i
  }

  /**
    `String.prototype.substring`: both indices are clamped into [0, |s|] and,
    if reversed, swapped, so the result is always a contiguous slice of `s`.
   */
  function Substring(s: string, start: int, end: int): (r: string)
    ensures 0 <= start <= end <= |s| ==> r == s[start..end]
    ensures end < 0 ==> r == s[..ClampIndex(start, |s|)]
    ensures exists a, b :: 0 <= a <= b <= |s| && r == s[a..b]
  {
    var a := ClampIndex(start, |s|);
    var b := ClampIndex(end, |s|);
    if a <= b then s[a..b] else s[b..a]
  }

  /**
    The number in a pixel string: the string less its last two characters
    (the unit), read by `parseFloat`; an empty string reads as 0. A one-character
    string is cut to the empty string, since a negative end index is clamped to 0.
   */
  function PixelStringToNumber(pixelString: string, parseFloat: string -> real): (n: real)
    ensures |pixelString| == 0 ==> n == 0.0
    ensures |pixelString| == 1 ==> n == parseFloat("")
    ensures |pixelString| >= 2 ==> n == parseFloat(pixelString[..|pixelString| - 2])
  {
    if |pixelString| > 0 then parseFloat(Substring(pixelString, 0, |pixelString| - 2)) else 0.0
  }

  /** A value written with a `px` suffix reads back as the value `parseFloat` gives its digits. */
  lemma PixelStringRoundTrip(digits: string, v: real, parseFloat: string -> real)
    requires parseFloat(digits) == v
    ensures PixelStringToNumber(digits + "px", parseFloat) == v
  {
  }

  /** Any two-character unit is dropped as if it were `px`; a one-character unit drops a digit too. */
  lemma OtherUnitsAreCutByTwo(parseFloat: string -> real)
    ensures PixelStringToNumber("12em", parseFloat) == parseFloat("12")
    ensures PixelStringToNumber("10%", parseFloat) == parseFloat("1")
  {
    assert "12em"[..2] == "12";
    assert "10%"[..1] == "1";
  }

  /**
    The content box of an element: `rect` moved right by the left padding and
    down by the top padding, with its right and bottom edges moved in by the
    right and bottom paddings.
   */
  function StripPadding(padding: InlinePadding, rect: Rect, parseFloat: string -> real): (r: Rect)
    ensures r.x == rect.x + PixelStringToNumber(padding.paddingLeft, parseFloat)
    ensures r.y == rect.y + PixelStringToNumber(padding.paddingTop, parseFloat)
    ensures r.x + r.width == rect.x + rect.width - PixelStringToNumber(padding.paddingRight, parseFloat)
    ensures r.y + r.height == rect.y + rect.height - PixelStringToNumber(padding.paddingBottom, parseFloat)
  {
    var top := PixelStringToNumber(padding.paddingTop, parseFloat);
    var left := PixelStringToNumber(padding.paddingLeft, parseFloat);
    var right := PixelStringToNumber(padding.paddingRight, parseFloat);
    var bottom := PixelStringToNumber(padding.paddingBottom, parseFloat);
    Rect(rect.x + left, rect.y + top, rect.width - (left + right), rect.height - (top + bottom))
  }

  /** With no inline padding set, stripping leaves the rectangle unchanged. */
  lemma StripEmptyPaddingIsIdentity(rect: Rect, parseFloat: string -> real)
    ensures StripPadding(InlinePadding("", "", "", ""), rect, parseFloat) == rect
  {
  }

  /** Non-negative padding that fits inside the rectangle yields a sized box inside it. */
  lemma StripPaddingStaysInside(padding: InlinePadding, rect: Rect, parseFloat: string -> real)
    requires PixelStringToNumber(padding.paddingTop, parseFloat) >= 0.0
    requires PixelStringToNumber(padding.paddingLeft, parseFloat) >= 0.0
    requires PixelStringToNumber(padding.paddingRight, parseFloat) >= 0.0
    requires PixelStringToNumber(padding.paddingBottom, parseFloat) >= 0.0
    requires PixelStringToNumber(padding.paddingLeft, parseFloat) + PixelStringToNumber(padding.paddingRight, parseFloat) <= rect.width
    requires PixelStringToNumber(padding.paddingTop, parseFloat) + PixelStringToNumber(padding.paddingBottom, parseFloat) <= rect.height
    ensures Sized(StripPadding(padding, rect, parseFloat))
    ensures forall p :: Contains(StripPadding(padding, rect, parseFloat), p) ==> Contains(rect, p)
  {
  }

  /** Stripping padding commutes with translation. */
  lemma StripPaddingCommutesWithTranslate(padding: InlinePadding, rect: Rect, d: Position, parseFloat: string -> real)
    ensures StripPadding(padding, Translate(rect, d), parseFloat) == Translate(StripPadding(padding, rect, parseFloat), d)
  {
  }

  /** Equal padding on opposite sides keeps the midpoint where it was. */
  lemma StripBalancedPaddingKeepsMidpoint(padding: InlinePadding, rect: Rect, parseFloat: string -> real)
    requires PixelStringToNumber(padding.paddingLeft, parseFloat) == PixelStringToNumber(padding.paddingRight, parseFloat)
    requires PixelStringToNumber(padding.paddingTop, parseFloat) == PixelStringToNumber(padding.paddingBottom, parseFloat)
    ensures ComputeMidpoint(StripPadding(padding, rect, parseFloat)) == ComputeMidpoint(rect)
  {
  }

  /** Swapping the two indices of `substring` does not change the result. */
  lemma SubstringSwapsReversedIndices(s: string, start: int, end: int)
    ensures Substring(s, start, end) == Substring(s, end, start)
  {
  }
}

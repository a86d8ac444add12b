/** The mask-rectangle arithmetic of censor.py: one bounding rectangle of a
    matched CPF is split into character cells of uniform width, and two masks
    are carved from it, one over the first three cells and one over the last
    two. Coordinates are exact reals; floating-point rounding is not modelled. */
module MaskRegion {
  import opened Wrappers

  /** A PDF rectangle by its corners, as `fitz.Rect(x0, y0, x1, y1)`. */
  datatype Rect = Rect(x0: real, y0: real, x1: real, y1: real)

  /** `Rect.width` of the document library: x1 - x0, never negative. */
  function Width(r: Rect): (w: real)
    ensures w >= 0.0
    ensures r.x0 <= r.x1 ==> w == r.x1 - r.x0
  {
    if r.x1 - r.x0 > 0.0 then r.x1 - r.x0 else 0.0
  }

  /** `char_width`: the width of one character when n characters share r evenly. */
  function CharWidth(r: Rect, n: nat): (c: real)
    requires n > 0
    ensures c >= 0.0
  {
    Width(r) / (n as real)
  }

  /** `rect.x0 + k * char_width`: where character k begins when n characters
      share r evenly. Character 0 begins at the left edge and, on a rectangle
      that is not inverted, "character n" at the right edge. */
  function Offset(r: Rect, n: nat, k: int): (x: real)
    requires n > 0
    ensures k == 0 ==> x == r.x0
    ensures k == n && r.x0 <= r.x1 ==> x == r.x1
  {
    CharWidthTimesCount(r, n);
    r.x0 + (k as real) * CharWidth(r, n)
  }

  /** `left_rect`: from the left edge of r, three character widths wide. */
  function LeftMask(r: Rect, n: nat): (m: Rect)
    requires n > 0
    ensures m.x0 == r.x0 && m.y0 == r.y0 && m.y1 == r.y1
    ensures m.x0 <= m.x1
  {
    OffsetOrder(r, n, 0, 3);
    Rect(r.x0, r.y0, Offset(r, n, 3), r.y1)
  }

  /** `right_rect`: from the start of character n - 2 to the right edge of r. */
  function RightMask(r: Rect, n: nat): (m: Rect)
    requires n > 0
    ensures m.x1 == r.x1 && m.y0 == r.y0 && m.y1 == r.y1
    ensures 2 <= n && r.x0 <= r.x1 ==> r.x0 <= m.x0 <= m.x1
  {
    OffsetOrder(r, n, 0, n - 2);
    OffsetOrder(r, n, n - 2, n);
    Rect(Offset(r, n, n - 2), r.y0, r.x1, r.y1)
  }

  /** The two masks for a rectangle holding n characters, or None when the
      `total_chars < 5` guard skips the rectangle. */
  function Masks(r: Rect, n: nat): (m: Option<(Rect, Rect)>)
    ensures m.Some? <==> 5 <= n
    ensures m.Some? ==> m.value.0 == LeftMask(r, n) && m.value.1 == RightMask(r, n)
    ensures m.Some? && r.x0 <= r.x1 ==>
              Contains(r, m.value.0) && Contains(r, m.value.1) && m.value.0.x1 <= m.value.1.x0
  {
    if n < 5 then None
    else
      assert r.x0 <= r.x1 ==>
          Contains(r, LeftMask(r, n)) && Contains(r, RightMask(r, n)) && LeftMask(r, n).x1 <= RightMask(r, n).x0 by {
        if r.x0 <= r.x1 { MasksInsideAndApart(r, n); }
      }
      Some((LeftMask(r, n), RightMask(r, n)))
  }

  /** The cell of character k (counting from 0) under the uniform-width assumption. */
  function Cell(r: Rect, n: nat, k: nat): (c: Rect)
    requires n > 0
    ensures c.y0 == r.y0 && c.y1 == r.y1
    ensures k < n && r.x0 <= r.x1 ==> Contains(r, c)
  {
    OffsetOrder(r, n, 0, k);
    OffsetOrder(r, n, k, k + 1);
    OffsetOrder(r, n, k + 1, n);
    Rect(Offset(r, n, k), r.y0, Offset(r, n, k + 1), r.y1)
  }

  /** a lies within r and is not inverted. */
  predicate Contains(r: Rect, a: Rect) {
    r.x0 <= a.x0 <= a.x1 <= r.x1 && r.y0 <= a.y0 && a.y1 <= r.y1
  }

  /** The horizontal extents of a and b share more than a point. */
  predicate OverlapsX(a: Rect, b: Rect) {
    a.x0 < b.x1 && b.x0 < a.x1
  }

  // ---------------------------------------------------------------------------
  // Arithmetic helpers: all the products of the model are taken here, so the
  // properties below compare offsets only.
  // ---------------------------------------------------------------------------

  lemma CharWidthTimesCount(r: Rect, n: nat)
    requires n > 0
    ensures (n as real) * CharWidth(r, n) == Width(r)
  {
  }

  /** p = x0 + a * c lies at or before q = x0 + b * c when a <= b and c >= 0. */
  lemma ScaleNonNeg(p: real, q: real, x0: real, a: real, b: real, c: real)
    requires p == x0 + a * c && q == x0 + b * c
    requires c >= 0.0 && a <= b
    ensures p <= q
  {
    assert q - p == (b - a) * c;
    assert (b - a) * c >= 0.0;
  }

  /** p = x0 + a * c lies strictly before q = x0 + b * c when a < b and c > 0. */
  lemma ScaleStrict(p: real, q: real, x0: real, a: real, b: real, c: real)
    requires p == x0 + a * c && q == x0 + b * c
    requires c > 0.0 && a < b
    ensures p < q
  {
    assert q - p == (b - a) * c;
    assert (b - a) * c > 0.0;
  }

  lemma ScaleDiff(a: real, b: real, d: real, c: real)
    requires d == b - a
    ensures b * c - a * c == d * c
  {
  }

  /** A rectangle of positive width gives a positive character width. */
  lemma CharWidthPositive(r: Rect, n: nat)
    requires n > 0 && r.x0 < r.x1
    ensures CharWidth(r, n) > 0.0
  {
    assert Width(r) > 0.0;
  }

  /** Later characters never begin before earlier ones. */
  lemma OffsetMono(r: Rect, n: nat, i: int, j: int)
    requires n > 0 && i <= j
    ensures Offset(r, n, i) <= Offset(r, n, j)
  {
    ScaleNonNeg(Offset(r, n, i), Offset(r, n, j), r.x0, i as real, j as real, CharWidth(r, n));
  }

  /** On a rectangle of positive width, later characters begin strictly later. */
  lemma OffsetStrict(r: Rect, n: nat, i: int, j: int)
    requires n > 0 && i < j && r.x0 < r.x1
    ensures Offset(r, n, i) < Offset(r, n, j)
  {
    CharWidthPositive(r, n);
    ScaleStrict(Offset(r, n, i), Offset(r, n, j), r.x0, i as real, j as real, CharWidth(r, n));
  }

  /** Offsets are ordered as the characters are, strictly so on a rectangle of
      positive width. */
  lemma OffsetOrder(r: Rect, n: nat, i: int, j: int)
    requires n > 0
    ensures i <= j ==> Offset(r, n, i) <= Offset(r, n, j)
    ensures r.x0 < r.x1 ==> (Offset(r, n, i) < Offset(r, n, j) <==> i < j)
    ensures r.x0 < r.x1 ==> (Offset(r, n, i) <= Offset(r, n, j) <==> i <= j)
  {
    if i <= j {
      OffsetMono(r, n, i, j);
    } else {
      OffsetMono(r, n, j, i);
    }
    if r.x0 < r.x1 {
      if i < j {
        OffsetStrict(r, n, i, j);
      } else if j < i {
        OffsetStrict(r, n, j, i);
      }
    }
  }

  /** The distance between the starts of characters i and j is d = j - i
      character widths. */
  lemma OffsetDiff(r: Rect, n: nat, i: int, j: int, d: int)
    requires n > 0 && d == j - i
    ensures Offset(r, n, j) - Offset(r, n, i) == (d as real) * CharWidth(r, n)
  {
    ScaleDiff(i as real, j as real, d as real, CharWidth(r, n));
  }

  // ---------------------------------------------------------------------------
  // Properties
  // ---------------------------------------------------------------------------

  /** The left mask keeps the rectangle's vertical edges and left edge and is
      exactly three character widths wide; the right mask keeps the vertical
      edges and the right edge, starts (n - 2) character widths in and is
      exactly two character widths wide. */
  lemma MaskEdges(r: Rect, n: nat)
    requires 5 <= n && r.x0 <= r.x1
    ensures LeftMask(r, n).y0 == r.y0 && LeftMask(r, n).y1 == r.y1 && LeftMask(r, n).x0 == r.x0
    ensures Width(LeftMask(r, n)) == 3.0 * CharWidth(r, n)
    ensures RightMask(r, n).y0 == r.y0 && RightMask(r, n).y1 == r.y1 && RightMask(r, n).x1 == r.x1
    ensures RightMask(r, n).x0 == r.x1 - 2.0 * CharWidth(r, n)
    ensures Width(RightMask(r, n)) == 2.0 * CharWidth(r, n)
  {
    OffsetDiff(r, n, 0, 3, 3);
    OffsetDiff(r, n, n - 2, n, 2);
  }

  /** For a rectangle that is not inverted and at least five characters, both
      masks lie inside it, the left one ends where or before the right one
      begins, and the visible gap between them is (n - 5) character widths. */
  lemma MasksInsideAndApart(r: Rect, n: nat)
    requires 5 <= n && r.x0 <= r.x1
    ensures Contains(r, LeftMask(r, n)) && Contains(r, RightMask(r, n))
    ensures LeftMask(r, n).x1 <= RightMask(r, n).x0
    ensures RightMask(r, n).x0 - LeftMask(r, n).x1 == ((n - 5) as real) * CharWidth(r, n)
  {
    OffsetOrder(r, n, 3, n);
    OffsetOrder(r, n, 3, n - 2);
    OffsetDiff(r, n, 3, n - 2, n - 5);
  }

  /** On an inverted or empty rectangle (width 0) both masks have width 0. */
  lemma MasksOfEmptyRect(r: Rect, n: nat)
    requires 5 <= n && r.x1 <= r.x0
    ensures Width(LeftMask(r, n)) == 0.0 && Width(RightMask(r, n)) == 0.0
  {
    assert CharWidth(r, n) == 0.0;
    OffsetDiff(r, n, 0, 3, 3);
    OffsetDiff(r, n, 0, n - 2, n - 2);
  }

  /** The cells tile the rectangle from its left edge to its right edge. */
  lemma CellsTileRect(r: Rect, n: nat, k: nat)
    requires 0 < n && k + 1 < n && r.x0 <= r.x1
    ensures Cell(r, n, 0).x0 == r.x0 && Cell(r, n, n - 1).x1 == r.x1
    ensures Cell(r, n, k).x1 == Cell(r, n, k + 1).x0
  {
  }

  /** What the masks hide, character by character: on a rectangle of positive width,
      the cell of character k overlaps the left mask exactly when k < 3 and the
      right mask exactly when k >= n - 2, and then lies wholly inside it; the
      cells in between stay visible. */
  lemma MaskCells(r: Rect, n: nat, k: nat)
    requires 5 <= n && k < n && r.x0 < r.x1
    ensures OverlapsX(Cell(r, n, k), LeftMask(r, n)) <==> k < 3
    ensures OverlapsX(Cell(r, n, k), RightMask(r, n)) <==> n - 2 <= k
    ensures Contains(LeftMask(r, n), Cell(r, n, k)) <==> k < 3
    ensures Contains(RightMask(r, n), Cell(r, n, k)) <==> n - 2 <= k
  {
    LeftMaskCells(r, n, k);
    RightMaskOverlaps(r, n, k);
    RightMaskContains(r, n, k);
  }

  lemma LeftMaskCells(r: Rect, n: nat, k: nat)
    requires 5 <= n && k < n && r.x0 < r.x1
    ensures OverlapsX(Cell(r, n, k), LeftMask(r, n)) <==> k < 3
    ensures Contains(LeftMask(r, n), Cell(r, n, k)) <==> k < 3
  {
    OffsetOrder(r, n, k, 3);
    OffsetOrder(r, n, k + 1, 3);
    OffsetOrder(r, n, 0, k);
    OffsetOrder(r, n, 0, k + 1);
    OffsetOrder(r, n, k, k + 1);
  }

  lemma RightMaskOverlaps(r: Rect, n: nat, k: nat)
    requires 5 <= n && k < n && r.x0 < r.x1
    ensures OverlapsX(Cell(r, n, k), RightMask(r, n)) <==> n - 2 <= k
  {
    OffsetOrder(r, n, k, n);
    OffsetOrder(r, n, n - 2, k + 1);
  }

  lemma RightMaskContains(r: Rect, n: nat, k: nat)
    requires 5 <= n && k < n && r.x0 < r.x1
    ensures Contains(RightMask(r, n), Cell(r, n, k)) <==> n - 2 <= k
  {
    OffsetOrder(r, n, n - 2, k);
    OffsetOrder(r, n, k, k + 1);
    OffsetOrder(r, n, k + 1, n);
  }
}

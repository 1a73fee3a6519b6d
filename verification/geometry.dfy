/**
 * The geometry kernel of docs/utils.js: rectangles in screen pixels, padding, the
 * half-open overlap test, and the icon and label rects built around an icon's centre.
 *
 * Rect coordinates are integers: every rect the engine builds has its corner rounded
 * with Math.round and its size read from offsetWidth/offsetHeight, which are integers.
 * The icon centre (winX, winY) comes from the viewer's projection and is real.
 */
module Geometry {

  /** A rectangle by its top-left corner and its size. */
  datatype Rect = Rect(x: int, y: int, w: int, h: int)

  /** The measured geometry of one entry: icon centre in window pixels and the box sizes. */
  datatype Geom = Geom(winX: real, winY: real, iconW: nat, iconH: nat, labelW: nat, labelH: nat)

  /** The CSS text-align value a label receives. */
  datatype TextAlign = Left | Right | Center

  /** Math.round: the nearest integer, halves rounded up (towards +infinity). */
  function Round(x: real): (r: int)
    ensures x - 0.5 < r as real <= x + 0.5
  {
    (x + 0.5).Floor
  }

  /** Rounding commutes with adding a whole number of pixels. */
  lemma RoundShift(x: real, n: int)
    ensures Round(x + n as real) == Round(x) + n
  {
    var a, b := Round(x + n as real), Round(x) + n;
    assert x + n as real - 0.5 < a as real <= x + n as real + 0.5;
    assert x + n as real - 0.5 < b as real <= x + n as real + 0.5;
  }

  /** expandRect: every edge moves outwards by pad, so the centre stays where it was. */
  function ExpandRect(r: Rect, pad: int): (e: Rect)
    ensures e.x == r.x - pad && e.x + e.w == r.x + r.w + pad
    ensures e.y == r.y - pad && e.y + e.h == r.y + r.h + pad
    ensures 2 * e.x + e.w == 2 * r.x + r.w && 2 * e.y + e.h == 2 * r.y + r.h
  {
    Rect(r.x - pad, r.y - pad, r.w + 2 * pad, r.h + 2 * pad)
  }

  /** Padding by zero changes nothing, and two paddings add up. */
  lemma ExpandRectAlgebra(r: Rect, a: int, b: int)
    ensures ExpandRect(r, 0) == r
    ensures ExpandRect(ExpandRect(r, a), b) == ExpandRect(r, a + b)
  {
  }

  /** rectsOverlap: true unless the rects are apart on one axis; edges are half-open. */
  predicate RectsOverlap(a: Rect, b: Rect) {
    !(a.x + a.w <= b.x || b.x + b.w <= a.x || a.y + a.h <= b.y || b.y + b.h <= a.y)
  }

  lemma OverlapSymmetric(a: Rect, b: Rect)
    ensures RectsOverlap(a, b) <==> RectsOverlap(b, a)
  {
  }

  /** Rects that only share an edge do not overlap. */
  lemma TouchingDoNotOverlap(a: Rect, b: Rect)
    requires a.x + a.w == b.x || a.y + a.h == b.y
    ensures !RectsOverlap(a, b) && !RectsOverlap(b, a)
  {
  }

  /** Inflating a rect never removes an overlap. */
  lemma OverlapMonotone(a: Rect, b: Rect, p: nat)
    requires RectsOverlap(a, b)
    ensures RectsOverlap(ExpandRect(a, p), b)
  {
  }

  /** The pixel (px, py) lies in r, whose left and top edges are inclusive and the others exclusive. */
  predicate Covers(r: Rect, px: int, py: int) {
    r.x <= px < r.x + r.w && r.y <= py < r.y + r.h
  }

  /**
   * For non-empty rects the overlap test means exactly "some pixel is covered by both",
   * which is why touching edges do not count.
   */
  lemma OverlapMeansSharedPixel(a: Rect, b: Rect)
    requires a.w > 0 && a.h > 0 && b.w > 0 && b.h > 0
    ensures RectsOverlap(a, b) <==> exists px, py :: Covers(a, px, py) && Covers(b, px, py)
  {
    if RectsOverlap(a, b) {
      var px := if a.x < b.x then b.x else a.x;
      var py := if a.y < b.y then b.y else a.y;
      assert Covers(a, px, py) && Covers(b, px, py);
    }
  }

  /** rectIcon: the icon's rect, centred on (winX, winY) to within half a pixel. */
  function RectIcon(g: Geom): (r: Rect)
    ensures r.w == g.iconW && r.h == g.iconH
    ensures g.winX - 0.5 < r.x as real + g.iconW as real / 2.0 <= g.winX + 0.5
    ensures g.winY - 0.5 < r.y as real + g.iconH as real / 2.0 <= g.winY + 0.5
  {
    Rect(Round(g.winX - g.iconW as real / 2.0), Round(g.winY - g.iconH as real / 2.0), g.iconW, g.iconH)
  }

  /** The eight compass positions rectLabel names; any other string falls to its default case. */
  predicate IsNamedPosition(pos: string) {
    pos == "S" || pos == "N" || pos == "E" || pos == "W" ||
    pos == "SE" || pos == "SW" || pos == "NE" || pos == "NW"
  }

  /** rectLabel: the label's rect for a compass position, `gap` pixels from the icon's edge. */
  function RectLabel(g: Geom, pos: string, gap: int): (r: Rect)
    ensures r.w == g.labelW && r.h == g.labelH
  {
    var below := Round(g.winY + g.iconH as real / 2.0 + gap as real);
    var above := Round(g.winY - g.iconH as real / 2.0 - gap as real - g.labelH as real);
    var right := Round(g.winX + g.iconW as real / 2.0 + gap as real);
    var left := Round(g.winX - g.iconW as real / 2.0 - gap as real - g.labelW as real);
    var midX := Round(g.winX - g.labelW as real / 2.0);
    var midY := Round(g.winY - g.labelH as real / 2.0);
    if pos == "S" then Rect(midX, below, g.labelW, g.labelH)
    else if pos == "N" then Rect(midX, above, g.labelW, g.labelH)
    else if pos == "E" then Rect(right, midY, g.labelW, g.labelH)
    else if pos == "W" then Rect(left, midY, g.labelW, g.labelH)
    else if pos == "SE" then Rect(right, below, g.labelW, g.labelH)
    else if pos == "SW" then Rect(left, below, g.labelW, g.labelH)
    else if pos == "NE" then Rect(right, above, g.labelW, g.labelH)
    else if pos == "NW" then Rect(left, above, g.labelW, g.labelH)
    else Rect(midX, below, g.labelW, g.labelH)
  }

  /** An unknown position is placed like S. */
  lemma RectLabelDefault(g: Geom, pos: string, gap: int)
    requires !IsNamedPosition(pos)
    ensures RectLabel(g, pos, gap) == RectLabel(g, "S", gap)
  {
  }

  /** The diagonals combine the offsets of their two axes. */
  lemma RectLabelDiagonals(g: Geom, gap: int)
    ensures RectLabel(g, "SE", gap).x == RectLabel(g, "E", gap).x && RectLabel(g, "SE", gap).y == RectLabel(g, "S", gap).y
    ensures RectLabel(g, "SW", gap).x == RectLabel(g, "W", gap).x && RectLabel(g, "SW", gap).y == RectLabel(g, "S", gap).y
    ensures RectLabel(g, "NE", gap).x == RectLabel(g, "E", gap).x && RectLabel(g, "NE", gap).y == RectLabel(g, "N", gap).y
    ensures RectLabel(g, "NW", gap).x == RectLabel(g, "W", gap).x && RectLabel(g, "NW", gap).y == RectLabel(g, "N", gap).y
  {
  }

  /** N and S labels are centred horizontally on the icon; E and W labels vertically. */
  lemma RectLabelCentred(g: Geom, gap: int)
    ensures var s := RectLabel(g, "S", gap);
      s.x == RectLabel(g, "N", gap).x && g.winX - 0.5 < s.x as real + g.labelW as real / 2.0 <= g.winX + 0.5
    ensures var e := RectLabel(g, "E", gap);
      e.y == RectLabel(g, "W", gap).y && g.winY - 0.5 < e.y as real + g.labelH as real / 2.0 <= g.winY + 0.5
  {
  }

  /**
   * Each label sits exactly `gap` pixels from the matching edge of the (rounded) icon rect:
   * the S label's top edge is gap below the icon's bottom edge, and so on round the compass.
   */
  lemma {:induction false} LabelGapFromIcon(g: Geom, gap: int)
    ensures var i := RectIcon(g);
      && RectLabel(g, "S", gap).y == i.y + i.h + gap
      && RectLabel(g, "N", gap).y + g.labelH == i.y - gap
      && RectLabel(g, "E", gap).x == i.x + i.w + gap
      && RectLabel(g, "W", gap).x + g.labelW == i.x - gap
  {
    var hx, hy := g.winX - g.iconW as real / 2.0, g.winY - g.iconH as real / 2.0;
    RoundShift(hy, g.iconH + gap);
    assert hy + (g.iconH + gap) as real == g.winY + g.iconH as real / 2.0 + gap as real;
    RoundShift(hy, -gap - g.labelH);
    assert hy + (-gap - g.labelH) as real == g.winY - g.iconH as real / 2.0 - gap as real - g.labelH as real;
    RoundShift(hx, g.iconW + gap);
    assert hx + (g.iconW + gap) as real == g.winX + g.iconW as real / 2.0 + gap as real;
    RoundShift(hx, -gap - g.labelW);
    assert hx + (-gap - g.labelW) as real == g.winX - g.iconW as real / 2.0 - gap as real - g.labelW as real;
  }

  /** Whatever the position, an unpadded label never overlaps its own unpadded icon. */
  lemma {:induction false} LabelClearOfIcon(g: Geom, pos: string, gap: nat)
    ensures !RectsOverlap(RectLabel(g, pos, gap), RectIcon(g))
  {
    LabelGapFromIcon(g, gap);
    RectLabelDiagonals(g, gap);
    if !IsNamedPosition(pos) {
      RectLabelDefault(g, pos, gap);
    }
  }

  /** textAlignForPos: labels east of the icon are left-aligned, west ones right-aligned. */
  function TextAlignForPos(pos: string): (a: TextAlign)
    ensures a == Left <==> pos in {"E", "NE", "SE"}
    ensures a == Right <==> pos in {"W", "NW", "SW"}
  {
    if pos == "E" || pos == "NE" || pos == "SE" then Left
    else if pos == "W" || pos == "NW" || pos == "SW" then Right
    else Center
  }

  /**
   * The alignment agrees with where the label box lies: a left-aligned label starts
   * right of the icon, a right-aligned one ends left of it, a centred one is centred.
   */
  lemma {:induction false} AlignMatchesSide(g: Geom, pos: string, gap: int)
    ensures var r, i := RectLabel(g, pos, gap), RectIcon(g);
      match TextAlignForPos(pos)
      case Left => r.x == i.x + i.w + gap
      case Right => r.x + r.w == i.x - gap
      case Center => r.x == Round(g.winX - g.labelW as real / 2.0)
  {
    LabelGapFromIcon(g, gap);
  }
}

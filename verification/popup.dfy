/**
 * The placement arithmetic of updateSinglePopupPosition (docs/poi.js:220-257,
 * poi.js:188-226) once the popup's measured size and the container's client rect are known.
 * The popup sits above the icon's centre, moves below the icon when it would start above
 * the container's inner top edge, and is then pushed back inside the container's inner box.
 */
module Popup {
  import opened Geometry

  /** The container's bounding client rect, as getBoundingClientRect reports it. */
  datatype Container = Container(left: real, top: real, right: real, bottom: real)

  /** Where a popup has been put, as its style.left/top. */
  datatype PopupSpot = Unplaced | PlacedAt(left: real, top: real)

  /** The inner margin kept between the popup and the container's edges. */
  const EDGE_INSET: real := 8.0

  /** The distance between the popup and the icon's centre line plus half its height. */
  const ICON_GAP: real := 8.0

  function MinX(c: Container): real { c.left + EDGE_INSET }
  function MaxX(c: Container): real { c.right - EDGE_INSET }
  function MinY(c: Container): real { c.top + EDGE_INSET }
  function MaxY(c: Container): real { c.bottom - EDGE_INSET }

  function Max(a: real, b: real): real { if a >= b then a else b }

  /** The default top: above the icon, its bottom edge ICON_GAP above the icon's top edge. */
  function AboveTop(winY: real, iconH: nat, popH: nat): int {
    Round(winY - iconH as real / 2.0 - ICON_GAP - popH as real)
  }

  /** The flipped top: ICON_GAP below the icon's bottom edge. */
  function BelowTop(winY: real, iconH: nat): int {
    Round(winY + iconH as real / 2.0 + ICON_GAP)
  }

  /** The default left: the popup centred on the icon. */
  function CentredLeft(winX: real, popW: nat): int {
    Round(winX - popW as real / 2.0)
  }

  /**
   * The final position of an open popup of size popW x popH whose icon is centred at
   * (winX, winY) and is iconH high, inside container c.
   */
  function PopupPosition(winX: real, winY: real, iconH: nat, popW: nat, popH: nat, c: Container): (s: PopupSpot)
    ensures s.PlacedAt?
    // horizontally: never left of the inner box; a popup wider than the box sits at its left edge
    ensures s.left >= MinX(c)
    ensures popW as real > MaxX(c) - MinX(c) ==> s.left == MinX(c)
    ensures popW as real <= MaxX(c) - MinX(c) ==> s.left + popW as real <= MaxX(c)
    // a popup that fits the width but would start left of the box is moved to its left edge
    ensures popW as real <= MaxX(c) - MinX(c) && CentredLeft(winX, popW) as real < MinX(c) ==> s.left == MinX(c)
    // a centred popup that already fits is not moved
    ensures var l := CentredLeft(winX, popW) as real;
      MinX(c) <= l && l + popW as real <= MaxX(c) ==> s.left == l
    // vertically: a popup no taller than the box never sticks out at the bottom
    ensures popH as real <= MaxY(c) - MinY(c) ==> s.top + popH as real <= MaxY(c)
    // a popup taller than the box that sticks out at the bottom is put at the box's top edge
    ensures popH as real > MaxY(c) - MinY(c) && s.top + popH as real > MaxY(c) ==> s.top == MinY(c)
    // a popup that fits above the icon stays there
    ensures var a := AboveTop(winY, iconH, popH) as real;
      MinY(c) <= a && a + popH as real <= MaxY(c) ==> s.top == a
    // the only way to start above the inner box is the flip below the icon, which is not clamped
    ensures s.top < MinY(c) ==>
      AboveTop(winY, iconH, popH) as real < MinY(c) && s.top == BelowTop(winY, iconH) as real
    // a popup that would start above the inner box is flipped below the icon, and stays there if it fits
    ensures var b := BelowTop(winY, iconH) as real;
      AboveTop(winY, iconH, popH) as real < MinY(c) && b + popH as real <= MaxY(c) ==> s.top == b
    // a popup that fits the box but sticks out right or below is pushed back to end at the inner edge
    ensures popW as real <= MaxX(c) - MinX(c) && CentredLeft(winX, popW) as real + popW as real > MaxX(c) ==>
      s.left + popW as real == MaxX(c)
    ensures var a := AboveTop(winY, iconH, popH) as real;
      popH as real <= MaxY(c) - MinY(c) && MinY(c) <= a && a + popH as real > MaxY(c) ==>
        s.top + popH as real == MaxY(c)
    ensures var b := BelowTop(winY, iconH) as real;
      popH as real <= MaxY(c) - MinY(c) && AboveTop(winY, iconH, popH) as real < MinY(c) && b + popH as real > MaxY(c) ==>
        s.top + popH as real == MaxY(c)
  {
    var minX, maxX, minY, maxY := MinX(c), MaxX(c), MinY(c), MaxY(c);
    var l0 := CentredLeft(winX, popW) as real;
    var t0 := AboveTop(winY, iconH, popH) as real;
    var t1 := if t0 < minY then BelowTop(winY, iconH) as real else t0;
    var l1 := if l0 < minX then minX else l0;
    var l2 := if l1 + popW as real > maxX then Max(minX, maxX - popW as real) else l1;
    var t2 := if t1 + popH as real > maxY then Max(minY, maxY - popH as real) else t1;
    PlacedAt(l2, t2)
  }

  /**
   * In its default place the popup ends at least 7.5 pixels above the icon's top edge, and in
   * the flipped place it starts at least 7.5 pixels below the icon's bottom edge, so neither
   * covers the icon.
   */
  lemma PopupClearsIcon(winY: real, iconH: nat, popH: nat)
    ensures AboveTop(winY, iconH, popH) as real + popH as real <= winY - iconH as real / 2.0 - 7.5
    ensures BelowTop(winY, iconH) as real >= winY + iconH as real / 2.0 + 7.5
  {
  }

  /**
   * The flipped position is not clamped against the top edge: an icon 100 pixels above a
   * 1000 x 1000 container gives a popup whose top lies above the inner box.
   */
  lemma FlippedPopupCanStartAboveBox()
    ensures var c := Container(0.0, 0.0, 1000.0, 1000.0);
      PopupPosition(500.0, -100.0, 24, 200, 50, c).top < MinY(c)
  {
    var c := Container(0.0, 0.0, 1000.0, 1000.0);
    assert AboveTop(-100.0, 24, 50) == -170;
    assert BelowTop(-100.0, 24) == -80;
    assert CentredLeft(500.0, 200) == 400;
  }
}

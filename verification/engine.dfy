/**
 * The overlay as it runs in the page: poiElems is an array of entries that layout(),
 * closeAllPopups(), the click handlers and the popup placement update in place
 * (docs/poi.js:12-257, poi.js:13-226). Each method is proved equal to the specification
 * function of its effect, and the properties of the effect are lemmas about that function.
 */
module Engine {
  import opened Options
  import opened Geometry
  import opened Config
  import opened Order
  import opened Rows
  import opened Popup
  import opened Declutter

  /** The geometry of an entry before its first measurement. */
  const UNMEASURED: Geom := Geom(0.0, 0.0, 0, 0, 0, 0)

  /** The entry built for one record: nothing hidden, nothing placed, popup closed. */
  function NewEntry(p: Poi): (e: Entry)
    ensures e.poi == p && !e.iconHidden && !e.labelHidden && !e.popupOpen
    ensures e.iconSpot == Unset && e.labelSpot == Unset && e.align == None && e.popup == Unplaced
  {
    Entry(p, UNMEASURED, false, Unset, false, Unset, None, false, Unplaced)
  }

  // ---- the open flags ----

  /** No two popups are open at once. */
  predicate AtMostOneOpen(es: seq<Entry>) {
    forall i, j :: 0 <= i < |es| && 0 <= j < |es| && es[i].popupOpen && es[j].popupOpen ==> i == j
  }

  /** closeAllPopups: every popup loses is-open; nothing else changes. */
  function CloseAll(es: seq<Entry>): (r: seq<Entry>)
    ensures |r| == |es|
    ensures forall i :: 0 <= i < |es| ==> !r[i].popupOpen && r[i].(popupOpen := es[i].popupOpen) == es[i]
  {
    seq(|es|, i requires 0 <= i < |es| => es[i].(popupOpen := false))
  }

  /** The open flags after the click handler of entry i: close all, then flip i's is-open. */
  function Toggled(es: seq<Entry>, i: nat): (r: seq<Entry>)
    requires i < |es|
    ensures |r| == |es|
    ensures forall j :: 0 <= j < |es| ==> (r[j].popupOpen <==> j == i)
    ensures forall j :: 0 <= j < |es| ==> r[j].(popupOpen := es[j].popupOpen) == es[j]
  {
    var c := CloseAll(es);
    c[i := c[i].(popupOpen := !c[i].popupOpen)]
  }

  /** The close button of entry i (docs/poi.js only): i's is-open removed. */
  function Closed(es: seq<Entry>, i: nat): (r: seq<Entry>)
    requires i < |es|
    ensures |r| == |es|
    ensures !r[i].popupOpen && r[i].(popupOpen := es[i].popupOpen) == es[i]
    ensures forall j :: 0 <= j < |es| && j != i ==> r[j] == es[j]
  {
    es[i := es[i].(popupOpen := false)]
  }

  /** Where a click on the page lands, as the document handler of docs/poi.js tells it apart. */
  datatype ClickTarget = InsidePopup | OnIconOrLabel | Elsewhere

  /** The document click handler of docs/poi.js: a click outside popups, icons and labels closes all. */
  function DocumentClick(es: seq<Entry>, t: ClickTarget): (r: seq<Entry>)
    ensures |r| == |es|
    ensures forall i :: 0 <= i < |es| ==> r[i].(popupOpen := es[i].popupOpen) == es[i]
    ensures t == Elsewhere ==> forall i :: 0 <= i < |es| ==> !r[i].popupOpen
  {
    if t != InsidePopup && t != OnIconOrLabel then CloseAll(es) else es
  }

  /** After a click on entry i's icon or label exactly popup i is open, whatever was open before. */
  lemma ToggleOpensExactlyOne(es: seq<Entry>, i: nat)
    requires i < |es|
    ensures var r := Toggled(es, i);
      r[i].popupOpen && (forall j :: 0 <= j < |es| && j != i ==> !r[j].popupOpen) && AtMostOneOpen(r)
  {
  }

  /**
   * A second click on the same icon does not close its popup: closing all first makes the
   * flip an open every time.
   */
  lemma ToggleTwiceStaysOpen(es: seq<Entry>, i: nat)
    requires i < |es|
    ensures Toggled(Toggled(es, i), i)[i].popupOpen
    ensures forall j :: 0 <= j < |es| ==> Toggled(Toggled(es, i), i)[j].popupOpen == Toggled(es, i)[j].popupOpen
  {
  }

  /** The close button clears its own popup and leaves every other entry as it was. */
  lemma CloseClearsOnlyOwn(es: seq<Entry>, i: nat)
    requires i < |es|
    ensures var r := Closed(es, i);
      !r[i].popupOpen && r[i].(popupOpen := es[i].popupOpen) == es[i] &&
      forall j :: 0 <= j < |es| && j != i ==> r[j] == es[j]
  {
  }

  /** A click outside every popup, icon and label leaves no popup open; other clicks change nothing. */
  lemma DocumentClickMeaning(es: seq<Entry>, t: ClickTarget)
    ensures t == Elsewhere ==> forall i :: 0 <= i < |es| ==> !DocumentClick(es, t)[i].popupOpen
    ensures t != Elsewhere ==> DocumentClick(es, t) == es
  {
  }

  /** Every command on the open flags keeps at most one popup open. */
  lemma CommandsKeepAtMostOneOpen(es: seq<Entry>, i: nat, t: ClickTarget)
    requires i < |es| && AtMostOneOpen(es)
    ensures AtMostOneOpen(CloseAll(es)) && AtMostOneOpen(Toggled(es, i))
    ensures AtMostOneOpen(Closed(es, i)) && AtMostOneOpen(DocumentClick(es, t))
  {
  }

  /** The layout pass never opens or closes a popup. */
  lemma LayoutKeepsOpenFlags(es: seq<Entry>)
    ensures forall i :: 0 <= i < |es| ==> LayoutPass(es).entries[i].popupOpen == es[i].popupOpen
    ensures AtMostOneOpen(es) ==> AtMostOneOpen(LayoutPass(es).entries)
  {
    LayoutPassKeeps(es);
  }

  // ---- popup placement over all entries ----

  /** The measured size of a popup element. */
  datatype PopupSize = PopupSize(w: nat, h: nat)

  /** updateSinglePopupPosition on entry i: an open popup is placed next to its icon. */
  function PlacePopup(es: seq<Entry>, i: nat, size: PopupSize, c: Container): (r: seq<Entry>)
    requires i < |es|
    ensures |r| == |es|
    ensures !es[i].popupOpen ==> r == es
    ensures es[i].popupOpen ==> forall j :: 0 <= j < |es| ==> r[j].(popup := es[j].popup) == es[j]
    ensures forall j :: 0 <= j < |es| && j != i ==> r[j] == es[j]
    ensures es[i].popupOpen ==>
      r[i].popup == PopupPosition(es[i].geom.winX, es[i].geom.winY, es[i].geom.iconH, size.w, size.h, c)
  {
    if !es[i].popupOpen then es
    else
      var g := es[i].geom;
      es[i := es[i].(popup := PopupPosition(g.winX, g.winY, g.iconH, size.w, size.h, c))]
  }

  /** updateAllPopupsPosition: every open popup placed, each with its own measured size. */
  function PlaceAllPopups(es: seq<Entry>, sizes: seq<PopupSize>, c: Container): (r: seq<Entry>)
    requires |sizes| == |es|
    ensures |r| == |es|
    ensures forall i :: 0 <= i < |es| ==> r[i] == PlacePopup(es, i, sizes[i], c)[i]
  {
    seq(|es|, i requires 0 <= i < |es| =>
      if es[i].popupOpen
      then es[i].(popup := PopupPosition(es[i].geom.winX, es[i].geom.winY, es[i].geom.iconH, sizes[i].w, sizes[i].h, c))
      else es[i])
  }

  /** Placing popups moves only open popups and never opens or closes one. */
  lemma PlaceAllPopupsMovesOnlyOpen(es: seq<Entry>, sizes: seq<PopupSize>, c: Container)
    requires |sizes| == |es|
    ensures var r := PlaceAllPopups(es, sizes, c);
      forall i :: 0 <= i < |es| ==>
        r[i].(popup := es[i].popup) == es[i] &&
        (!es[i].popupOpen ==> r[i] == es[i]) &&
        (es[i].popupOpen ==> r[i].popup.PlacedAt? && r[i].popup.left >= MinX(c))
  {
  }

  /** The overlay: the entries, one per record, in CSV order. */
  class Overlay {
    const entries: array<Entry>

    /** poiElems = normalized.map(...): one fresh entry per record. */
    constructor (pois: seq<Poi>)
      ensures fresh(entries)
      ensures entries.Length == |pois|
      ensures forall i :: 0 <= i < |pois| ==> entries[i] == NewEntry(pois[i])
    {
      entries := new Entry[|pois|](i requires 0 <= i < |pois| => NewEntry(pois[i]));
    }

    /** Step 1 of layout: store each entry's geometry, falling back to 24 for a zero icon size. */
    method Measure(ms: seq<Measurement>)
      requires |ms| == entries.Length
      modifies entries
      ensures entries[..] == Measured(old(entries[..]), ms)
    {
      for i := 0 to entries.Length
        invariant forall j :: 0 <= j < i ==> entries[j] == old(entries[j]).(geom := GeomOf(ms[j]))
        invariant forall j :: i <= j < entries.Length ==> entries[j] == old(entries[j])
      {
        var m := ms[i];
        var iconW := if m.offsetW > 0 then m.offsetW else ICON_FALLBACK;
        var iconH := if m.offsetH > 0 then m.offsetH else ICON_FALLBACK;
        entries[i] := entries[i].(geom := Geom(m.winX, m.winY, iconW, iconH, m.labelW, m.labelH));
      }
    }

    /** Step 3 of layout: the icon loop over the sorted entries, from an empty ledger. */
    method PlaceIcons(order: seq<nat>) returns (occupied: seq<Occupant>)
      requires ValidOrder(order, entries.Length)
      modifies entries
      ensures Pass(entries[..], occupied) == Icons(Pass(old(entries[..]), []), order)
    {
      occupied := [];
      ghost var start := entries[..];
      for k := 0 to |order|
        invariant entries.Length == |start|
        invariant Pass(entries[..], occupied) == Icons(Pass(start, []), order[..k])
      {
        assert order[..k + 1][..k] == order[..k];
        var i := order[k];
        var e := entries[i];
        var iconRect := RectIcon(e.geom);
        var iconTest := ExpandRect(iconRect, COLLISION_PAD);
        var conflict := Hits(iconTest, occupied);
        if conflict {
          entries[i] := e.(iconHidden := true);
        } else {
          entries[i] := e.(iconHidden := false, iconSpot := At(iconRect.x, iconRect.y));
          occupied := occupied + [Occupant(iconTest, e.poi.id, IconKind)];
        }
      }
      assert order[..|order|] == order;
    }

    /** Step 4 of layout: the label loop, trying LABEL_POS_SEQUENCE in order for each entry. */
    method PlaceLabels(order: seq<nat>, ledger: seq<Occupant>) returns (occupied: seq<Occupant>)
      requires ValidOrder(order, entries.Length)
      modifies entries
      ensures Pass(entries[..], occupied) == Labels(Pass(old(entries[..]), ledger), order)
    {
      occupied := ledger;
      ghost var start := entries[..];
      for k := 0 to |order|
        invariant entries.Length == |start|
        invariant Pass(entries[..], occupied) == Labels(Pass(start, ledger), order[..k])
      {
        assert order[..k + 1][..k] == order[..k];
        var i := order[k];
        var e := entries[i];
        var g := e.geom;
        if e.iconHidden || g.labelW <= 0 || g.labelH <= 0 {
          entries[i] := e.(labelHidden := true);
        } else {
          ghost var before, led := entries[..], occupied;
          var placed := false;
          for j := 0 to |LABEL_POS_SEQUENCE|
            invariant !placed && entries[..] == before && occupied == led
            invariant FirstFit(g, e.poi.id, led, 0) == FirstFit(g, e.poi.id, led, j)
          {
            var pos := LABEL_POS_SEQUENCE[j];
            var lblRect := RectLabel(g, pos, LABEL_GAP);
            var lblTest := ExpandRect(lblRect, COLLISION_PAD);
            var hit := LabelHits(lblTest, e.poi.id, occupied);
            if !hit {
              entries[i] := e.(labelHidden := false, labelSpot := At(lblRect.x, lblRect.y),
                               align := Some(TextAlignForPos(pos)));
              occupied := occupied + [Occupant(lblTest, e.poi.id, LabelKind)];
              placed := true;
              break;
            }
          }
          if !placed {
            entries[i] := e.(labelHidden := true);
          }
        }
      }
      assert order[..|order|] == order;
    }

    /**
     * layout(): nothing without a loaded image; otherwise measure, sort, place icons and
     * place labels. The result is the specified pass, so every shown label has a shown icon.
     */
    method Layout(itemLoaded: bool, ms: seq<Measurement>)
      requires |ms| == entries.Length
      modifies entries
      ensures !itemLoaded ==> entries[..] == old(entries[..])
      ensures itemLoaded ==> entries[..] == LayoutPass(Measured(old(entries[..]), ms)).entries
      ensures itemLoaded ==> forall i :: 0 <= i < entries.Length ==>
        (!entries[i].labelHidden ==> !entries[i].iconHidden) &&
        entries[i].popupOpen == old(entries[i].popupOpen)
    {
      if !itemLoaded {
        return;
      }
      Measure(ms);
      ghost var measured := entries[..];
      var order := SortOrder(Keys(entries[..]), entries.Length);
      var occupied := PlaceIcons(order);
      occupied := PlaceLabels(order, occupied);
      LayoutPassKeeps(measured);
      LayoutPassLabelNeedsIcon(measured);
    }

    /** closeAllPopups(). */
    method CloseAllPopups()
      modifies entries
      ensures entries[..] == CloseAll(old(entries[..]))
    {
      for i := 0 to entries.Length
        invariant forall j :: 0 <= j < i ==> entries[j] == old(entries[j]).(popupOpen := false)
        invariant forall j :: i <= j < entries.Length ==> entries[j] == old(entries[j])
      {
        entries[i] := entries[i].(popupOpen := false);
      }
    }

    /**
     * updateSinglePopupPosition(entry i) once the popup measures size.w x size.h and the
     * container reports c.
     */
    method UpdateSinglePopupPosition(i: nat, size: PopupSize, c: Container)
      requires i < entries.Length
      modifies entries
      ensures entries[..] == PlacePopup(old(entries[..]), i, size, c)
    {
      var e := entries[i];
      if !e.popupOpen {
        return;
      }
      var g := e.geom;
      var popW, popH := size.w as real, size.h as real;
      var minX, maxX := c.left + EDGE_INSET, c.right - EDGE_INSET;
      var minY, maxY := c.top + EDGE_INSET, c.bottom - EDGE_INSET;
      var left := Round(g.winX - popW / 2.0) as real;
      var top := Round(g.winY - g.iconH as real / 2.0 - ICON_GAP - popH) as real;
      if top < minY {
        top := Round(g.winY + g.iconH as real / 2.0 + ICON_GAP) as real;
      }
      if left < minX {
        left := minX;
      }
      if left + popW > maxX {
        left := Max(minX, maxX - popW);
      }
      if top + popH > maxY {
        top := Max(minY, maxY - popH);
      }
      entries[i] := e.(popup := PlacedAt(left, top));
    }

    /** updateAllPopupsPosition(): each entry in turn, each popup with its own measured size. */
    method UpdateAllPopupsPosition(sizes: seq<PopupSize>, c: Container)
      requires |sizes| == entries.Length
      modifies entries
      ensures entries[..] == PlaceAllPopups(old(entries[..]), sizes, c)
    {
      ghost var start := entries[..];
      for i := 0 to entries.Length
        invariant forall j :: 0 <= j < i ==> entries[j] == PlaceAllPopups(start, sizes, c)[j]
        invariant forall j :: i <= j < entries.Length ==> entries[j] == start[j]
      {
        UpdateSinglePopupPosition(i, sizes[i], c);
      }
    }

    /** The click handler of entry i's icon and label. */
    method Toggle(i: nat, size: PopupSize, c: Container)
      requires i < entries.Length
      modifies entries
      ensures entries[..] == PlacePopup(Toggled(old(entries[..]), i), i, size, c)
      ensures forall j :: 0 <= j < entries.Length ==> entries[j].popupOpen == (j == i)
    {
      CloseAllPopups();
      entries[i] := entries[i].(popupOpen := !entries[i].popupOpen);
      UpdateSinglePopupPosition(i, size, c);
    }

    /** The close button inside entry i's card (docs/poi.js). */
    method ClosePopup(i: nat)
      requires i < entries.Length
      modifies entries
      ensures entries[..] == Closed(old(entries[..]), i)
    {
      entries[i] := entries[i].(popupOpen := false);
    }

    /**
     * The document click handler (docs/poi.js); poi.js instead closes all on any click that
     * reaches the map container, which is CloseAllPopups itself.
     */
    method HandleDocumentClick(t: ClickTarget)
      modifies entries
      ensures entries[..] == DocumentClick(old(entries[..]), t)
    {
      var insidePopup := t == InsidePopup;
      var onIconOrLabel := t == OnIconOrLabel;
      if !insidePopup && !onIconOrLabel {
        CloseAllPopups();
      }
    }
  }
}

/**
 * The declutter pass of layout() (docs/poi.js:124-209, poi.js:89-176) as a specification:
 * the entries are visited in priority order, first to place icons and then to place
 * labels, and every placed box is pushed onto the `occupied` ledger. Each visit is a step
 * function on a Pass (the entries and the ledger); a whole loop is the fold of its step over
 * the order. The class in engine.dfy runs the same loops in place and is proved equal to
 * these folds.
 */
module Declutter {
  import opened Options
  import opened Geometry
  import opened Config
  import opened Order
  import opened Rows
  import opened Popup

  /** The `type` of an occupied box. */
  datatype Kind = IconKind | LabelKind

  /** One element of the `occupied` ledger: a padded rect, its owner's id and its kind. */
  datatype Occupant = Occupant(rect: Rect, id: string, kind: Kind)

  /** The style.left/top of an icon or label element, unset until first placed. */
  datatype Spot = Unset | At(left: int, top: int)

  /**
   * One element of poiElems: the record, the measured geometry, and the visible state of
   * its icon, label and popup elements. iconHidden is both `_iconHidden` and the icon's
   * poi-hidden class, which the pass always sets together; labelHidden is the label's
   * poi-hidden class; align is its style.textAlign; popupOpen is the popup's is-open class.
   */
  datatype Entry = Entry(poi: Poi, geom: Geom,
                         iconHidden: bool, iconSpot: Spot,
                         labelHidden: bool, labelSpot: Spot, align: Option<TextAlign>,
                         popupOpen: bool, popup: PopupSpot)

  /** The entries and the `occupied` ledger while a pass runs. */
  datatype Pass = Pass(entries: seq<Entry>, ledger: seq<Occupant>)

  // ---- measuring ----

  /** What the browser reports for one entry: the projected centre and the element sizes. */
  datatype Measurement = Measurement(winX: real, winY: real, offsetW: nat, offsetH: nat,
                                     labelW: nat, labelH: nat)

  /** The icon size used when the icon element reports a zero size. */
  const ICON_FALLBACK: nat := 24

  /** The geometry the first loop of layout stores: an icon never has a zero size. */
  function GeomOf(m: Measurement): (g: Geom)
    ensures g.iconW > 0 && g.iconH > 0
    ensures m.offsetW > 0 ==> g.iconW == m.offsetW
    ensures m.offsetH > 0 ==> g.iconH == m.offsetH
    ensures m.offsetW == 0 ==> g.iconW == ICON_FALLBACK
    ensures m.offsetH == 0 ==> g.iconH == ICON_FALLBACK
    ensures g.winX == m.winX && g.winY == m.winY && g.labelW == m.labelW && g.labelH == m.labelH
  {
    Geom(m.winX, m.winY,
         if m.offsetW > 0 then m.offsetW else ICON_FALLBACK,
         if m.offsetH > 0 then m.offsetH else ICON_FALLBACK,
         m.labelW, m.labelH)
  }

  /** The entries after the geometry loop: each receives the geometry of its own measurement. */
  function Measured(es: seq<Entry>, ms: seq<Measurement>): (r: seq<Entry>)
    requires |ms| == |es|
    ensures |r| == |es|
    ensures forall i :: 0 <= i < |es| ==> r[i] == es[i].(geom := GeomOf(ms[i]))
  {
    seq(|es|, i requires 0 <= i < |es| => es[i].(geom := GeomOf(ms[i])))
  }

  /** What the comparator reads of each entry. */
  function Keys(es: seq<Entry>): (ks: seq<Key>)
    ensures |ks| == |es|
    ensures forall i :: 0 <= i < |es| ==> ks[i] == Key(es[i].poi.priority, es[i].poi.id)
  {
    seq(|es|, i requires 0 <= i < |es| => Key(es[i].poi.priority, es[i].poi.id))
  }

  // ---- the boxes tested against the ledger ----

  function IconTest(g: Geom): Rect {
    ExpandRect(RectIcon(g), COLLISION_PAD)
  }

  function LabelRect(g: Geom, k: nat): Rect
    requires k < |LABEL_POS_SEQUENCE|
  {
    RectLabel(g, LABEL_POS_SEQUENCE[k], LABEL_GAP)
  }

  function LabelTest(g: Geom, k: nat): Rect
    requires k < |LABEL_POS_SEQUENCE|
  {
    ExpandRect(LabelRect(g, k), COLLISION_PAD)
  }

  function IconOccupant(e: Entry): Occupant {
    Occupant(IconTest(e.geom), e.poi.id, IconKind)
  }

  function LabelOccupant(e: Entry, k: nat): Occupant
    requires k < |LABEL_POS_SEQUENCE|
  {
    Occupant(LabelTest(e.geom, k), e.poi.id, LabelKind)
  }

  /** The icon test: r overlaps some occupied box. */
  predicate Hits(r: Rect, ledger: seq<Occupant>) {
    exists o :: o in ledger && RectsOverlap(r, o.rect)
  }

  /** The one box a label of `id` may overlap: an icon with the same id. */
  predicate Exempt(o: Occupant, id: string) {
    o.kind == IconKind && o.id == id
  }

  /** The label test: r overlaps some occupied box other than an icon of the same id. */
  predicate LabelHits(r: Rect, id: string, ledger: seq<Occupant>)
    // the exemption only ever lets more rects through than the plain test does
    ensures LabelHits(r, id, ledger) ==> Hits(r, ledger)
  {
    exists o :: o in ledger && !Exempt(o, id) && RectsOverlap(r, o.rect)
  }

  /**
   * The index in LABEL_POS_SEQUENCE of the first position, from `from` on, whose padded
   * label rect passes the label test, or the length of the sequence if none does.
   */
  function FirstFit(g: Geom, id: string, ledger: seq<Occupant>, from: nat): (k: nat)
    requires from <= |LABEL_POS_SEQUENCE|
    ensures from <= k <= |LABEL_POS_SEQUENCE|
    ensures k < |LABEL_POS_SEQUENCE| ==> !LabelHits(LabelTest(g, k), id, ledger)
    ensures forall j :: from <= j < k ==> LabelHits(LabelTest(g, j), id, ledger)
    decreases |LABEL_POS_SEQUENCE| - from
  {
    if from == |LABEL_POS_SEQUENCE| then from
    else if !LabelHits(LabelTest(g, from), id, ledger) then from
    else FirstFit(g, id, ledger, from + 1)
  }

  // ---- the two steps ----

  /** The state of entry i's icon once its step has placed it. */
  predicate IconSettled(e: Entry, ledger: seq<Occupant>) {
    e.iconSpot == At(RectIcon(e.geom).x, RectIcon(e.geom).y) && IconOccupant(e) in ledger
  }

  /** e's label is at position k of LABEL_POS_SEQUENCE, aligned for that position. */
  predicate LabelPlaced(e: Entry, k: nat)
    requires k < |LABEL_POS_SEQUENCE|
  {
    e.labelSpot == At(LabelRect(e.geom, k).x, LabelRect(e.geom, k).y) &&
    e.align == Some(TextAlignForPos(LABEL_POS_SEQUENCE[k]))
  }

  /** The state of a label once its step has placed it: at some position, and in the ledger. */
  predicate LabelSettled(e: Entry, ledger: seq<Occupant>) {
    exists k :: 0 <= k < |LABEL_POS_SEQUENCE| && LabelPlaced(e, k) && LabelOccupant(e, k) in ledger
  }

  /** a and b agree except perhaps in the icon's visibility and position. */
  predicate SameButIcon(a: Entry, b: Entry) {
    a.(iconHidden := b.iconHidden, iconSpot := b.iconSpot) == b
  }

  /** a and b agree except perhaps in the label's visibility, position and alignment. */
  predicate SameButLabel(a: Entry, b: Entry) {
    a.(labelHidden := b.labelHidden, labelSpot := b.labelSpot, align := b.align) == b
  }

  /** The icon loop's body for entry i. */
  function IconStep(p: Pass, i: nat): (q: Pass)
    requires i < |p.entries|
    ensures |q.entries| == |p.entries|
    ensures forall j :: 0 <= j < |p.entries| && j != i ==> q.entries[j] == p.entries[j]
    ensures SameButIcon(q.entries[i], p.entries[i])
    ensures q.entries[i].iconHidden <==> Hits(IconTest(p.entries[i].geom), p.ledger)
    ensures q.entries[i].iconHidden ==> q.entries[i].iconSpot == p.entries[i].iconSpot && q.ledger == p.ledger
    ensures !q.entries[i].iconHidden ==>
      IconSettled(q.entries[i], q.ledger) && q.ledger == p.ledger + [IconOccupant(p.entries[i])]
  {
    var e := p.entries[i];
    var iconRect := RectIcon(e.geom);
    var iconTest := ExpandRect(iconRect, COLLISION_PAD);
    if Hits(iconTest, p.ledger) then
      Pass(p.entries[i := e.(iconHidden := true)], p.ledger)
    else
      Pass(p.entries[i := e.(iconHidden := false, iconSpot := At(iconRect.x, iconRect.y))],
           p.ledger + [Occupant(iconTest, e.poi.id, IconKind)])
  }

  /** The label is not even tried: its icon is hidden or it has no area. */
  predicate LabelSkipped(e: Entry) {
    e.iconHidden || e.geom.labelW <= 0 || e.geom.labelH <= 0
  }

  /** The label loop's body for entry i. */
  function LabelStep(p: Pass, i: nat): (q: Pass)
    requires i < |p.entries|
    ensures |q.entries| == |p.entries|
    ensures forall j :: 0 <= j < |p.entries| && j != i ==> q.entries[j] == p.entries[j]
    ensures SameButLabel(q.entries[i], p.entries[i])
    ensures var e := p.entries[i];
      q.entries[i].labelHidden <==>
        LabelSkipped(e) ||
        forall j :: 0 <= j < |LABEL_POS_SEQUENCE| ==> LabelHits(LabelTest(e.geom, j), e.poi.id, p.ledger)
    ensures q.entries[i].labelHidden ==>
      q.entries[i].labelSpot == p.entries[i].labelSpot && q.entries[i].align == p.entries[i].align && q.ledger == p.ledger
    ensures var e := p.entries[i];
      !q.entries[i].labelHidden ==>
        var k := FirstFit(e.geom, e.poi.id, p.ledger, 0);
        k < |LABEL_POS_SEQUENCE| && LabelPlaced(q.entries[i], k) && q.ledger == p.ledger + [LabelOccupant(e, k)]
  {
    var e := p.entries[i];
    if LabelSkipped(e) then
      Pass(p.entries[i := e.(labelHidden := true)], p.ledger)
    else
      var k := FirstFit(e.geom, e.poi.id, p.ledger, 0);
      if k == |LABEL_POS_SEQUENCE| then
        Pass(p.entries[i := e.(labelHidden := true)], p.ledger)
      else
        var pos := LABEL_POS_SEQUENCE[k];
        var lblRect := RectLabel(e.geom, pos, LABEL_GAP);
        Pass(p.entries[i := e.(labelHidden := false, labelSpot := At(lblRect.x, lblRect.y),
                               align := Some(TextAlignForPos(pos)))],
             p.ledger + [Occupant(ExpandRect(lblRect, COLLISION_PAD), e.poi.id, LabelKind)])
  }

  // ---- the two loops and the pass ----

  predicate ValidOrder(order: seq<nat>, n: nat) {
    forall k :: 0 <= k < |order| ==> order[k] < n
  }

  /** sorted.forEach(icon step). */
  function Icons(p: Pass, order: seq<nat>): (q: Pass)
    requires ValidOrder(order, |p.entries|)
    ensures |q.entries| == |p.entries|
    decreases |order|
  {
    if order == [] then p
    else IconStep(Icons(p, order[..|order| - 1]), order[|order| - 1])
  }

  /** sorted.forEach(label step). */
  function Labels(p: Pass, order: seq<nat>): (q: Pass)
    requires ValidOrder(order, |p.entries|)
    ensures |q.entries| == |p.entries|
    decreases |order|
  {
    if order == [] then p
    else LabelStep(Labels(p, order[..|order| - 1]), order[|order| - 1])
  }

  /** The order the entries are visited in. */
  function VisitOrder(es: seq<Entry>): (o: seq<nat>)
    ensures |o| == |es| && ValidOrder(o, |es|)
    ensures forall x: nat :: x in o <==> x < |es|
  {
    SortOrder(Keys(es), |es|)
  }

  /** The visiting order lists every entry exactly once. */
  lemma VisitOrderDistinct(es: seq<Entry>)
    ensures Distinct(VisitOrder(es))
  {
    SortOrderCorrect(Keys(es), |es|);
  }

  /** Steps 2 to 4 of layout on measured entries: sort, place icons, place labels. */
  function LayoutPass(es: seq<Entry>): (q: Pass)
    ensures |q.entries| == |es|
  {
    var order := VisitOrder(es);
    Labels(Icons(Pass(es, []), order), order)
  }

  // ---- the ledger invariant ----

  /**
   * Any two boxes of the ledger are apart, except an icon and a later label of the same id:
   * the label's own icon is the one box it was allowed to overlap.
   */
  predicate Disjoint(l: seq<Occupant>) {
    forall a, b :: 0 <= a < b < |l| && RectsOverlap(l[a].rect, l[b].rect) ==>
      l[a].kind == IconKind && l[b].kind == LabelKind && l[a].id == l[b].id
  }

  /** l2 is l1 followed by boxes of the given kind only. */
  predicate Extends(l2: seq<Occupant>, l1: seq<Occupant>, kind: Kind) {
    |l1| <= |l2| && l2[..|l1|] == l1 && forall k :: |l1| <= k < |l2| ==> l2[k].kind == kind
  }

  /** Pushing a box that overlaps only icons of its own id, and is a label, keeps the ledger disjoint. */
  lemma {:induction false} PushKeepsDisjoint(l: seq<Occupant>, o: Occupant)
    requires Disjoint(l)
    requires forall a :: 0 <= a < |l| && RectsOverlap(l[a].rect, o.rect) ==>
      l[a].kind == IconKind && o.kind == LabelKind && l[a].id == o.id
    ensures Disjoint(l + [o])
  {
    var l2 := l + [o];
    forall a, b | 0 <= a < b < |l2| && RectsOverlap(l2[a].rect, l2[b].rect)
      ensures l2[a].kind == IconKind && l2[b].kind == LabelKind && l2[a].id == l2[b].id
    {
      if b == |l| {
        assert l2[a] == l[a] && l2[b] == o;
      } else {
        assert l2[a] == l[a] && l2[b] == l[b];
      }
    }
  }

  /** The icon loop changes nothing but icon state, and only that of the entries it visits. */
  lemma {:induction false} IconsFrame(p: Pass, order: seq<nat>)
    requires ValidOrder(order, |p.entries|)
    ensures var q := Icons(p, order);
      && (forall j :: 0 <= j < |p.entries| ==> SameButIcon(q.entries[j], p.entries[j]))
      && (forall j :: 0 <= j < |p.entries| && j !in order ==> q.entries[j] == p.entries[j])
    decreases |order|
  {
    if order != [] {
      var pre := order[..|order| - 1];
      IconsFrame(p, pre);
      var q := Icons(p, order);
      forall j | 0 <= j < |p.entries| && j !in order
        ensures q.entries[j] == p.entries[j]
      {
        assert j !in pre;
      }
    }
  }

  /** The icon loop only appends to the ledger, and only icon boxes. */
  lemma {:induction false} IconsExtend(p: Pass, order: seq<nat>)
    requires ValidOrder(order, |p.entries|)
    ensures Extends(Icons(p, order).ledger, p.ledger, IconKind)
    decreases |order|
  {
    if order != [] {
      var pre := order[..|order| - 1];
      IconsExtend(p, pre);
      var r := Icons(p, pre);
      var q := Icons(p, order);
      assert q.ledger[..|r.ledger|] == r.ledger;
      assert q.ledger[..|p.ledger|] == r.ledger[..|p.ledger|];
    }
  }

  /** The icon loop keeps the ledger disjoint: a box is pushed only when it overlaps none. */
  lemma {:induction false} IconsDisjoint(p: Pass, order: seq<nat>)
    requires ValidOrder(order, |p.entries|) && Disjoint(p.ledger)
    ensures Disjoint(Icons(p, order).ledger)
    decreases |order|
  {
    if order != [] {
      var pre, x := order[..|order| - 1], order[|order| - 1];
      IconsDisjoint(p, pre);
      var r := Icons(p, pre);
      var q := IconStep(r, x);
      if !q.entries[x].iconHidden {
        var o := IconOccupant(r.entries[x]);
        forall a | 0 <= a < |r.ledger|
          ensures !RectsOverlap(r.ledger[a].rect, o.rect)
        {
          assert r.ledger[a] in r.ledger;
        }
        PushKeepsDisjoint(r.ledger, o);
      }
    }
  }

  /** Every shown icon the loop visited is at its rect, and its padded box is in the ledger. */
  lemma {:induction false} IconsSettled(p: Pass, order: seq<nat>)
    requires ValidOrder(order, |p.entries|)
    ensures var q := Icons(p, order);
      forall x :: x in order && !q.entries[x].iconHidden ==> IconSettled(q.entries[x], q.ledger)
    decreases |order|
  {
    if order != [] {
      var pre, x := order[..|order| - 1], order[|order| - 1];
      IconsSettled(p, pre);
      var r := Icons(p, pre);
      var q := IconStep(r, x);
      forall y | y in order && !q.entries[y].iconHidden
        ensures IconSettled(q.entries[y], q.ledger)
      {
        if y != x {
          assert y in pre && q.entries[y] == r.entries[y];
        }
      }
    }
  }

  /** The label loop changes nothing but label state, and only that of the entries it visits. */
  lemma {:induction false} LabelsFrame(p: Pass, order: seq<nat>)
    requires ValidOrder(order, |p.entries|)
    ensures var q := Labels(p, order);
      && (forall j :: 0 <= j < |p.entries| ==> SameButLabel(q.entries[j], p.entries[j]))
      && (forall j :: 0 <= j < |p.entries| && j !in order ==> q.entries[j] == p.entries[j])
    decreases |order|
  {
    if order != [] {
      var pre := order[..|order| - 1];
      LabelsFrame(p, pre);
      var q := Labels(p, order);
      forall j | 0 <= j < |p.entries| && j !in order
        ensures q.entries[j] == p.entries[j]
      {
        assert j !in pre;
      }
    }
  }

  /** The label loop only appends to the ledger, and only label boxes. */
  lemma {:induction false} LabelsExtend(p: Pass, order: seq<nat>)
    requires ValidOrder(order, |p.entries|)
    ensures Extends(Labels(p, order).ledger, p.ledger, LabelKind)
    decreases |order|
  {
    if order != [] {
      var pre := order[..|order| - 1];
      LabelsExtend(p, pre);
      var r := Labels(p, pre);
      var q := Labels(p, order);
      assert q.ledger[..|r.ledger|] == r.ledger;
      assert q.ledger[..|p.ledger|] == r.ledger[..|p.ledger|];
    }
  }

  /**
   * The label loop keeps the ledger disjoint but for own-icon/label pairs: a label is pushed
   * only when the one box it overlaps is its own icon.
   */
  lemma {:induction false} LabelsDisjoint(p: Pass, order: seq<nat>)
    requires ValidOrder(order, |p.entries|) && Disjoint(p.ledger)
    ensures Disjoint(Labels(p, order).ledger)
    decreases |order|
  {
    if order != [] {
      var pre, x := order[..|order| - 1], order[|order| - 1];
      LabelsDisjoint(p, pre);
      var r := Labels(p, pre);
      var q := LabelStep(r, x);
      if !q.entries[x].labelHidden {
        var e := r.entries[x];
        var o := LabelOccupant(e, FirstFit(e.geom, e.poi.id, r.ledger, 0));
        forall a | 0 <= a < |r.ledger| && RectsOverlap(r.ledger[a].rect, o.rect)
          ensures r.ledger[a].kind == IconKind && o.kind == LabelKind && r.ledger[a].id == o.id
        {
          assert r.ledger[a] in r.ledger;
        }
        PushKeepsDisjoint(r.ledger, o);
      }
    }
  }

  /** A label the loop visited is shown only when its icon is shown. */
  lemma {:induction false} LabelsNeedIcon(p: Pass, order: seq<nat>)
    requires ValidOrder(order, |p.entries|)
    ensures var q := Labels(p, order);
      forall x :: x in order && !q.entries[x].labelHidden ==> !q.entries[x].iconHidden
    decreases |order|
  {
    if order != [] {
      var pre, x := order[..|order| - 1], order[|order| - 1];
      LabelsNeedIcon(p, pre);
      var r := Labels(p, pre);
      var q := LabelStep(r, x);
      forall y | y in order && !q.entries[y].labelHidden
        ensures !q.entries[y].iconHidden
      {
        if y != x {
          assert y in pre;
        }
      }
    }
  }

  /** Every shown label the loop visited is at a position of LABEL_POS_SEQUENCE, and in the ledger. */
  lemma {:induction false} LabelsSettled(p: Pass, order: seq<nat>)
    requires ValidOrder(order, |p.entries|)
    ensures var q := Labels(p, order);
      forall x :: x in order && !q.entries[x].labelHidden ==> LabelSettled(q.entries[x], q.ledger)
    decreases |order|
  {
    if order != [] {
      var pre, x := order[..|order| - 1], order[|order| - 1];
      LabelsSettled(p, pre);
      var r := Labels(p, pre);
      var q := LabelStep(r, x);
      forall y | y in order && !q.entries[y].labelHidden
        ensures LabelSettled(q.entries[y], q.ledger)
      {
        if y == x {
          var e := r.entries[x];
          var k := FirstFit(e.geom, e.poi.id, r.ledger, 0);
          assert LabelPlaced(q.entries[x], k) && LabelOccupant(q.entries[x], k) in q.ledger;
        } else {
          assert y in pre && q.entries[y] == r.entries[y];
          var m :| 0 <= m < |LABEL_POS_SEQUENCE| && LabelPlaced(r.entries[y], m) && LabelOccupant(r.entries[y], m) in r.ledger;
          assert LabelOccupant(q.entries[y], m) in q.ledger;
        }
      }
    }
  }

  /** The whole pass keeps every entry's record, geometry and popup. */
  lemma LayoutPassKeeps(es: seq<Entry>)
    ensures var q := LayoutPass(es);
      forall i :: 0 <= i < |es| ==>
        && q.entries[i].poi == es[i].poi && q.entries[i].geom == es[i].geom
        && q.entries[i].popupOpen == es[i].popupOpen && q.entries[i].popup == es[i].popup
  {
    var order := VisitOrder(es);
    var p0 := Pass(es, []);
    IconsFrame(p0, order);
    LabelsFrame(Icons(p0, order), order);
  }

  /** After the pass the only overlapping boxes of the ledger are an icon and its own later label. */
  lemma LayoutPassDisjoint(es: seq<Entry>)
    ensures Disjoint(LayoutPass(es).ledger)
  {
    var order := VisitOrder(es);
    var p0 := Pass(es, []);
    IconsDisjoint(p0, order);
    LabelsDisjoint(Icons(p0, order), order);
  }

  /** After the pass a shown label always belongs to a shown icon. */
  lemma LayoutPassLabelNeedsIcon(es: seq<Entry>)
    ensures var q := LayoutPass(es);
      forall i :: 0 <= i < |es| && !q.entries[i].labelHidden ==> !q.entries[i].iconHidden
  {
    var order := VisitOrder(es);
    var p1 := Icons(Pass(es, []), order);
    LabelsNeedIcon(p1, order);
    var q := Labels(p1, order);
    assert q == LayoutPass(es);
    forall i | 0 <= i < |es| && !q.entries[i].labelHidden
      ensures !q.entries[i].iconHidden
    {
      assert i in order;
    }
  }

  /** After the pass every shown icon and label is at its computed place and occupies its padded box. */
  lemma LayoutPassSettled(es: seq<Entry>)
    ensures var q := LayoutPass(es);
      forall i :: 0 <= i < |es| ==>
        && (!q.entries[i].iconHidden ==> IconSettled(q.entries[i], q.ledger))
        && (!q.entries[i].labelHidden ==> LabelSettled(q.entries[i], q.ledger))
  {
    var order := VisitOrder(es);
    var p0 := Pass(es, []);
    var p1 := Icons(p0, order);
    var q := Labels(p1, order);
    IconsSettled(p0, order);
    LabelsFrame(p1, order);
    LabelsExtend(p1, order);
    LabelsSettled(p1, order);
    forall i | 0 <= i < |es| && !q.entries[i].iconHidden
      ensures IconSettled(q.entries[i], q.ledger)
    {
      assert i in order;
      assert SameButLabel(q.entries[i], p1.entries[i]);
      var m :| 0 <= m < |p1.ledger| && p1.ledger[m] == IconOccupant(p1.entries[i]);
      assert q.ledger[m] == IconOccupant(q.entries[i]);
    }
    forall i | 0 <= i < |es| && !q.entries[i].labelHidden
      ensures LabelSettled(q.entries[i], q.ledger)
    {
      assert i in order;
    }
  }


  // ---- what each entry being visited once adds ----

  /** The last element of a duplicate-free sequence does not occur before it. */
  lemma LastNotInPrefix(order: seq<nat>)
    requires order != [] && Distinct(order)
    ensures order[|order| - 1] !in order[..|order| - 1]
    ensures Distinct(order[..|order| - 1])
  {
    var pre := order[..|order| - 1];
    forall m | 0 <= m < |pre|
      ensures pre[m] != order[|order| - 1]
    {
      assert pre[m] == order[m];
    }
  }

  /** A hidden icon keeps the position it had before the loop: only its class changes. */
  lemma {:induction false} IconsHiddenUntouched(p: Pass, order: seq<nat>)
    requires ValidOrder(order, |p.entries|) && Distinct(order)
    ensures var q := Icons(p, order);
      forall x :: x in order && q.entries[x].iconHidden ==> q.entries[x].iconSpot == p.entries[x].iconSpot
    decreases |order|
  {
    if order != [] {
      var pre, x := order[..|order| - 1], order[|order| - 1];
      LastNotInPrefix(order);
      IconsFrame(p, pre);
      IconsHiddenUntouched(p, pre);
      var q := Icons(p, order);
      forall y | y in order && q.entries[y].iconHidden
        ensures q.entries[y].iconSpot == p.entries[y].iconSpot
      {
        if y != x {
          assert y in pre;
        }
      }
    }
  }

  /** A label that ends hidden keeps the position and alignment it had before the loop. */
  lemma {:induction false} LabelsHiddenUntouched(p: Pass, order: seq<nat>)
    requires ValidOrder(order, |p.entries|) && Distinct(order)
    ensures var q := Labels(p, order);
      forall x :: x in order && q.entries[x].labelHidden ==>
        q.entries[x].labelSpot == p.entries[x].labelSpot && q.entries[x].align == p.entries[x].align
    decreases |order|
  {
    if order != [] {
      var pre, x := order[..|order| - 1], order[|order| - 1];
      LastNotInPrefix(order);
      LabelsFrame(p, pre);
      LabelsHiddenUntouched(p, pre);
      var q := Labels(p, order);
      forall y | y in order && q.entries[y].labelHidden
        ensures q.entries[y].labelSpot == p.entries[y].labelSpot && q.entries[y].align == p.entries[y].align
      {
        if y != x {
          assert y in pre;
        }
      }
    }
  }


  /** The padded icon boxes of the visited entries whose icons are shown, in visiting order. */
  function Committed(es: seq<Entry>, order: seq<nat>): seq<Occupant>
    requires ValidOrder(order, |es|)
    decreases |order|
  {
    if order == [] then []
    else
      var x := order[|order| - 1];
      Committed(es, order[..|order| - 1]) + (if es[x].iconHidden then [] else [IconOccupant(es[x])])
  }

  lemma {:induction false} CommittedFrame(es1: seq<Entry>, es2: seq<Entry>, order: seq<nat>)
    requires |es1| == |es2| && ValidOrder(order, |es1|)
    requires forall x :: x in order ==>
      es1[x].iconHidden == es2[x].iconHidden && IconOccupant(es1[x]) == IconOccupant(es2[x])
    ensures Committed(es1, order) == Committed(es2, order)
    decreases |order|
  {
    if order != [] {
      CommittedFrame(es1, es2, order[..|order| - 1]);
    }
  }

  /** Every committed box is the icon box of a visited entry whose icon is shown. */
  lemma {:induction false} CommittedFrom(es: seq<Entry>, order: seq<nat>, o: Occupant)
    requires ValidOrder(order, |es|) && o in Committed(es, order)
    ensures exists m :: 0 <= m < |order| && !es[order[m]].iconHidden && o == IconOccupant(es[order[m]])
    decreases |order|
  {
    var pre, x := order[..|order| - 1], order[|order| - 1];
    if o in Committed(es, pre) {
      CommittedFrom(es, pre, o);
      var m :| 0 <= m < |pre| && !es[pre[m]].iconHidden && o == IconOccupant(es[pre[m]]);
      assert order[m] == pre[m];
    } else {
      assert order[|order| - 1] == x;
    }
  }

  /** The icon box of every visited entry whose icon is shown is committed. */
  lemma {:induction false} CommittedHas(es: seq<Entry>, order: seq<nat>, m: nat)
    requires ValidOrder(order, |es|) && m < |order| && !es[order[m]].iconHidden
    ensures IconOccupant(es[order[m]]) in Committed(es, order)
    decreases |order|
  {
    var pre := order[..|order| - 1];
    if m < |pre| {
      assert pre[m] == order[m];
      CommittedHas(es, pre, m);
    }
  }

  /** A box is committed exactly when it is the icon box of a visited entry whose icon is shown. */
  lemma CommittedMembers(es: seq<Entry>, order: seq<nat>, o: Occupant)
    requires ValidOrder(order, |es|)
    ensures o in Committed(es, order) <==>
      exists m :: 0 <= m < |order| && !es[order[m]].iconHidden && o == IconOccupant(es[order[m]])
  {
    if o in Committed(es, order) {
      CommittedFrom(es, order, o);
    }
    if exists m :: 0 <= m < |order| && !es[order[m]].iconHidden && o == IconOccupant(es[order[m]]) {
      var m :| 0 <= m < |order| && !es[order[m]].iconHidden && o == IconOccupant(es[order[m]]);
      CommittedHas(es, order, m);
    }
  }

  /** The entry visited k-th has its icon hidden exactly when it hits a box committed before it. */
  predicate GreedyAt(es: seq<Entry>, order: seq<nat>, k: nat)
    requires ValidOrder(order, |es|) && k < |order|
  {
    es[order[k]].iconHidden <==> Hits(IconTest(es[order[k]].geom), Committed(es, order[..k]))
  }

  /** GreedyAt at position k reads only the entries visited up to k. */
  lemma GreedyAtFrame(es1: seq<Entry>, es2: seq<Entry>, pre: seq<nat>, order: seq<nat>, k: nat)
    requires |es1| == |es2| && ValidOrder(order, |es1|) && k < |pre| <= |order|
    requires pre == order[..|pre|]
    requires forall y :: y in pre ==> es1[y] == es2[y]
    requires GreedyAt(es1, pre, k)
    ensures GreedyAt(es2, order, k)
  {
    assert order[..k] == pre[..k];
    assert order[k] == pre[k] && pre[k] in pre;
    forall y | y in pre[..k]
      ensures y in pre
    {
    }
    CommittedFrame(es1, es2, pre[..k]);
  }

  /** Starting from an empty ledger, the icon loop's ledger holds exactly the shown icons it visited. */
  lemma {:induction false} IconsCommit(es: seq<Entry>, order: seq<nat>)
    requires ValidOrder(order, |es|) && Distinct(order)
    ensures var q := Icons(Pass(es, []), order);
      q.ledger == Committed(q.entries, order)
    decreases |order|
  {
    if order != [] {
      var pre, x := order[..|order| - 1], order[|order| - 1];
      LastNotInPrefix(order);
      IconsCommit(es, pre);
      var r := Icons(Pass(es, []), pre);
      var q := IconStep(r, x);
      forall y | y in pre
        ensures r.entries[y] == q.entries[y]
      {
      }
      CommittedFrame(r.entries, q.entries, pre);
      assert IconOccupant(q.entries[x]) == IconOccupant(r.entries[x]);
    }
  }

  /** The icon the loop visits last is hidden exactly when it hits an icon committed before it. */
  lemma GreedyLast(es: seq<Entry>, order: seq<nat>)
    requires ValidOrder(order, |es|) && Distinct(order) && order != []
    ensures GreedyAt(Icons(Pass(es, []), order).entries, order, |order| - 1)
  {
    var pre, x := order[..|order| - 1], order[|order| - 1];
    LastNotInPrefix(order);
    IconsCommit(es, pre);
    var r := Icons(Pass(es, []), pre);
    var q := IconStep(r, x);
    forall y | y in pre
      ensures r.entries[y] == q.entries[y]
    {
    }
    CommittedFrame(r.entries, q.entries, pre);
    assert order[..|pre|] == pre;
  }

  /**
   * Starting from an empty ledger, the icon visited k-th is hidden exactly when its padded box
   * hits one committed before it.
   */
  lemma {:induction false} IconsGreedy(es: seq<Entry>, order: seq<nat>)
    requires ValidOrder(order, |es|) && Distinct(order)
    ensures forall k :: 0 <= k < |order| ==> GreedyAt(Icons(Pass(es, []), order).entries, order, k)
    decreases |order|
  {
    if order != [] {
      var pre, x := order[..|order| - 1], order[|order| - 1];
      LastNotInPrefix(order);
      IconsGreedy(es, pre);
      GreedyLast(es, order);
      var r := Icons(Pass(es, []), pre);
      var q := IconStep(r, x);
      assert q == Icons(Pass(es, []), order);
      forall y | y in pre
        ensures r.entries[y] == q.entries[y]
      {
      }
      forall k | 0 <= k < |pre|
        ensures GreedyAt(q.entries, order, k)
      {
        assert GreedyAt(r.entries, pre, k);
        GreedyAtFrame(r.entries, q.entries, pre, order, k);
      }
    }
  }

  /** GreedyAt spelt out: the committed boxes before k are the shown icons visited before k. */
  lemma GreedyMeaning(es: seq<Entry>, order: seq<nat>, k: nat)
    requires ValidOrder(order, |es|) && k < |order| && GreedyAt(es, order, k)
    ensures es[order[k]].iconHidden <==>
      exists m :: 0 <= m < k && !es[order[m]].iconHidden &&
        RectsOverlap(IconTest(es[order[k]].geom), IconTest(es[order[m]].geom))
  {
    var t := IconTest(es[order[k]].geom);
    var pre := order[..k];
    var c := Committed(es, pre);
    if es[order[k]].iconHidden {
      var o :| o in c && RectsOverlap(t, o.rect);
      CommittedFrom(es, pre, o);
      var m :| 0 <= m < k && !es[pre[m]].iconHidden && o == IconOccupant(es[pre[m]]);
      assert pre[m] == order[m];
    }
    if exists m :: 0 <= m < k && !es[order[m]].iconHidden && RectsOverlap(t, IconTest(es[order[m]].geom)) {
      var m :| 0 <= m < k && !es[order[m]].iconHidden && RectsOverlap(t, IconTest(es[order[m]].geom));
      assert pre[m] == order[m];
      CommittedHas(es, pre, m);
    }
  }

  /** The label loop leaves the icon loop's visibility as it was, and no loop moves a centre. */
  lemma LayoutKeepsIcons(es: seq<Entry>)
    ensures var p1, q := Icons(Pass(es, []), VisitOrder(es)), LayoutPass(es);
      forall x :: 0 <= x < |es| ==>
        q.entries[x].iconHidden == p1.entries[x].iconHidden &&
        p1.entries[x].geom == es[x].geom && q.entries[x].geom == es[x].geom
  {
    var order := VisitOrder(es);
    var p0 := Pass(es, []);
    IconsFrame(p0, order);
    LabelsFrame(Icons(p0, order), order);
  }

  /** GreedyAt carried over to entries with the same icon visibility, stated on the original geometry. */
  lemma GreedyCarried(es1: seq<Entry>, es2: seq<Entry>, base: seq<Entry>, order: seq<nat>, k: nat)
    requires |es1| == |es2| == |base| && ValidOrder(order, |es1|) && k < |order| && GreedyAt(es1, order, k)
    requires forall x :: 0 <= x < |es1| ==> es2[x].iconHidden == es1[x].iconHidden && es1[x].geom == base[x].geom
    ensures es2[order[k]].iconHidden <==>
      exists m :: 0 <= m < k && !es2[order[m]].iconHidden &&
        RectsOverlap(IconTest(base[order[k]].geom), IconTest(base[order[m]].geom))
  {
    GreedyMeaning(es1, order, k);
    if es2[order[k]].iconHidden {
      var m :| 0 <= m < k && !es1[order[m]].iconHidden &&
        RectsOverlap(IconTest(es1[order[k]].geom), IconTest(es1[order[m]].geom));
      assert !es2[order[m]].iconHidden;
    }
  }

  /**
   * In the whole pass the entry visited k-th has its icon hidden exactly when its padded icon
   * box overlaps the padded icon box of an entry visited earlier whose icon is shown: icons
   * of higher priority win, and a hidden icon blocks nothing.
   */
  lemma IconHiddenIffBlocked(es: seq<Entry>)
    ensures var order, q := VisitOrder(es), LayoutPass(es);
      forall k :: 0 <= k < |es| ==>
        (q.entries[order[k]].iconHidden <==>
          exists m :: 0 <= m < k && !q.entries[order[m]].iconHidden &&
            RectsOverlap(IconTest(es[order[k]].geom), IconTest(es[order[m]].geom)))
  {
    var order := VisitOrder(es);
    VisitOrderDistinct(es);
    IconsGreedy(es, order);
    var p1 := Icons(Pass(es, []), order);
    var q := LayoutPass(es);
    LayoutKeepsIcons(es);
    forall k | 0 <= k < |es|
      ensures q.entries[order[k]].iconHidden <==>
        exists m :: 0 <= m < k && !q.entries[order[m]].iconHidden &&
          RectsOverlap(IconTest(es[order[k]].geom), IconTest(es[order[m]].geom))
    {
      GreedyCarried(p1.entries, q.entries, es, order, k);
    }
  }

  /** Of two shown icons, the one visited later does not overlap the one visited earlier. */
  lemma ShownIconsApartInOrder(es: seq<Entry>, order: seq<nat>, a: nat, b: nat)
    requires ValidOrder(order, |es|) && a < b < |order| && GreedyAt(es, order, b)
    requires !es[order[a]].iconHidden && !es[order[b]].iconHidden
    ensures !RectsOverlap(IconTest(es[order[a]].geom), IconTest(es[order[b]].geom))
  {
    GreedyMeaning(es, order, b);
    OverlapSymmetric(IconTest(es[order[a]].geom), IconTest(es[order[b]].geom));
  }

  /** When every visit is greedy, no two visited entries with shown icons have overlapping boxes. */
  lemma ShownIconsApart(es: seq<Entry>, order: seq<nat>, i: nat, j: nat)
    requires ValidOrder(order, |es|) && i in order && j in order && i != j
    requires forall k :: 0 <= k < |order| ==> GreedyAt(es, order, k)
    requires !es[i].iconHidden && !es[j].iconHidden
    ensures !RectsOverlap(IconTest(es[i].geom), IconTest(es[j].geom))
  {
    var ki :| 0 <= ki < |order| && order[ki] == i;
    var kj :| 0 <= kj < |order| && order[kj] == j;
    if ki < kj {
      ShownIconsApartInOrder(es, order, ki, kj);
    } else {
      ShownIconsApartInOrder(es, order, kj, ki);
      OverlapSymmetric(IconTest(es[i].geom), IconTest(es[j].geom));
    }
  }

  /** After the pass no two shown icons have overlapping padded boxes. */
  lemma VisibleIconsApart(es: seq<Entry>, i: nat, j: nat)
    requires i < |es| && j < |es| && i != j
    requires !LayoutPass(es).entries[i].iconHidden && !LayoutPass(es).entries[j].iconHidden
    ensures !RectsOverlap(IconTest(es[i].geom), IconTest(es[j].geom))
  {
    var order := VisitOrder(es);
    VisitOrderDistinct(es);
    IconsGreedy(es, order);
    LayoutKeepsIcons(es);
    ShownIconsApart(Icons(Pass(es, []), order).entries, order, i, j);
  }

  /** A hidden icon or label is left where the previous pass put it. */
  lemma LayoutPassHiddenUntouched(es: seq<Entry>)
    ensures var q := LayoutPass(es);
      forall i :: 0 <= i < |es| ==>
        && (q.entries[i].iconHidden ==> q.entries[i].iconSpot == es[i].iconSpot)
        && (q.entries[i].labelHidden ==> q.entries[i].labelSpot == es[i].labelSpot && q.entries[i].align == es[i].align)
  {
    var order := VisitOrder(es);
    VisitOrderDistinct(es);
    var p0 := Pass(es, []);
    var p1 := Icons(p0, order);
    var q := Labels(p1, order);
    IconsFrame(p0, order);
    IconsHiddenUntouched(p0, order);
    LabelsFrame(p1, order);
    LabelsHiddenUntouched(p1, order);
    forall i | 0 <= i < |es|
      ensures q.entries[i].iconHidden ==> q.entries[i].iconSpot == es[i].iconSpot
      ensures q.entries[i].labelHidden ==> q.entries[i].labelSpot == es[i].labelSpot && q.entries[i].align == es[i].align
    {
      assert i in order;
      assert SameButLabel(q.entries[i], p1.entries[i]) && SameButIcon(p1.entries[i], es[i]);
    }
  }


  // ---- the own-icon exemption ----

  /**
   * Because LABEL_GAP is smaller than twice COLLISION_PAD, the padded box of a label at any
   * position overlaps the padded box of its own icon.
   */
  lemma {:induction false} OwnIconAlwaysOverlaps(g: Geom, pos: string)
    ensures RectsOverlap(ExpandRect(RectLabel(g, pos, LABEL_GAP), COLLISION_PAD), IconTest(g))
  {
    LabelGapFromIcon(g, LABEL_GAP);
    RectLabelDiagonals(g, LABEL_GAP);
    RectLabelCentred(g, LABEL_GAP);
    if !IsNamedPosition(pos) {
      RectLabelDefault(g, pos, LABEL_GAP);
    }
  }

  /**
   * So the exemption is what makes labels possible at all: once an entry's icon is committed,
   * the plain icon test would reject every position of its label.
   */
  lemma ExemptionNeeded(e: Entry, ledger: seq<Occupant>)
    requires IconOccupant(e) in ledger
    ensures forall k :: 0 <= k < |LABEL_POS_SEQUENCE| ==> Hits(LabelTest(e.geom, k), ledger)
  {
    forall k | 0 <= k < |LABEL_POS_SEQUENCE|
      ensures Hits(LabelTest(e.geom, k), ledger)
    {
      OwnIconAlwaysOverlaps(e.geom, LABEL_POS_SEQUENCE[k]);
    }
  }

  /** Every position the label loop tries is one of rectLabel's named cases, never its default. */
  lemma PositionsAreNamed()
    ensures forall k :: 0 <= k < |LABEL_POS_SEQUENCE| ==> IsNamedPosition(LABEL_POS_SEQUENCE[k])
  {
  }
}

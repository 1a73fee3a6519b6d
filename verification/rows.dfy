/**
 * Row normalisation in initPOIs: the rows of the CSV become POI records (docs/poi.js:15-31
 * and poi.js:16-27). A cell that is missing or empty reads as "" (both are falsy for
 * `||`). The numeric columns x, y and priority arrive already converted by JavaScript's
 * unary plus, as a Num: that conversion is not modelled (note that `+''` is 0, so an empty
 * priority cell gives priority 0, not the default).
 */
module Rows {

  /** A number as JavaScript's unary plus produces it: finite, or NaN/Infinity. */
  datatype Num = Finite(value: real) | NonFinite

  /** One parsed CSV row, by column name. `site` and `open` are alternative column names. */
  datatype Row = Row(id: string, x: Num, y: Num, name: string, icon: string, priority: Num,
                     photo: string, desc: string, address: string, phone: string,
                     website: string, site: string, hours: string, open: string)

  /** The record poi.js builds: it carries exactly these fields. */
  datatype Poi = Poi(id: string, x: real, y: real, name: string, icon: string, priority: real,
                     photo: string, desc: string)

  /** The record docs/poi.js builds: the same fields plus the card's contact fields. */
  datatype CardPoi = CardPoi(poi: Poi, address: string, phone: string, website: string, hours: string)

  /** The priority of a row without a finite priority: the lowest precedence. */
  const DEFAULT_PRIORITY: real := 9999.0

  // ---- decimal rendering of the row number in the fallback id ----

  function DigitChar(d: nat): (c: char)
    requires d < 10
    ensures '0' <= c <= '9'
  {
    ['0', '1', '2', '3', '4', '5', '6', '7', '8', '9'][d]
  }

  /** The decimal numeral of n, as a template literal renders a non-negative integer. */
  function Decimal(n: nat): (s: string)
    ensures |s| > 0
    ensures forall k :: 0 <= k < |s| ==> '0' <= s[k] <= '9'
    ensures n > 0 ==> s[0] != '0'
    decreases n
  {
    if n < 10 then [DigitChar(n)] else Decimal(n / 10) + [DigitChar(n % 10)]
  }

  /** The value of a string of decimal digits. */
  function DecimalValue(s: string): nat
    requires forall k :: 0 <= k < |s| ==> '0' <= s[k] <= '9'
  {
    if s == [] then 0 else 10 * DecimalValue(s[..|s| - 1]) + (s[|s| - 1] as int - '0' as int)
  }

  /** Reading the numeral back gives the number, so distinct numbers have distinct numerals. */
  lemma {:induction false} DecimalRoundTrip(n: nat)
    ensures DecimalValue(Decimal(n)) == n
    decreases n
  {
    var s := Decimal(n);
    if n >= 10 {
      DecimalRoundTrip(n / 10);
      assert s[..|s| - 1] == Decimal(n / 10);
    }
  }

  /** The id a row without an id receives: "poi-" and its 1-based position in the CSV. */
  function FallbackId(i: nat): (id: string)
    ensures |id| > 4 && id[..4] == "poi-"
    ensures forall k :: 4 <= k < |id| ==> '0' <= id[k] <= '9'
    ensures DecimalValue(id[4..]) == i + 1
    ensures id[4] != '0'
  {
    var id := "poi-" + Decimal(i + 1);
    assert id[4..] == Decimal(i + 1);
    DecimalRoundTrip(i + 1);
    id
  }

  /** Rows at different positions receive different fallback ids. */
  lemma FallbackIdInjective(i: nat, j: nat)
    requires i != j
    ensures FallbackId(i) != FallbackId(j)
  {
    assert FallbackId(i)[4..] == Decimal(i + 1);
    assert FallbackId(j)[4..] == Decimal(j + 1);
    DecimalRoundTrip(i + 1);
    DecimalRoundTrip(j + 1);
  }

  // ---- one row ----

  /** The filter of the normalisation: rows whose x and y are finite numbers are kept. */
  predicate Keep(r: Row) {
    r.x.Finite? && r.y.Finite?
  }

  /** The record built from row r at index i (counted before filtering), as poi.js builds it. */
  function MakePoi(r: Row, i: nat): (p: Poi)
    requires Keep(r)
    ensures p.id != ""
    ensures r.id != "" ==> p.id == r.id
    ensures r.id == "" ==> p.id == FallbackId(i)
    ensures p.x == r.x.value && p.y == r.y.value
    ensures p.priority == (if r.priority.Finite? then r.priority.value else DEFAULT_PRIORITY)
  {
    Poi(if r.id != "" then r.id else FallbackId(i),
        r.x.value, r.y.value, r.name, r.icon,
        if r.priority.Finite? then r.priority.value else DEFAULT_PRIORITY,
        r.photo, r.desc)
  }

  /** The record built from row r at index i as docs/poi.js builds it. */
  function MakeCardPoi(r: Row, i: nat): (c: CardPoi)
    requires Keep(r)
    ensures c.website == (if r.website != "" then r.website else r.site)
    ensures c.hours == (if r.hours != "" then r.hours else r.open)
    ensures c.poi == MakePoi(r, i)
  {
    CardPoi(MakePoi(r, i), r.address, r.phone,
            if r.website != "" then r.website else r.site,
            if r.hours != "" then r.hours else r.open)
  }

  // ---- the whole table ----

  /**
   * poi.js: rows.map((r, i) => ...).filter(finite x and y). Building a record has no side
   * effect, so filtering first and building the kept rows gives the same sequence.
   */
  function NormalizeRows(rows: seq<Row>): (ps: seq<Poi>)
    ensures |ps| <= |rows|
  {
    if rows == [] then []
    else
      var n := |rows| - 1;
      NormalizeRows(rows[..n]) + (if Keep(rows[n]) then [MakePoi(rows[n], n)] else [])
  }

  /** docs/poi.js: the same normalisation producing card records. */
  function NormalizeCardRows(rows: seq<Row>): (cs: seq<CardPoi>)
    ensures |cs| <= |rows|
  {
    if rows == [] then []
    else
      var n := |rows| - 1;
      NormalizeCardRows(rows[..n]) + (if Keep(rows[n]) then [MakeCardPoi(rows[n], n)] else [])
  }

  /** The indices of the kept rows, in increasing order. */
  function KeptIndices(rows: seq<Row>): (ks: seq<nat>)
    ensures forall k :: 0 <= k < |ks| ==> ks[k] < |rows|
  {
    if rows == [] then []
    else
      var n := |rows| - 1;
      KeptIndices(rows[..n]) + (if Keep(rows[n]) then [n] else [])
  }

  /** The kept indices are strictly increasing: the normalisation keeps input order. */
  lemma {:induction false} KeptIndicesIncreasing(rows: seq<Row>)
    ensures forall a, b :: 0 <= a < b < |KeptIndices(rows)| ==> KeptIndices(rows)[a] < KeptIndices(rows)[b]
  {
    if rows != [] {
      var n := |rows| - 1;
      KeptIndicesIncreasing(rows[..n]);
      var ks, kp := KeptIndices(rows), KeptIndices(rows[..n]);
      forall a | 0 <= a < |kp|
        ensures ks[a] == kp[a] < n
      {
      }
    }
  }

  /** Exactly the rows whose x and y are finite are kept. */
  lemma {:induction false} KeptIndicesMembers(rows: seq<Row>)
    ensures forall i :: 0 <= i < |rows| ==> (Keep(rows[i]) <==> i in KeptIndices(rows))
  {
    if rows != [] {
      var n := |rows| - 1;
      var pre := rows[..n];
      KeptIndicesMembers(pre);
      forall i | 0 <= i < |rows|
        ensures Keep(rows[i]) <==> i in KeptIndices(rows)
      {
        if i < n {
          assert pre[i] == rows[i];
        } else {
          assert n !in KeptIndices(pre);
        }
      }
    }
  }

  /** The k-th record is built from the k-th kept row, with that row's original index. */
  lemma {:induction false} NormalizeRowsSelects(rows: seq<Row>)
    ensures var ps, ks := NormalizeRows(rows), KeptIndices(rows);
      && |ps| == |ks|
      && (forall k :: 0 <= k < |ks| ==> Keep(rows[ks[k]]) && ps[k] == MakePoi(rows[ks[k]], ks[k]))
  {
    if rows != [] {
      var n := |rows| - 1;
      var pre := rows[..n];
      NormalizeRowsSelects(pre);
      var ps, ks := NormalizeRows(rows), KeptIndices(rows);
      var pp, kp := NormalizeRows(pre), KeptIndices(pre);
      forall k | 0 <= k < |ks|
        ensures Keep(rows[ks[k]]) && ps[k] == MakePoi(rows[ks[k]], ks[k])
      {
        if k < |kp| {
          assert ks[k] == kp[k] && ps[k] == pp[k] && rows[kp[k]] == pre[kp[k]];
        }
      }
    }
  }

  /** Both files agree: the docs records, stripped of their card fields, are the poi.js records. */
  lemma {:induction false} CardRowsExtendRows(rows: seq<Row>)
    ensures var cs := NormalizeCardRows(rows);
      |cs| == |NormalizeRows(rows)| &&
      forall k :: 0 <= k < |cs| ==> cs[k].poi == NormalizeRows(rows)[k]
  {
    if rows != [] {
      CardRowsExtendRows(rows[..|rows| - 1]);
    }
  }
}

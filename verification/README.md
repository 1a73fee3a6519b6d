# Point-of-interest overlay of the Krasnaya Polyana map, in Dafny

The map shows a very large zoomable image. Over it, an overlay draws an icon, a text label
and an on-demand popup card for every point of interest (POI) read from a CSV file. This
project models the overlay's declutter and placement engine and proves its properties. It
covers these parts:

- **Geometry kernel** (`geometry.dfy`, module `Geometry`): `expandRect`, the half-open
  `rectsOverlap`, the centre-anchored `rectIcon`, the eight-position `rectLabel` and
  `textAlignForPos` of `docs/utils.js`. `Math.round` is `Floor(x + 1/2)`.
- **Constants** (`config.dfy`, module `Config`): `LABEL_GAP`, `LABEL_POS_SEQUENCE` and
  `COLLISION_PAD` of `docs/config.js`.
- **Priority order** (`order.dfy`, module `Order`): the comparator of the layout sort.
  - `priority | 0` is written out as ToInt32: truncate, reduce mod 2^32, signed.
  - Ids are compared as strings.
  - The sort is a stable insertion sort over entry indices. It is proved to be a duplicate-free,
    sorted arrangement of all indices. When no two entries share both `priority | 0` and id,
    it is the only such arrangement.
- **Declutter pass** (`declutter.dfy`, module `Declutter`): the icon loop and the label loop
  of `layout()`, as step functions folded over the sorted order, with the `occupied` ledger.
- **Popup placement** (`popup.dfy`, module `Popup`): the clamping arithmetic of
  `updateSinglePopupPosition`.
- **Engine** (`engine.dfy`, module `Engine`): the class `Overlay`. It holds the `poiElems`
  entries in an array, and its methods run the geometry, icon and label loops,
  `closeAllPopups`, the click handlers and the popup placement in place. Each method is proved
  equal to the specification function of its effect.
- **Row normalisation** (`rows.dfy`, module `Rows`): both files' versions of the
  CSV-row-to-record mapping.
- **String helpers** (`text.dfy`, `links.dfy`, modules `Text` and `Links`): `trim`,
  `toSafeHref`, `normalizeTel`, `escapeAttr` and `isSafeHref`, with each regular expression
  written out as a matcher.

`layout`, `closeAllPopups`, `toggle` and `updateSinglePopupPosition` are the same in
`docs/poi.js` and `poi.js`:

| code | `docs/poi.js` | `poi.js` |
|---|---|---|
| `layout` | 124-209 | 89-176 |
| `closeAllPopups` | 212-214 | 179-181 |
| `toggle` | 81-87 | 61-66 |
| `updateSinglePopupPosition` | 220-257 | 188-226 |

They are modelled once, and the table below cites mostly `docs/poi.js`. The two files differ
in these ways:

- the record fields (`Rows.MakePoi` against `Rows.MakeCardPoi`)
- the href helper (`isSafeHref` against `toSafeHref`)
- the close button and the document click handler exist only in `docs/poi.js`
- in `poi.js`, a click on the map container (poi.js:78) runs `closeAllPopups` directly

`poi.js` imports `./utils.js` and `./config.js`. Those two files are not part of this model;
they are taken to be the `docs/` versions.

Two behaviours of the code differ from what the overlay is usually described as doing, and
the model follows the code:

- **Toggle**: the click handler runs `closeAllPopups()` before flipping the popup's `is-open`
  class. A second click on the same icon therefore opens its popup again instead of closing
  it. `Engine.ToggleTwiceStaysOpen` states this.
- **Flipped popup**: the popup moved below its icon is not clamped against the top of the
  container. A popup whose icon lies above the container can start above the inner box, as
  long as the flipped popup still ends above maxY; otherwise the bottom clamp moves it down.
  `Popup.FlippedPopupCanStartAboveBox` exhibits one.

## Model

| member | source | states |
|---|---|---|
| Geometry.Round | docs/utils.js:17-18 | Math.round: the result is within half a pixel of x, and halves round up |
| Geometry.ExpandRect | docs/utils.js:3-5 | every edge moves out by pad; the centre stays fixed |
| Geometry.RectsOverlap | docs/utils.js:7-9 | two rects overlap when each starts strictly before the other ends, on both axes; its meaning is given by the overlap lemmas that follow |
| Geometry.ExpandRectAlgebra | docs/utils.js:3-5 | padding by 0 is the identity; padding by a then by b is padding by a+b |
| Geometry.OverlapSymmetric | docs/utils.js:7-9 | the overlap test is symmetric |
| Geometry.TouchingDoNotOverlap | docs/utils.js:7-9 | rects that only share an edge do not overlap, in either order |
| Geometry.OverlapMonotone | docs/utils.js:3-9 | inflating a rect by p >= 0 never removes an overlap |
| Geometry.OverlapMeansSharedPixel | docs/utils.js:7-9 | for non-empty rects, the overlap test holds iff some pixel lies in both |
| Geometry.RectIcon | docs/utils.js:15-22 | the icon rect has the icon's size and is centred on (winX, winY) to within half a pixel |
| Geometry.RectLabel | docs/utils.js:28-77 | every position gives a rect of the label's size |
| Geometry.RectLabelDefault | docs/utils.js:72-75 | an unknown position gives the same rect as S |
| Geometry.RectLabelDiagonals | docs/utils.js:52-70 | SE/SW/NE/NW take x from E or W and y from S or N |
| Geometry.RectLabelCentred | docs/utils.js:32-50 | N and S labels share x and are centred on winX; E and W labels share y and are centred on winY |
| Geometry.LabelGapFromIcon | docs/utils.js:15-50 | the S, N, E and W labels sit exactly LABEL_GAP pixels from the matching edge of the rounded icon rect |
| Geometry.LabelClearOfIcon | docs/utils.js:15-77 | for any position and any gap >= 0, the unpadded label never overlaps its own unpadded icon |
| Geometry.TextAlignForPos | docs/utils.js:80-84 | left iff the position is E, NE or SE; right iff it is W, NW or SW; center otherwise (a lookup table; its partner is AlignMatchesSide, which ties the alignment to the side of the icon the label box lies on) |
| Geometry.AlignMatchesSide | docs/utils.js:28-84 | a left-aligned label starts right of the icon, a right-aligned one ends left of it, a centred one is centred |
| Config.LabelPosSequenceShape | docs/config.js:12-14 | eight pairwise-distinct positions, S first; LABEL_GAP and COLLISION_PAD are positive |
| Declutter.PositionsAreNamed | docs/config.js:13 | every position tried is a named case of rectLabel, never its default |
| Order.ToInt32 | docs/poi.js:146 | the bitwise or with 0 gives a value in the signed 32-bit range, congruent to the truncated x mod 2^32 |
| Order.ToInt32InRange | docs/poi.js:146 | a whole priority within the 32-bit range is unchanged by the bitwise or with 0 |
| Order.Compare | docs/poi.js:145-149 | the comparator never returns 0 |
| Order.IdLess | docs/poi.js:148 | the string `>` of the ids as lexicographic character order; its lemmas make it a strict total order |
| Order.CompareMeaning | docs/poi.js:146-148 | the comparator answers "a first" iff a's key precedes b's or both keys are equal; equal keys give -1 both ways |
| Order.KeyLeTotal | docs/poi.js:145-149 | any two keys are ordered one way or the other |
| Order.KeyLeTransitive | docs/poi.js:145-149 | the key order is transitive |
| Order.SortOrder | docs/poi.js:145 | the sorted order lists exactly the indices below n |
| Order.SortOrderCorrect | docs/poi.js:145-149 | the sorted order has no duplicates and is non-decreasing in the 32-bit priority, then the id |
| Order.SortedPermutationUnique | docs/poi.js:145-149 | with distinct keys, every duplicate-free sorted arrangement of all indices equals the model's order |
| Declutter.GeomOf | docs/poi.js:128-141 | the stored icon size is never zero; a non-zero measured size is kept; a zero width or height becomes ICON_FALLBACK (24) |
| Declutter.Measured | docs/poi.js:128-141 | each entry receives the geometry of its own measurement and keeps everything else |
| Declutter.Hits | docs/poi.js:160 | the icon test: the padded rect overlaps some box of the ledger |
| Declutter.LabelHits | docs/poi.js:189-192 | the label test ignores the label's own icon, so it fails whenever the icon test fails |
| Declutter.FirstFit | docs/poi.js:185-203 | the index of the first position that passes the label test; every earlier position fails it |
| Declutter.IconStep | docs/poi.js:154-171 | the icon is hidden iff its padded rect hits the ledger; a hidden icon keeps its position and adds nothing; a shown one is placed at its rect and pushed; no other entry changes |
| Declutter.LabelStep | docs/poi.js:175-207 | the label is hidden iff its icon is hidden, its size is not positive, or every position hits; otherwise it goes at the first free position with that position's alignment, and its padded rect is pushed |
| Declutter.Icons | docs/poi.js:154-172 | the icon loop as the fold of IconStep over the visit order; it keeps the number of entries, and its effect is given by the Icons lemmas below |
| Declutter.Labels | docs/poi.js:175-208 | the label loop as the fold of LabelStep over the visit order; it keeps the number of entries, and its effect is given by the Labels lemmas below |
| Declutter.VisitOrder | docs/poi.js:145-149 | the visit order has one index per entry and holds exactly the indices of the entries; it is the comparator sort of their keys, whose order Order.SortOrderCorrect proves |
| Declutter.LayoutPass | docs/poi.js:144-208 | sort, icon loop, label loop from an empty ledger; it keeps the number of entries, and its effect is given by the LayoutPass lemmas below |
| Declutter.IconsFrame | docs/poi.js:153-172 | the icon loop changes only icon visibility and position, and only for the entries it visits |
| Declutter.IconsExtend | docs/poi.js:153-172 | the icon loop only appends to the ledger, and only icon boxes |
| Declutter.IconsDisjoint | docs/poi.js:156-171 | the icon loop keeps the ledger disjoint except own icon/label pairs |
| Declutter.IconsSettled | docs/poi.js:154-171 | every shown icon the loop visited is at its rect, and its padded rect is in the ledger |
| Declutter.LabelsFrame | docs/poi.js:174-208 | the label loop changes only label visibility, position and alignment, and only for the entries it visits |
| Declutter.LabelsExtend | docs/poi.js:174-208 | the label loop only appends to the ledger, and only label boxes |
| Declutter.LabelsDisjoint | docs/poi.js:185-207 | the label loop keeps the ledger disjoint except own icon/label pairs: a label overlaps at most its own icon |
| Declutter.LabelsNeedIcon | docs/poi.js:176-183 | a label the loop visited is shown only when its icon is shown |
| Declutter.LabelsSettled | docs/poi.js:185-207 | every shown label the loop visited sits at a position of LABEL_POS_SEQUENCE with its alignment, and its padded rect is in the ledger |
| Declutter.LayoutPassKeeps | docs/poi.js:144-208 | the pass keeps every entry's record, geometry and popup state |
| Declutter.LayoutPassDisjoint | docs/poi.js:144-208 | after the pass the ledger is disjoint except own icon/label pairs |
| Declutter.LayoutPassLabelNeedsIcon | docs/poi.js:144-208 | after the pass a shown label always belongs to a shown icon |
| Declutter.LayoutPassSettled | docs/poi.js:144-208 | after the pass every shown icon and label is at its computed place and its padded rect is in the ledger |
| Declutter.VisitOrderDistinct | docs/poi.js:145-149 | the visiting order lists every entry exactly once |
| Declutter.LayoutKeepsIcons | docs/poi.js:174-208 | the label loop never hides or shows an icon, and no loop moves an entry's geometry |
| Declutter.IconsHiddenUntouched | docs/poi.js:162-165 | a hidden icon keeps its previous left/top |
| Declutter.LabelsHiddenUntouched | docs/poi.js:179-182 | a hidden label keeps its previous left/top and alignment |
| Declutter.LayoutPassHiddenUntouched | docs/poi.js:154-207 | across the whole pass, hidden icons and labels are left where they were |
| Declutter.CommittedMembers | docs/poi.js:166-170 | a box is committed exactly when it is the padded icon rect of a visited entry whose icon is shown |
| Declutter.IconsCommit | docs/poi.js:154-172 | starting from an empty ledger, the ledger after the icon loop holds exactly the shown icons, in visiting order |
| Declutter.IconsGreedy | docs/poi.js:154-172 | starting from an empty ledger, each icon is hidden iff its padded rect hits one committed before it |
| Declutter.IconHiddenIffBlocked | docs/poi.js:145-172 | the k-th icon in priority order is hidden iff its padded rect overlaps the padded rect of an earlier shown icon |
| Declutter.ShownIconsApart | docs/poi.js:154-172 | when every visit is greedy, no two visited entries with shown icons have overlapping padded rects |
| Declutter.VisibleIconsApart | docs/poi.js:154-172 | no two shown icons have overlapping padded rects |
| Declutter.OwnIconAlwaysOverlaps | docs/poi.js:186-192 | at every position, a label's padded rect overlaps its own padded icon rect |
| Declutter.ExemptionNeeded | docs/poi.js:189-192 | without the own-icon exemption, every position of a label whose icon is committed would be rejected |
| Popup.PopupPosition | docs/poi.js:241-253 | left >= minX; left = minX when too wide or when a popup that fits starts left of minX, otherwise the right edge stays inside and a centred popup sticking out right ends exactly at maxX; a popup that fits vertically ends above maxY, exactly at maxY when it was pushed up; a popup taller than the box that sticks out at the bottom starts exactly at minY; default positions that fit are kept; a popup that would start above minY is flipped below the icon and stays there when it fits; the top is above minY only after that unclamped flip |
| Popup.PopupClearsIcon | docs/poi.js:242-247 | the default popup ends at least 7.5 px above the icon's top edge; the flipped one starts at least 7.5 px below its bottom edge |
| Popup.FlippedPopupCanStartAboveBox | docs/poi.js:246-253 | the flipped popup is not clamped to minY: a concrete case starts above the inner box |
| Engine.NewEntry | docs/poi.js:79 | a new entry has nothing hidden, nothing placed and its popup closed |
| Engine.CloseAll | docs/poi.js:212-214 | every popup is closed, and nothing else changes |
| Engine.Toggled | docs/poi.js:81-87 | after the click handler exactly popup i is open, and nothing but the open flags changes |
| Engine.Closed | docs/poi.js:98-101 | popup i is closed and every other entry and field is unchanged |
| Engine.DocumentClick | docs/poi.js:107-113 | only open flags change, and a click elsewhere leaves every popup closed |
| Engine.ToggleOpensExactlyOne | docs/poi.js:81-87 | after a click on an icon or label, exactly that entry's popup is open |
| Engine.ToggleTwiceStaysOpen | docs/poi.js:84-85 | a second click on the same icon leaves its popup open |
| Engine.CloseClearsOnlyOwn | docs/poi.js:98-101 | the close button closes its own popup and changes nothing else |
| Engine.DocumentClickMeaning | docs/poi.js:107-113 | a click outside popups, icons and labels closes every popup; other clicks change nothing |
| Engine.CommandsKeepAtMostOneOpen | docs/poi.js:81-113 | close-all, toggle, close-one and the document click keep at most one popup open |
| Engine.LayoutKeepsOpenFlags | docs/poi.js:124-209 | layout never opens or closes a popup |
| Engine.PlacePopup | docs/poi.js:220-257 | a closed popup changes nothing; an open one goes to PopupPosition for its icon and size, and no other entry and no other field changes |
| Engine.PlaceAllPopups | docs/poi.js:216-218 | every entry ends as updateSinglePopupPosition would leave it with its own measured size |
| Engine.PlaceAllPopupsMovesOnlyOpen | docs/poi.js:216-218 | placing all popups moves only open ones, each to a position at or right of minX, and opens or closes none |
| Engine.Overlay.constructor | docs/poi.js:35-104 | one fresh entry per normalised record, in order |
| Engine.Overlay.Measure | docs/poi.js:128-142 | each entry gets the geometry of its own measurement |
| Engine.Overlay.PlaceIcons | docs/poi.js:151-172 | the loop's result equals the specified icon fold from an empty ledger |
| Engine.Overlay.PlaceLabels | docs/poi.js:174-208 | the loop's result, including its early exit, equals the specified label fold |
| Engine.Overlay.Layout | docs/poi.js:124-209 | nothing happens without a loaded image; otherwise the entries become the specified pass, so a shown label has a shown icon and popups are untouched |
| Engine.Overlay.CloseAllPopups | poi.js:179-181 | the entries become CloseAll of the old entries |
| Engine.Overlay.UpdateSinglePopupPosition | poi.js:188-226 | the let/if clamping gives exactly PopupPosition, only when the popup is open |
| Engine.Overlay.UpdateAllPopupsPosition | docs/poi.js:216-218 | every open popup is placed with its own size |
| Engine.Overlay.Toggle | poi.js:61-66 | close all, flip, place: exactly popup i is open and placed |
| Engine.Overlay.ClosePopup | docs/poi.js:98-101 | the entries become Closed of the old entries |
| Engine.Overlay.HandleDocumentClick | docs/poi.js:107-113 | the entries become DocumentClick of the old entries |
| Rows.FallbackId | docs/poi.js:17 | the fallback id is "poi-" followed by decimal digits, without a leading zero, whose value is the 1-based row number |
| Rows.FallbackIdInjective | poi.js:18 | rows at different positions get different fallback ids |
| Rows.MakePoi | poi.js:17-26 | the id is never empty and falls back to "poi-" + (index+1); priority defaults to 9999 when not finite |
| Rows.MakeCardPoi | docs/poi.js:16-30 | website falls back to site, and hours to open; the record part is the one poi.js builds from the same row |
| Rows.KeptIndicesIncreasing | poi.js:16-27 | the kept indices are strictly increasing: input order is kept |
| Rows.NormalizeRows | poi.js:16-27 | the map-then-filter of poi.js yields at most one record per row; which rows and in what order is given by the KeptIndices lemmas and NormalizeRowsSelects |
| Rows.NormalizeCardRows | docs/poi.js:15-31 | the same normalisation producing card records, at most one per row |
| Rows.KeptIndicesMembers | poi.js:16-27 | exactly the rows with finite x and y are kept |
| Rows.NormalizeRowsSelects | poi.js:16-27 | the k-th record is built from the k-th kept row, with that row's original index |
| Rows.CardRowsExtendRows | docs/poi.js:15-31 | the docs records, without their card fields, are the poi.js records |
| Text.Trim | docs/poi.js:374 | trim's result has no space at either end, is the part of its input that starts right after the leading spaces, and everything after it in the input is a space |
| Text.TrimFixed | docs/poi.js:374 | a trimmed string is its own trim, so trim is idempotent |
| Links.ToSafeHref | docs/poi.js:373-377 | the result is trimmed, matches /^https?:\/\//i, and is the trimmed input either as is or with https:// in front |
| Links.HttpSchemeMeaning | docs/poi.js:375 | the scheme test holds iff the url starts with http:// or https://, ignoring ASCII case |
| Links.MatchesHttpScheme | docs/poi.js:375 | the matcher of /^https?:\/\//i: "http", an optional "s", then "://", ignoring ASCII case |
| Links.ToSafeHrefIdempotent | docs/poi.js:373-377 | toSafeHref is idempotent |
| Links.ToSafeHrefKeepsScheme | docs/poi.js:373-377 | an href that already has an http(s) scheme is only trimmed |
| Links.ToSafeHrefAddsScheme | docs/poi.js:373-377 | an href without an http(s) scheme is trimmed and receives https:// in front |
| Links.NormalizeTel | docs/poi.js:384-387 | the raw field holds only ASCII digits and '+' |
| Links.TelCharsAppend | docs/poi.js:385 | filtering distributes over concatenation, so the kept characters stay in order |
| Links.TelCharsKeepsAll | docs/poi.js:385 | every digit and '+' is kept as often as it occurs |
| Links.NormalizeTelIdempotent | docs/poi.js:384-387 | normalizeTel is idempotent |
| Links.EscapeAttr | docs/poi.js:446-448 | the result contains no double quote |
| Links.EscapeAttrIdempotent | poi.js:337-339 | escapeAttr is idempotent |
| Links.EscapeAttrRoundTrip | docs/poi.js:446-448 | on strings without '&', replacing &quot; by a double quote restores the input |
| Links.HttpColonMeaning | poi.js:326 | "https?:" matches iff the text starts with http: or https:, ignoring case |
| Links.IsSafeHref | poi.js:325-327 | the trimmed href starts, ignoring ASCII case, with one of the alternatives https?: , mailto: , tel: , / or .{1,2}/ of its regular expression |
| Links.IsSafeHrefMeaning | poi.js:325-327 | isSafeHref holds iff the trimmed href starts, ignoring ASCII case, with http:, https:, mailto:, tel:, /, ./ or ../ |
| Links.SchemeHasColon | poi.js:325-327 | a url with an http(s):// scheme matches the https?: alternative of isSafeHref |
| Links.SafeHrefIsSafe | docs/poi.js:373-377 | every href toSafeHref produces passes isSafeHref |

## Left out

- OpenSeadragon set-up, zoom buttons, `waitViewerOpen`, `centerHome` and scrollbar sync (the
  viewer files): configuration of a library outside the model and DOM scroll events.
  `registerLayout`'s requestAnimationFrame coalescing is left out for the same reason; it
  only keeps one pending-frame flag.
- `loadCSV`: fetching plus the PapaParse parser are I/O and a foreign parser. The rows arrive
  as `Rows.Row` values.
- JavaScript's unary-plus conversion of the x, y and priority cells is an input (`Rows.Num`).
  Note that `+''` is 0, so an empty priority cell gives priority 0, not 9999.
- `measureLabel`, `offsetWidth`/`offsetHeight`, `getBoundingClientRect` and
  `imageToWindowCoordinates` are measurements: they are the parameters `Measurement`,
  `PopupSize` and `Container`. The 24-pixel fallback for a zero icon size is kept.
- `Engine.Overlay.UpdateSinglePopupPosition` does not model the transient move to -9999px
  before measuring, because the final assignment overwrites it. The `if (!_geom) return` guard
  is also left out, because `_geom` is always an object and the guard never fires.
- `Engine.NewEntry` uses zero geometry for an entry never laid out, where the code has an
  empty object. Placing a popup before the first layout would compute with NaN in the code.
- The DOM building (`buildPoiCard`, `makeRow`, the SVG icons, `buildPopupContent`),
  `sanitizeAndParseHTML`, `decodeEntities` and `plainUrl` rely on the browser's HTML and URL
  parsers.
- `stopPropagation` and listener wiring are DOM event plumbing. Only their effect on the open
  flags is modelled, via `Engine.ClickTarget`.
- `Order.IdLess` compares strings character by character. JavaScript compares UTF-16 code
  units, which differ from code points only for characters outside the Basic Multilingual
  Plane.
- Geometry.Round, Geometry.RectIcon, Geometry.RectLabel and Popup.PopupPosition compute on
  exact reals, while JavaScript uses IEEE-754 doubles. The model does not capture rounding
  error before `Math.round` or in the clamp comparisons. Where a double result lands on a .5 tie
  or within an ulp of a comparison bound, the code can give a different pixel or take the other
  clamp branch.
- Array.prototype.sort's algorithm is engine-defined. The model uses an insertion sort, and
  `Order.SortedPermutationUnique` shows that the choice does not matter when keys are
  distinct. For entries sharing both `priority | 0` and id, the comparator is inconsistent and
  their relative order is not modelled.
- Because the own-icon exemption is keyed on id, a label may also overlap the icon of a
  different entry with the same id. The model keeps this, since `Declutter.Exempt` compares ids
  only.

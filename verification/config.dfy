/**
 * The decluttering constants of docs/config.js. The tile-source constants of that file
 * (tile URL, image size, tile size, file format, CSV URL) configure the image viewer and
 * the data loader, neither of which is part of this model.
 */
module Config {

  /** Gap, in pixels, between an icon's edge and its label. */
  const LABEL_GAP: nat := 4

  /** Label positions, in the order in which the label pass tries them. */
  const LABEL_POS_SEQUENCE: seq<string> := ["S", "E", "W", "SE", "SW", "N", "NE", "NW"]

  /** Padding, in pixels, added on every side of a rect before it is tested for collision. */
  const COLLISION_PAD: nat := 5

  /** The preference order has eight pairwise-distinct entries and starts with S. */
  lemma LabelPosSequenceShape()
    ensures |LABEL_POS_SEQUENCE| == 8
    ensures LABEL_POS_SEQUENCE[0] == "S"
    ensures forall a, b :: 0 <= a < b < |LABEL_POS_SEQUENCE| ==> LABEL_POS_SEQUENCE[a] != LABEL_POS_SEQUENCE[b]
    ensures LABEL_GAP > 0 && COLLISION_PAD > 0
  {
  }
}

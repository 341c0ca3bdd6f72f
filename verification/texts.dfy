/** Texts as UTF-16 code units, compared under a folding of single characters. */
module Texts {
  import opened Bytes

  type Text = seq<u16>

  /** The locale's lower-casing of one character. */
  type Fold = u16 -> u16

  predicate SameText(a: Text, b: Text, fold: Fold) {
    |a| == |b| && forall i :: 0 <= i < |a| ==> fold(a[i]) == fold(b[i])
  }
}

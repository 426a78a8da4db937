/** Machine words as sequences of bits, lowest first. */
module Bits {
  type Word = seq<bool>

  /** Bit i of w; there are only zeros outside the word. */
  function Bit(w: Word, i: int): bool {
    0 <= i < |w| && w[i]
  }

  /** w >> k, or w << -k for a negative k: bit i of the result is bit i + k of w. */
  function Shift(w: Word, k: int): (r: Word)
    ensures |r| == |w| && forall i :: 0 <= i < |r| ==> r[i] == Bit(w, i + k)
  {
    seq(|w|, i => Bit(w, i + k))
  }

  /** w & the mask of the bits lo, ..., hi - 1 */
  function Keep(w: Word, lo: int, hi: int): (r: Word)
    ensures |r| == |w| && forall i :: 0 <= i < |r| ==> r[i] == (lo <= i < hi && w[i])
  {
    seq(|w|, i => lo <= i < hi && Bit(w, i))
  }

  /** w & the complement of that mask */
  function Clear(w: Word, lo: int, hi: int): (r: Word)
    ensures |r| == |w| && forall i :: 0 <= i < |r| ==> r[i] == (!(lo <= i < hi) && w[i])
  {
    seq(|w|, i => !(lo <= i < hi) && Bit(w, i))
  }

  function Or(a: Word, b: Word): (r: Word)
    requires |a| == |b|
    ensures |r| == |a| && forall i :: 0 <= i < |r| ==> r[i] == (a[i] || b[i])
  {
    seq(|a|, i => Bit(a, i) || Bit(b, i))
  }

  /** The word of `base` bits with ones at lo, ..., hi - 1. */
  function Ones(base: nat, lo: int, hi: int): (r: Word)
    ensures |r| == base && forall i :: 0 <= i < base ==> r[i] == (lo <= i < hi)
  {
    seq(base, i => lo <= i < hi)
  }

  /** (w & m) == m */
  predicate Has(w: Word, m: Word) {
    forall i :: 0 <= i < |m| && m[i] ==> Bit(w, i)
  }

  lemma {:induction false} HasEachOther(a: Word, b: Word)
    requires |a| == |b|
    ensures Has(a, b) && Has(b, a) ==> a == b
  {
    if Has(a, b) && Has(b, a) {
      assert forall i :: 0 <= i < |a| ==> a[i] == b[i];
    }
  }
}

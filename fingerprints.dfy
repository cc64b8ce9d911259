/**
 * Perceptual fingerprints and their distance.
 *
 * A pHash is an 8x8 grid of bits; subtracting two hashes counts the
 * positions where they differ (their Hamming distance). Computing the hash
 * itself is not modelled: a fingerprint is any sequence of bits.
 */
module Fingerprints {

  type Fingerprint = seq<bool>

  /** `a - b` on two hashes of the same shape: the number of differing bits. */
  function Distance(a: Fingerprint, b: Fingerprint): (d: nat)
    requires |a| == |b|
    ensures d <= |a|
    ensures d == 0 <==> a == b
  {
    if a == [] then 0
    else
      var n := |a| - 1;
      Distance(a[..n], b[..n]) + (if a[n] != b[n] then 1 else 0)
  }

  /** The same count, written as the size of the set of differing positions. */
  ghost function DifferingPositions(a: Fingerprint, b: Fingerprint): set<int>
    requires |a| == |b|
  {
    set i | 0 <= i < |a| && a[i] != b[i]
  }

  lemma {:induction false} DistanceCountsDifferingPositions(a: Fingerprint, b: Fingerprint)
    requires |a| == |b|
    ensures Distance(a, b) == |DifferingPositions(a, b)|
  {
    if a != [] {
      var n := |a| - 1;
      DistanceCountsDifferingPositions(a[..n], b[..n]);
      var rest := DifferingPositions(a[..n], b[..n]);
      var last := if a[n] != b[n] then {n} else {};
      assert DifferingPositions(a, b) == rest + last;
      assert rest !! last;
    }
  }

  lemma {:induction false} DistanceSymmetric(a: Fingerprint, b: Fingerprint)
    requires |a| == |b|
    ensures Distance(a, b) == Distance(b, a)
  {
    if a != [] {
      var n := |a| - 1;
      DistanceSymmetric(a[..n], b[..n]);
    }
  }
}

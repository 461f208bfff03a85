/**
 Diffraction vectors: two-dimensional reciprocal-space coordinates, and the
 distance test "within `threshold`" that the unique-vector reduction applies
 to entries of a Euclidean distance matrix.
 */
module Vectors {

  /** One diffraction vector, as the (row, column) pair of a peak position. */
  datatype Vec = Vec(row: real, col: real)

  /** The vectors detected at one scan position, in detection order. */
  type VectorList = seq<Vec>

  /** Squared Euclidean distance between two vectors. */
  function SqDist(a: Vec, b: Vec): real {
    (a.row - b.row) * (a.row - b.row) + (a.col - b.col) * (a.col - b.col)
  }

  /**
   The distance-matrix test `distance <= threshold`. Euclidean distance is
   the non-negative root of `SqDist`, so the test holds exactly when the
   threshold is non-negative and the squared distance is at most its square;
   a negative threshold admits no pair.
   */
  predicate Within(a: Vec, b: Vec, threshold: real) {
    0.0 <= threshold && SqDist(a, b) <= threshold * threshold
  }

  /** The test does not depend on which vector is the row and which the column. */
  lemma WithinSymmetric(a: Vec, b: Vec, threshold: real)
    ensures Within(a, b, threshold) == Within(b, a, threshold)
  {
    assert (b.row - a.row) * (b.row - a.row) == (a.row - b.row) * (a.row - b.row);
    assert (b.col - a.col) * (b.col - a.col) == (a.col - b.col) * (a.col - b.col);
  }

  /** Every vector is at distance zero from itself, so within any non-negative threshold. */
  lemma WithinSelf(a: Vec, threshold: real)
    requires 0.0 <= threshold
    ensures Within(a, a, threshold)
  {
    assert threshold * threshold >= 0.0;
    assert SqDist(a, a) == 0.0;
  }

  /** A vector whose coordinates are both zero, which numpy's `any()` reads as false. */
  predicate IsZero(v: Vec) {
    v.row == 0.0 && v.col == 0.0
  }

  /** numpy `any()` over an array of vectors: some coordinate of some vector is nonzero. */
  predicate AnyNonzero(vs: seq<Vec>) {
    exists i :: 0 <= i < |vs| && !IsZero(vs[i])
  }
}

/**
 Magnitude-based g-vector indexation: theoretical reciprocal-lattice points
 are put in a fixed order, and for every measured vector magnitude the points
 whose magnitude differs from it by less than a threshold (compared as a
 squared difference) are listed together with those squared differences.
 */
module Indexation {
  import opened Common
  import opened Sequences

  /** A reciprocal-lattice point: fractional coordinates and its magnitude. */
  datatype LatticePoint = LatticePoint(x: real, y: real, z: real, mag: real)

  /**
   `a` sorts strictly before `b` under the key `(mag, -x, -y, -z)`: ascending
   magnitude, then descending x, then y, then z.
   */
  predicate KeyBefore(a: LatticePoint, b: LatticePoint) {
    || a.mag < b.mag
    || (a.mag == b.mag && a.x > b.x)
    || (a.mag == b.mag && a.x == b.x && a.y > b.y)
    || (a.mag == b.mag && a.x == b.x && a.y == b.y && a.z > b.z)
  }

  /** `a` sorts no later than `b`. */
  predicate KeyLe(a: LatticePoint, b: LatticePoint) {
    KeyBefore(a, b) || a == b
  }

  /** The key order is total, antisymmetric and transitive: two points with equal keys are equal. */
  lemma KeyOrderIsTotal(a: LatticePoint, b: LatticePoint, c: LatticePoint)
    ensures KeyLe(a, b) || KeyLe(b, a)
    ensures KeyLe(a, b) && KeyLe(b, a) ==> a == b
    ensures KeyLe(a, b) && KeyLe(b, c) ==> KeyLe(a, c)
  {
  }

  /** Non-decreasing under the key. */
  predicate Sorted(s: seq<LatticePoint>) {
    forall i, j :: 0 <= i < j < |s| ==> KeyLe(s[i], s[j])
  }

  /** Inserts `p` before the first entry it does not sort after. */
  function Insert(p: LatticePoint, s: seq<LatticePoint>): (r: seq<LatticePoint>)
    requires Sorted(s)
    ensures Sorted(r)
    ensures multiset(r) == multiset(s) + multiset{p}
    decreases |s|
  {
    if |s| == 0 then [p]
    else if KeyLe(p, s[0]) then
      assert forall j :: 0 <= j < |s| ==> KeyLe(p, s[j]) by {
        forall j | 0 <= j < |s|
          ensures KeyLe(p, s[j])
        {
          KeyOrderIsTotal(p, s[0], s[j]);
        }
      }
      [p] + s
    else
      var rest := Insert(p, s[1..]);
      KeyOrderIsTotal(p, s[0], p);
      assert forall j :: 0 <= j < |rest| ==> KeyLe(s[0], rest[j]) by {
        forall j | 0 <= j < |rest|
          ensures KeyLe(s[0], rest[j])
        {
          assert rest[j] in multiset(rest);
          if rest[j] != p {
            assert rest[j] in multiset(s[1..]);
            var k :| 0 <= k < |s[1..]| && s[1..][k] == rest[j];
            assert s[k + 1] == rest[j];
          }
        }
      }
      assert s == [s[0]] + s[1..];
      [s[0]] + rest
  }

  /** `sorted(recip_pts, key=...)` (line 267). */
  function SortByKey(pts: seq<LatticePoint>): (r: seq<LatticePoint>)
    ensures Sorted(r)
    ensures multiset(r) == multiset(pts)
  {
    if |pts| == 0 then []
    else
      assert pts == [pts[0]] + pts[1..];
      Insert(pts[0], SortByKey(pts[1..]))
  }

  /**
   Two sorted arrangements of the same points are identical: the key
   determines the point, so the sorted list does not depend on the order in
   which the lattice enumeration produced the points.
   */
  lemma {:induction false} SortedUnique(a: seq<LatticePoint>, b: seq<LatticePoint>)
    requires Sorted(a) && Sorted(b)
    requires multiset(a) == multiset(b)
    ensures a == b
    decreases |a|
  {
    assert |a| == |multiset(a)| == |multiset(b)| == |b|;
    if |a| > 0 {
      SortedHeadsAgree(a, b);
      TailsSameMultiset(a, b);
      SortedUnique(a[1..], b[1..]);
      assert a == [a[0]] + a[1..];
      assert b == [b[0]] + b[1..];
    }
  }

  /** Two sorted arrangements of the same non-empty points start with the same point. */
  lemma SortedHeadsAgree(a: seq<LatticePoint>, b: seq<LatticePoint>)
    requires Sorted(a) && Sorted(b) && |a| > 0 && |b| > 0
    requires multiset(a) == multiset(b)
    ensures a[0] == b[0]
  {
    assert a[0] in multiset(b);
    var j :| 0 <= j < |b| && b[j] == a[0];
    assert b[0] in multiset(a);
    var i :| 0 <= i < |a| && a[i] == b[0];
    assert KeyLe(b[0], a[0]) by {
      if j > 0 {
        assert KeyLe(b[0], b[j]);
      }
    }
    assert KeyLe(a[0], b[0]) by {
      if i > 0 {
        assert KeyLe(a[0], a[i]);
      }
    }
    KeyOrderIsTotal(a[0], b[0], a[0]);
  }

  /** Removing the same first point from equal multisets leaves equal multisets. */
  lemma TailsSameMultiset(a: seq<LatticePoint>, b: seq<LatticePoint>)
    requires |a| > 0 && |b| > 0 && a[0] == b[0]
    requires multiset(a) == multiset(b)
    ensures multiset(a[1..]) == multiset(b[1..])
  {
    assert a == [a[0]] + a[1..];
    assert b == [b[0]] + b[1..];
    forall x
      ensures multiset(a[1..])[x] == multiset(b[1..])[x]
    {
      assert multiset(a)[x] == multiset{a[0]}[x] + multiset(a[1..])[x];
      assert multiset(b)[x] == multiset{b[0]}[x] + multiset(b[1..])[x];
    }
  }

  /** Squared magnitude difference `(g - m) * (g - m)` of line 278. */
  function SqDiff(g: LatticePoint, m: real): real {
    Square(g.mag - m)
  }

  function Square(d: real): real {
    d * d
  }

  /** The matches for one measured magnitude: `(calc_peaks[w], peak_diff[w])`. */
  datatype MagnitudeMatch = MagnitudeMatch(points: seq<LatticePoint>, sqDiffs: seq<real>)

  /** `peak_diff < magnitude_threshold`, as a mask over lattice indices. */
  function MatchMask(peaks: seq<LatticePoint>, m: real, threshold: real): nat -> bool {
    (i: nat) => i < |peaks| && SqDiff(peaks[i], m) < threshold
  }

  /**
   Lines 278-280 for one measured magnitude `m`: the lattice points whose
   squared magnitude difference is strictly below the threshold, in lattice
   order, each paired with that squared difference.
   */
  function MatchMagnitude(peaks: seq<LatticePoint>, m: real, threshold: real): (r: MagnitudeMatch)
    ensures ExactlyWhere(r.points, peaks, MatchMask(peaks, m, threshold))
    ensures |r.sqDiffs| == |r.points|
    ensures forall k :: 0 <= k < |r.points| ==> r.sqDiffs[k] == SqDiff(r.points[k], m)
  {
    var peakDiff := seq(|peaks|, i requires 0 <= i < |peaks| => SqDiff(peaks[i], m));
    var w := Where(|peakDiff|, (i: nat) => i < |peakDiff| && peakDiff[i] < threshold);
    assert Enumerates(w, |peaks|, MatchMask(peaks, m, threshold));
    MagnitudeMatch(Gather(peaks, w), Gather(peakDiff, w))
  }

  /** A point is matched exactly when it is a lattice point within the magnitude threshold. */
  lemma MatchMembership(peaks: seq<LatticePoint>, m: real, threshold: real, g: LatticePoint)
    ensures g in MatchMagnitude(peaks, m, threshold).points <==> g in peaks && SqDiff(g, m) < threshold
  {
    var close := (p: LatticePoint) => SqDiff(p, m) < threshold;
    ExactlyWhereValues(MatchMagnitude(peaks, m, threshold).points, peaks, MatchMask(peaks, m, threshold), close, g);
  }

  /** Entries of a sorted list taken at increasing indices stay sorted. */
  lemma GatherSorted(s: seq<LatticePoint>, ks: seq<nat>)
    requires Sorted(s) && Increasing(ks)
    requires forall k :: 0 <= k < |ks| ==> ks[k] < |s|
    ensures Sorted(Gather(s, ks))
  {
    var r := Gather(s, ks);
    forall a, b | 0 <= a < b < |r|
      ensures KeyLe(r[a], r[b])
    {
      assert ks[a] < ks[b];
    }
  }

  /** Matches come out in the sorted lattice order. */
  lemma MatchesSorted(peaks: seq<LatticePoint>, m: real, threshold: real)
    requires Sorted(peaks)
    ensures Sorted(MatchMagnitude(peaks, m, threshold).points)
  {
    var r := MatchMagnitude(peaks, m, threshold);
    var w :| Enumerates(w, |peaks|, MatchMask(peaks, m, threshold)) && r.points == Gather(peaks, w);
    GatherSorted(peaks, w);
  }

  /**
   Lines 277-280 at one scan position: one entry per measured magnitude, in
   measurement order, empty when nothing matches; entry `j` holds the lattice
   points strictly within the threshold of magnitude `j`, each paired with
   its squared difference.
   */
  function IndexPosition(calcPeaks: seq<LatticePoint>, glengths: seq<real>, threshold: real): (r: seq<MagnitudeMatch>)
    ensures |r| == |glengths|
    ensures forall j :: 0 <= j < |r| ==>
              && ExactlyWhere(r[j].points, calcPeaks, MatchMask(calcPeaks, glengths[j], threshold))
              && |r[j].sqDiffs| == |r[j].points|
              && (forall k :: 0 <= k < |r[j].points| ==> r[j].sqDiffs[k] == SqDiff(r[j].points[k], glengths[j]))
  {
    seq(|glengths|, j requires 0 <= j < |glengths| => MatchMagnitude(calcPeaks, glengths[j], threshold))
  }

  /** What the indexation can raise. */
  datatype IndexationError =
    | UndefinedName(name: string)
    | IndexOutOfRange(expression: string)

  /**
   The navigation index tuple has fewer than two entries, so `(i[1], i[0])`
   at line 275 raises `IndexError` on the first scan position.
   */
  predicate ShortIndexTuple(navigationDimension: nat, glengths: seq<seq<real>>) {
    |glengths| > 0 && navigationDimension < 2
  }

  /**
   No lattice point was found, so `calc_peaks` is one-dimensional and
   `calc_peaks.T[1]` at line 278 raises `IndexError` as soon as some scan
   position has a measured magnitude.
   */
  predicate EmptyLatticeReached(recipPts: seq<LatticePoint>, glengths: seq<seq<real>>) {
    |recipPts| == 0 && exists it :: 0 <= it < |glengths| && |glengths[it]| > 0
  }

  /**
   `get_gvector_indexation` with the measured magnitudes `glengths` supplied:
   one list per scan position the axes manager yields, in iteration order.
   The result has one cell per position in the same order. It raises where
   the source raises: an index tuple with fewer than two entries at line 275,
   and an empty lattice at line 278. `angularThreshold` is accepted and, as
   in the source, has no effect.
   */
  function GvectorIndexation(recipPts: seq<LatticePoint>, navigationDimension: nat, glengths: seq<seq<real>>,
                             magnitudeThreshold: real, angularThreshold: Option<real>)
    : (r: Result<seq<seq<MagnitudeMatch>>, IndexationError>)
    ensures r.Failure? <==> ShortIndexTuple(navigationDimension, glengths) || EmptyLatticeReached(recipPts, glengths)
    ensures ShortIndexTuple(navigationDimension, glengths) ==> r == Failure(IndexOutOfRange("i[1]"))
    ensures !ShortIndexTuple(navigationDimension, glengths) && EmptyLatticeReached(recipPts, glengths) ==>
              r == Failure(IndexOutOfRange("calc_peaks.T[1]"))
    ensures r.Success? ==> |r.value| == |glengths|
    ensures r.Success? ==> forall it :: 0 <= it < |r.value| ==> |r.value[it]| == |glengths[it]|
  {
    if ShortIndexTuple(navigationDimension, glengths) then Failure(IndexOutOfRange("i[1]"))
    else if EmptyLatticeReached(recipPts, glengths) then Failure(IndexOutOfRange("calc_peaks.T[1]"))
    else
      var calcPeaks := SortByKey(recipPts);
      Success(seq(|glengths|, it requires 0 <= it < |glengths| => IndexPosition(calcPeaks, glengths[it], magnitudeThreshold)))
  }

  /**
   Every cell of a successful result holds, for its measured magnitude,
   exactly the lattice points within the magnitude threshold, in key order,
   each paired with its squared magnitude difference.
   */
  lemma IndexationMatches(recipPts: seq<LatticePoint>, navigationDimension: nat, glengths: seq<seq<real>>,
                          magnitudeThreshold: real, angularThreshold: Option<real>, it: nat, j: nat)
    requires it < |glengths| && j < |glengths[it]|
    ensures var r := GvectorIndexation(recipPts, navigationDimension, glengths, magnitudeThreshold, angularThreshold);
      r.Success? ==>
        var cell := r.value[it][j];
        && Sorted(cell.points)
        && |cell.sqDiffs| == |cell.points|
        && (forall k :: 0 <= k < |cell.points| ==> cell.sqDiffs[k] == SqDiff(cell.points[k], glengths[it][j]))
        && (forall g :: g in cell.points <==> g in recipPts && SqDiff(g, glengths[it][j]) < magnitudeThreshold)
  {
    var r := GvectorIndexation(recipPts, navigationDimension, glengths, magnitudeThreshold, angularThreshold);
    if r.Success? {
      var calcPeaks := SortByKey(recipPts);
      var m := glengths[it][j];
      var cell := r.value[it][j];
      assert cell == MatchMagnitude(calcPeaks, m, magnitudeThreshold);
      MatchesSorted(calcPeaks, m, magnitudeThreshold);
      forall g
        ensures g in cell.points <==> g in recipPts && SqDiff(g, m) < magnitudeThreshold
      {
        MatchMembership(calcPeaks, m, magnitudeThreshold, g);
        assert g in calcPeaks <==> g in multiset(calcPeaks);
        assert g in recipPts <==> g in multiset(recipPts);
      }
    }
  }

  /** The result does not depend on the order in which the lattice points were enumerated. */
  lemma IndexationOrderIndependent(pts1: seq<LatticePoint>, pts2: seq<LatticePoint>, navigationDimension: nat,
                                   glengths: seq<seq<real>>, magnitudeThreshold: real, angularThreshold: Option<real>)
    requires multiset(pts1) == multiset(pts2)
    ensures GvectorIndexation(pts1, navigationDimension, glengths, magnitudeThreshold, angularThreshold)
         == GvectorIndexation(pts2, navigationDimension, glengths, magnitudeThreshold, angularThreshold)
  {
    assert |pts1| == |multiset(pts1)| == |multiset(pts2)| == |pts2|;
    SortedUnique(SortByKey(pts1), SortByKey(pts2));
  }

  /** The angular threshold is accepted but does not change the result (lines 283-286). */
  lemma AngularThresholdIgnored(recipPts: seq<LatticePoint>, navigationDimension: nat, glengths: seq<seq<real>>,
                                magnitudeThreshold: real, a1: Option<real>, a2: Option<real>)
    ensures GvectorIndexation(recipPts, navigationDimension, glengths, magnitudeThreshold, a1)
         == GvectorIndexation(recipPts, navigationDimension, glengths, magnitudeThreshold, a2)
  {
  }

  /**
   The loop of lines 274-281 as written, over `visitedPositions` scan
   positions of a signal with `navigationDimension` navigation axes. With
   fewer than two axes `(i[1], i[0])` at line 275 raises `IndexError` first.
   Otherwise the body reads `glengths`, a name the method never binds and
   the module never assigns, so the first position raises `NameError`. Only
   a loop that visits no position returns.
   */
  function GvectorIndexationAsWritten(navigationDimension: nat, visitedPositions: nat): (r: Result<(), IndexationError>)
    ensures r.Failure? <==> visitedPositions > 0
    ensures r.Failure? ==> (r.error.UndefinedName? <==> navigationDimension >= 2)
  {
    if visitedPositions == 0 then Success(())
    else if navigationDimension < 2 then Failure(IndexOutOfRange("i[1]"))
    else Failure(UndefinedName("glengths"))
  }

  /**
   On a signal with two or more navigation axes and a scan position, the code
   as written raises `NameError`, while the corrected indexation returns one
   cell per position whenever the lattice is not empty. With fewer axes both
   raise the same `IndexError`.
   */
  lemma AsWrittenNeverIndexes(recipPts: seq<LatticePoint>, navigationDimension: nat, glengths: seq<seq<real>>,
                              magnitudeThreshold: real, angularThreshold: Option<real>)
    requires |glengths| > 0
    ensures navigationDimension >= 2 ==>
              GvectorIndexationAsWritten(navigationDimension, |glengths|) == Failure(UndefinedName("glengths"))
    ensures navigationDimension >= 2 && |recipPts| > 0 ==>
              var r := GvectorIndexation(recipPts, navigationDimension, glengths, magnitudeThreshold, angularThreshold);
              r.Success? && |r.value| == |glengths|
    ensures navigationDimension < 2 ==>
              && GvectorIndexationAsWritten(navigationDimension, |glengths|) == Failure(IndexOutOfRange("i[1]"))
              && GvectorIndexation(recipPts, navigationDimension, glengths, magnitudeThreshold, angularThreshold)
                 == Failure(IndexOutOfRange("i[1]"))
  {
  }
}

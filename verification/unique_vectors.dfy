/**
 The unique-vector reduction of a diffraction-vector signal: seed the
 accepted list with one vector, grow it position by position with the
 vectors an index selector picks from a distance matrix, then delete, in one
 batch, every accepted vector that has another accepted vector within the
 distance threshold.
 */
module UniqueVectors {
  import opened Common
  import opened Sequences
  import opened Vectors

  /**
   `distance_matrix(accepted, candidates)`: one row per accepted vector, one
   column per candidate. Entries are squared Euclidean distances.
   */
  datatype DistanceMatrix = DistanceMatrix(rows: nat, cols: nat, entries: seq<seq<real>>)

  function DistancesBetween(accepted: seq<Vec>, candidates: seq<Vec>): (m: DistanceMatrix)
    ensures m.rows == |accepted| && m.cols == |candidates| && |m.entries| == m.rows
    ensures forall i :: 0 <= i < m.rows ==> |m.entries[i]| == m.cols
    ensures forall i, j :: 0 <= i < m.rows && 0 <= j < m.cols ==>
              m.entries[i][j] == SqDist(accepted[i], candidates[j])
  {
    var entries := seq(|accepted|, i requires 0 <= i < |accepted| =>
                     seq(|candidates|, j requires 0 <= j < |candidates| =>
                       SqDist(accepted[i], candidates[j])));
    DistanceMatrix(|accepted|, |candidates|, entries)
  }

  /**
   `get_indices_from_distance_matrix(distances, threshold)`. Its rule is not
   part of this model; every property below holds whatever it picks.
   */
  type Selector = (DistanceMatrix, real) -> seq<nat>

  /** The selector only returns column indices of the matrix it is given. */
  ghost predicate ValidSelector(select: Selector) {
    forall m: DistanceMatrix, t: real, k :: 0 <= k < |select(m, t)| ==> select(m, t)[k] < m.cols
  }

  /** The navigation grid of a signal: one or two navigation dimensions. */
  datatype Navigation =
    | Line(positions: seq<VectorList>)
    | Plane(grid: seq<seq<VectorList>>)

  /** A numpy grid: every row of a plane has the same length. */
  predicate Rectangular(nav: Navigation) {
    nav.Plane? ==> forall r :: 0 <= r < |nav.grid| ==> |nav.grid[r]| == |nav.grid[0]|
  }

  /** Rows of a plane concatenated in order. */
  function RowMajor(grid: seq<seq<VectorList>>): (r: seq<VectorList>)
  {
    if |grid| == 0 then [] else grid[0] + RowMajor(grid[1..])
  }

  /** The scan positions in `_iterate_signal` order: row-major for a plane. */
  function Positions(nav: Navigation): seq<VectorList> {
    match nav
    case Line(ps) => ps
    case Plane(g) => RowMajor(g)
  }

  /** Rows that are all empty flatten to nothing. */
  lemma {:induction false} RowMajorOfEmptyRows(grid: seq<seq<VectorList>>)
    requires forall r :: 0 <= r < |grid| ==> |grid[r]| == 0
    ensures RowMajor(grid) == []
  {
    if |grid| > 0 {
      RowMajorOfEmptyRows(grid[1..]);
    }
  }

  /**
   `self.data[0,0][0]` (plane) or `self.data[0][0]` (line); `None` where that
   indexing raises. When the seed exists it is the first vector of the first
   scan position in iteration order, ragged grids included; on a numpy grid
   it exists exactly when that position exists and is not empty.
   */
  function Seed(nav: Navigation): (r: Option<Vec>)
    ensures r.Some? ==> |Positions(nav)| > 0 && |Positions(nav)[0]| > 0 && r.value == Positions(nav)[0][0]
    ensures Rectangular(nav) ==> (r.Some? <==> |Positions(nav)| > 0 && |Positions(nav)[0]| > 0)
  {
    match nav
    case Line(ps) =>
      if |ps| > 0 && |ps[0]| > 0 then Some(ps[0][0]) else None
    case Plane(g) =>
      if |g| > 0 && |g[0]| > 0 && |g[0][0]| > 0 then Some(g[0][0][0])
      else if |g| > 0 && |g[0]| == 0 && Rectangular(nav) then RowMajorOfEmptyRows(g); None
      else None
  }

  /** The indices the selector picks at one scan position. */
  function Selection(accepted: seq<Vec>, vlist: VectorList, threshold: real, select: Selector): (sel: seq<nat>)
    requires ValidSelector(select)
    ensures forall k :: 0 <= k < |sel| ==> sel[k] < |vlist|
  {
    var m := DistancesBetween(accepted, vlist);
    assert forall k :: 0 <= k < |select(m, threshold)| ==> select(m, threshold)[k] < m.cols;
    select(m, threshold)
  }

  /**
   One pass of the loop at lines 123-130: the accepted list only grows; what
   is appended is exactly the selected candidates, in selector order; and they
   are appended exactly when one of them has a nonzero coordinate.
   */
  function Step(accepted: seq<Vec>, vlist: VectorList, threshold: real, select: Selector): (r: seq<Vec>)
    requires ValidSelector(select)
    ensures accepted <= r
    ensures var sel := Selection(accepted, vlist, threshold, select);
      && (|r| == |accepted| || |r| == |accepted| + |sel|)
      && (forall k :: 0 <= k < |r| - |accepted| ==> r[|accepted| + k] == vlist[sel[k]])
      && (|r| > |accepted| <==> exists k :: 0 <= k < |sel| && !IsZero(vlist[sel[k]]))
  {
    var batch := Gather(vlist, Selection(accepted, vlist, threshold, select));
    if AnyNonzero(batch) then accepted + batch else accepted
  }

  /** The whole loop at lines 123-130, over the positions in iteration order. */
  function Accumulate(accepted: seq<Vec>, positions: seq<VectorList>, threshold: real, select: Selector): (r: seq<Vec>)
    requires ValidSelector(select)
    ensures accepted <= r
    decreases |positions|
  {
    if |positions| == 0 then accepted
    else Accumulate(Step(accepted, positions[0], threshold, select), positions[1..], threshold, select)
  }

  /** Everything the loop appends was measured at some scan position. */
  lemma {:induction false} AccumulateProvenance(accepted: seq<Vec>, positions: seq<VectorList>, threshold: real, select: Selector)
    requires ValidSelector(select)
    ensures forall i :: |accepted| <= i < |Accumulate(accepted, positions, threshold, select)| ==>
              exists p :: 0 <= p < |positions| && Accumulate(accepted, positions, threshold, select)[i] in positions[p]
    decreases |positions|
  {
    if |positions| > 0 {
      var next := Step(accepted, positions[0], threshold, select);
      AccumulateProvenance(next, positions[1..], threshold, select);
      var r := Accumulate(accepted, positions, threshold, select);
      assert r == Accumulate(next, positions[1..], threshold, select);
      var sel := Selection(accepted, positions[0], threshold, select);
      forall i | |accepted| <= i < |r|
        ensures exists p :: 0 <= p < |positions| && r[i] in positions[p]
      {
        if i < |next| {
          assert r[i] == next[i];
          assert next[i] == positions[0][sel[i - |accepted|]];
          assert r[i] in positions[0];
        } else {
          var p :| 0 <= p < |positions[1..]| && r[i] in positions[1..][p];
          assert r[i] in positions[p + 1];
        }
      }
    } else {
      assert Accumulate(accepted, positions, threshold, select) == accepted;
    }
  }

  /** Positions holding only `[0, 0]` vectors never change the accepted list. */
  lemma {:induction false} ZeroPositionsAddNothing(accepted: seq<Vec>, positions: seq<VectorList>, threshold: real, select: Selector)
    requires ValidSelector(select)
    requires forall p, k :: 0 <= p < |positions| && 0 <= k < |positions[p]| ==> IsZero(positions[p][k])
    ensures Accumulate(accepted, positions, threshold, select) == accepted
    decreases |positions|
  {
    if |positions| > 0 {
      var sel := Selection(accepted, positions[0], threshold, select);
      assert forall k :: 0 <= k < |sel| ==> IsZero(positions[0][sel[k]]);
      assert Step(accepted, positions[0], threshold, select) == accepted;
      ZeroPositionsAddNothing(accepted, positions[1..], threshold, select);
    }
  }

  /** How many entries of `vs` lie within `threshold` of `v`: `np.sum(distances[:, i] <= threshold)`. */
  function CountWithin(vs: seq<Vec>, v: Vec, threshold: real): (n: nat)
    ensures n <= |vs|
  {
    if |vs| == 0 then 0
    else (if Within(vs[0], v, threshold) then 1 else 0) + CountWithin(vs[1..], v, threshold)
  }

  /** The count is positive exactly when some entry lies within threshold. */
  lemma {:induction false} CountPositive(vs: seq<Vec>, v: Vec, threshold: real)
    ensures CountWithin(vs, v, threshold) > 0 <==>
              exists i :: 0 <= i < |vs| && Within(vs[i], v, threshold)
  {
    if |vs| > 0 {
      var rest := vs[1..];
      CountPositive(rest, v, threshold);
      if exists i :: 0 <= i < |vs| && Within(vs[i], v, threshold) {
        var i :| 0 <= i < |vs| && Within(vs[i], v, threshold);
        if i > 0 {
          assert rest[i - 1] == vs[i];
        }
      }
      if exists i :: 0 <= i < |rest| && Within(rest[i], v, threshold) {
        var i :| 0 <= i < |rest| && Within(rest[i], v, threshold);
        assert vs[i + 1] == rest[i];
      }
    }
  }

  /** The count exceeds one exactly when two different entries lie within threshold. */
  lemma {:induction false} CountExceedsOne(vs: seq<Vec>, v: Vec, threshold: real)
    ensures CountWithin(vs, v, threshold) > 1 <==>
              exists i, j :: 0 <= i < j < |vs| && Within(vs[i], v, threshold) && Within(vs[j], v, threshold)
  {
    if |vs| > 0 {
      var rest := vs[1..];
      CountExceedsOne(rest, v, threshold);
      CountPositive(rest, v, threshold);
      if exists i, j :: 0 <= i < j < |vs| && Within(vs[i], v, threshold) && Within(vs[j], v, threshold) {
        var i, j :| 0 <= i < j < |vs| && Within(vs[i], v, threshold) && Within(vs[j], v, threshold);
        assert rest[j - 1] == vs[j];
        if i > 0 {
          assert rest[i - 1] == vs[i];
        }
      }
      if exists i, j :: 0 <= i < j < |rest| && Within(rest[i], v, threshold) && Within(rest[j], v, threshold) {
        var i, j :| 0 <= i < j < |rest| && Within(rest[i], v, threshold) && Within(rest[j], v, threshold);
        assert vs[i + 1] == rest[i] && vs[j + 1] == rest[j];
      }
      if Within(vs[0], v, threshold) && exists j :: 0 <= j < |rest| && Within(rest[j], v, threshold) {
        var j :| 0 <= j < |rest| && Within(rest[j], v, threshold);
        assert vs[j + 1] == rest[j];
      }
    }
  }

  /** Column `i` of the self-distance matrix has more than one entry within threshold (line 136). */
  predicate Crowded(vs: seq<Vec>, i: nat, threshold: real)
    requires i < |vs|
  {
    CountWithin(vs, vs[i], threshold) > 1
  }

  /**
   Because every vector is within a non-negative threshold of itself, a
   vector is marked exactly when some OTHER accepted vector lies within the
   threshold of it; with a negative threshold nothing is marked.
   */
  lemma CrowdedIffNeighbour(vs: seq<Vec>, i: nat, threshold: real)
    requires i < |vs|
    ensures Crowded(vs, i, threshold) <==>
              exists j :: 0 <= j < |vs| && j != i && Within(vs[j], vs[i], threshold)
  {
    CountExceedsOne(vs, vs[i], threshold);
    if exists j :: 0 <= j < |vs| && j != i && Within(vs[j], vs[i], threshold) {
      var j :| 0 <= j < |vs| && j != i && Within(vs[j], vs[i], threshold);
      WithinSelf(vs[i], threshold);
      if j < i {
        assert Within(vs[j], vs[i], threshold) && Within(vs[i], vs[i], threshold);
      } else {
        assert Within(vs[i], vs[i], threshold) && Within(vs[j], vs[i], threshold);
      }
    }
    if Crowded(vs, i, threshold) {
      var a, b :| 0 <= a < b < |vs| && Within(vs[a], vs[i], threshold) && Within(vs[b], vs[i], threshold);
      if a == i {
        assert b != i;
      }
    }
  }

  /** Both members of a close pair are marked. */
  lemma CloseVectorsBothMarked(vs: seq<Vec>, i: nat, j: nat, threshold: real)
    requires i < |vs| && j < |vs| && i != j
    requires Within(vs[i], vs[j], threshold)
    ensures Crowded(vs, i, threshold) && Crowded(vs, j, threshold)
  {
    WithinSymmetric(vs[i], vs[j], threshold);
    CrowdedIffNeighbour(vs, i, threshold);
    CrowdedIffNeighbour(vs, j, threshold);
  }

  /** The deletion mask of the internal check. */
  function CrowdedMask(vs: seq<Vec>, threshold: real): nat -> bool {
    (i: nat) => i < |vs| && Crowded(vs, i, threshold)
  }

  /** The complement of the deletion mask: the survivors. */
  function SurvivorMask(vs: seq<Vec>, threshold: real): nat -> bool {
    (i: nat) => i < |vs| && !Crowded(vs, i, threshold)
  }

  /** `delete_indices` (lines 132-137): the marked indices, in increasing order. */
  function DeleteMarks(vs: seq<Vec>, threshold: real): (marks: seq<nat>)
    ensures Increasing(marks)
    ensures forall k :: 0 <= k < |marks| ==> marks[k] < |vs|
    ensures forall i :: 0 <= i < |vs| ==> (i in marks <==> Crowded(vs, i, threshold))
  {
    var marks := Where(|vs|, CrowdedMask(vs, threshold));
    assert forall i :: 0 <= i < |vs| && i in marks ==> Crowded(vs, i, threshold) by {
      forall i | 0 <= i < |vs| && i in marks
        ensures Crowded(vs, i, threshold)
      {
        var k :| 0 <= k < |marks| && marks[k] == i;
      }
    }
    marks
  }

  /**
   The internal check (lines 132-138): deletion is decided on the full
   pre-deletion matrix and applied in one batch, so the result lists, in their
   original order, exactly the accepted vectors that are not crowded.
   */
  function ConsistencyPass(vs: seq<Vec>, threshold: real): (r: seq<Vec>)
    ensures ExactlyWhere(r, vs, SurvivorMask(vs, threshold))
  {
    var marks := DeleteMarks(vs, threshold);
    var r := DeleteIndices(vs, marks);
    ExactlyWhereCongruent(r, vs, (i: nat) => i !in marks, SurvivorMask(vs, threshold));
    r
  }

  /** No two entries at different positions are within threshold of each other. */
  predicate Separated(vs: seq<Vec>, threshold: real) {
    forall a, b :: 0 <= a < b < |vs| ==> !Within(vs[a], vs[b], threshold)
  }

  /** A vector that is not crowded has no other vector within threshold of it. */
  lemma UncrowdedHasNoNeighbour(vs: seq<Vec>, i: nat, j: nat, threshold: real)
    requires i < |vs| && j < |vs| && i != j
    requires !Crowded(vs, i, threshold)
    ensures !Within(vs[i], vs[j], threshold)
  {
    if Within(vs[i], vs[j], threshold) {
      CloseVectorsBothMarked(vs, i, j, threshold);
    }
  }

  /** Gathering survivors at an enumeration of the survivor mask yields a separated list. */
  lemma SurvivorsSeparated(vs: seq<Vec>, threshold: real, ks: seq<nat>)
    requires Enumerates(ks, |vs|, SurvivorMask(vs, threshold))
    ensures Separated(Gather(vs, ks), threshold)
  {
    var r := Gather(vs, ks);
    forall a, b | 0 <= a < b < |r|
      ensures !Within(r[a], r[b], threshold)
    {
      var i, j := ks[a], ks[b];
      assert i < j < |vs|;
      assert SurvivorMask(vs, threshold)(i);
      UncrowdedHasNoNeighbour(vs, i, j, threshold);
    }
  }

  /** Any two vectors that survive the internal check are more than the threshold apart. */
  lemma ConsistencyPassSeparates(vs: seq<Vec>, threshold: real)
    ensures Separated(ConsistencyPass(vs, threshold), threshold)
  {
    var r := ConsistencyPass(vs, threshold);
    var ks :| Enumerates(ks, |vs|, SurvivorMask(vs, threshold)) && r == Gather(vs, ks);
    SurvivorsSeparated(vs, threshold, ks);
  }

  /** A separated list passes the internal check unchanged. */
  lemma SeparatedIsFixedPoint(vs: seq<Vec>, threshold: real)
    requires Separated(vs, threshold)
    ensures ConsistencyPass(vs, threshold) == vs
  {
    forall i | 0 <= i < |vs|
      ensures !Crowded(vs, i, threshold)
    {
      CrowdedIffNeighbour(vs, i, threshold);
      forall j | 0 <= j < |vs| && j != i
        ensures !Within(vs[j], vs[i], threshold)
      {
        WithinSymmetric(vs[j], vs[i], threshold);
      }
    }
    WhereEmpty(|vs|, CrowdedMask(vs, threshold));
    DeleteNothing(vs);
  }

  /** Running the internal check on its own output deletes nothing. */
  lemma ConsistencyPassIdempotent(vs: seq<Vec>, threshold: real)
    ensures ConsistencyPass(ConsistencyPass(vs, threshold), threshold) == ConsistencyPass(vs, threshold)
  {
    ConsistencyPassSeparates(vs, threshold);
    SeparatedIsFixedPoint(ConsistencyPass(vs, threshold), threshold);
  }

  /** The internal check leaves a list unchanged exactly when that list is separated. */
  lemma FixedPointIffSeparated(vs: seq<Vec>, threshold: real)
    ensures ConsistencyPass(vs, threshold) == vs <==> Separated(vs, threshold)
  {
    ConsistencyPassSeparates(vs, threshold);
    if Separated(vs, threshold) {
      SeparatedIsFixedPoint(vs, threshold);
    }
  }

  /** `get_unique_vectors` fails only where the seed indexing raises. */
  datatype ReduceError = EmptySeed

  /**
   `get_unique_vectors(distance_threshold)` (lines 102-142): fails exactly
   when there is no seed vector, and otherwise returns a list in which any two
   vectors are more than the threshold apart.
   */
  function GetUniqueVectors(nav: Navigation, threshold: real, select: Selector): (r: Result<seq<Vec>, ReduceError>)
    requires ValidSelector(select)
    ensures r.Failure? <==> Seed(nav).None?
    ensures r.Success? ==> Separated(r.value, threshold)
  {
    match Seed(nav)
    case None => Failure(EmptySeed)
    case Some(seed) =>
      var accepted := Accumulate([seed], Positions(nav), threshold, select);
      ConsistencyPassSeparates(accepted, threshold);
      Success(ConsistencyPass(accepted, threshold))
  }

  /** The internal check only removes vectors. */
  lemma ConsistencyPassKeepsMembers(vs: seq<Vec>, threshold: real)
    ensures forall v :: v in ConsistencyPass(vs, threshold) ==> v in vs
  {
    var out := ConsistencyPass(vs, threshold);
    var survivors := SurvivorMask(vs, threshold);
    forall v | v in out
      ensures v in vs
    {
      ExactlyWhereMembers(out, vs, survivors, v);
      var i: nat :| i < |vs| && survivors(i) && vs[i] == v;
    }
  }

  /** Every vector the loop accumulates from the seed was measured at some scan position. */
  lemma AccumulatedWereMeasured(nav: Navigation, threshold: real, select: Selector)
    requires ValidSelector(select)
    requires Seed(nav).Some?
    ensures forall v :: v in Accumulate([Seed(nav).value], Positions(nav), threshold, select) ==>
              exists p :: 0 <= p < |Positions(nav)| && v in Positions(nav)[p]
  {
    var seed := Seed(nav).value;
    var ps := Positions(nav);
    var accepted := Accumulate([seed], ps, threshold, select);
    AccumulateProvenance([seed], ps, threshold, select);
    forall v | v in accepted
      ensures exists p :: 0 <= p < |ps| && v in ps[p]
    {
      var i :| 0 <= i < |accepted| && accepted[i] == v;
      if i == 0 {
        assert accepted[0] == seed == ps[0][0];
        assert v in ps[0];
      } else {
        assert |[seed]| <= i;
      }
    }
  }

  /** Every vector `get_unique_vectors` returns was measured at some scan position. */
  lemma UniqueVectorsProvenance(nav: Navigation, threshold: real, select: Selector)
    requires ValidSelector(select)
    ensures var r := GetUniqueVectors(nav, threshold, select);
      r.Success? ==> forall v :: v in r.value ==>
        exists p :: 0 <= p < |Positions(nav)| && v in Positions(nav)[p]
  {
    if Seed(nav).Some? {
      var accepted := Accumulate([Seed(nav).value], Positions(nav), threshold, select);
      assert GetUniqueVectors(nav, threshold, select) == Success(ConsistencyPass(accepted, threshold));
      AccumulatedWereMeasured(nav, threshold, select);
      ConsistencyPassKeepsMembers(accepted, threshold);
    }
  }

  /**
   A grid whose every vector is `[0, 0]` reduces to the single vector
   `[0, 0]`, whatever the threshold and the selector: every batch is dropped
   by the `any()` test and a single vector is never crowded.
   */
  lemma AllOriginGridCollapses(nav: Navigation, threshold: real, select: Selector)
    requires ValidSelector(select)
    requires Seed(nav).Some?
    requires forall p, k :: 0 <= p < |Positions(nav)| && 0 <= k < |Positions(nav)[p]| ==>
               IsZero(Positions(nav)[p][k])
    ensures GetUniqueVectors(nav, threshold, select) == Success([Vec(0.0, 0.0)])
  {
    var seed := Seed(nav).value;
    assert seed == Vec(0.0, 0.0);
    ZeroPositionsAddNothing([seed], Positions(nav), threshold, select);
    SeparatedIsFixedPoint([seed], threshold);
  }

  /** When every measured vector is `v`, every vector the reduction returns is `v`. */
  lemma ResultHoldsOnlyCopies(nav: Navigation, v: Vec, threshold: real, select: Selector)
    requires ValidSelector(select)
    requires forall p, k :: 0 <= p < |Positions(nav)| && 0 <= k < |Positions(nav)[p]| ==> Positions(nav)[p][k] == v
    ensures var r := GetUniqueVectors(nav, threshold, select);
      r.Success? ==> forall i :: 0 <= i < |r.value| ==> r.value[i] == v
  {
    var r := GetUniqueVectors(nav, threshold, select);
    if r.Success? {
      UniqueVectorsProvenance(nav, threshold, select);
      forall i | 0 <= i < |r.value|
        ensures r.value[i] == v
      {
        assert r.value[i] in r.value;
        var p :| 0 <= p < |Positions(nav)| && r.value[i] in Positions(nav)[p];
        var k :| 0 <= k < |Positions(nav)[p]| && Positions(nav)[p][k] == r.value[i];
      }
    }
  }

  /** When every measured vector is `v`, the loop accumulates only copies of `v`, starting from the seed copy. */
  lemma AccumulatedCopies(nav: Navigation, v: Vec, threshold: real, select: Selector)
    requires ValidSelector(select)
    requires Seed(nav).Some?
    requires forall p, k :: 0 <= p < |Positions(nav)| && 0 <= k < |Positions(nav)[p]| ==> Positions(nav)[p][k] == v
    ensures Seed(nav).value == v
    ensures forall i :: 0 <= i < |Accumulate([v], Positions(nav), threshold, select)| ==>
              Accumulate([v], Positions(nav), threshold, select)[i] == v
  {
    var acc := Accumulate([v], Positions(nav), threshold, select);
    AccumulatedWereMeasured(nav, threshold, select);
    forall i | 0 <= i < |acc|
      ensures acc[i] == v
    {
      assert acc[i] in acc;
      var p :| 0 <= p < |Positions(nav)| && acc[i] in Positions(nav)[p];
      var k :| 0 <= k < |Positions(nav)[p]| && Positions(nav)[p][k] == acc[i];
    }
  }

  /** Two or more copies of one vector all mark each other, so the internal check deletes them all. */
  lemma CopiesAllDeleted(vs: seq<Vec>, v: Vec, threshold: real)
    requires 0.0 <= threshold && |vs| >= 2
    requires forall i :: 0 <= i < |vs| ==> vs[i] == v
    ensures ConsistencyPass(vs, threshold) == []
  {
    WithinSelf(v, threshold);
    forall i | 0 <= i < |vs|
      ensures Crowded(vs, i, threshold)
    {
      CrowdedIffNeighbour(vs, i, threshold);
      var j := if i == 0 then 1 else 0;
      assert Within(vs[j], vs[i], threshold);
    }
    var survivors := SurvivorMask(vs, threshold);
    var r := ConsistencyPass(vs, threshold);
    var ks :| Enumerates(ks, |vs|, survivors) && r == Gather(vs, ks);
    WhereEmpty(|vs|, survivors);
    EnumeratesUnique(ks, Where(|vs|, survivors), |vs|, survivors);
  }

  /**
   A grid whose every vector is the same `v` reduces, under a non-negative
   threshold, to `[v]` or to nothing. It is `[v]` exactly when the loop
   appended nothing to the seed, and nothing exactly when it appended a copy,
   because copies mark each other. A zero `v` is never appended, since every
   batch of copies then fails the `any()` test.
   */
  lemma CopiesCollapse(nav: Navigation, v: Vec, threshold: real, select: Selector)
    requires ValidSelector(select)
    requires 0.0 <= threshold
    requires forall p, k :: 0 <= p < |Positions(nav)| && 0 <= k < |Positions(nav)[p]| ==> Positions(nav)[p][k] == v
    ensures var r := GetUniqueVectors(nav, threshold, select);
      r.Success? ==> r.value == [v] || r.value == []
    ensures var r := GetUniqueVectors(nav, threshold, select);
      var grown := |Accumulate([v], Positions(nav), threshold, select)| > 1;
      r.Success? ==> (r.value == [v] <==> !grown) && (r.value == [] <==> grown)
    ensures IsZero(v) && Seed(nav).Some? ==> GetUniqueVectors(nav, threshold, select) == Success([v])
  {
    var r := GetUniqueVectors(nav, threshold, select);
    if r.Success? {
      AccumulatedCopies(nav, v, threshold, select);
      var acc := Accumulate([v], Positions(nav), threshold, select);
      assert r.value == ConsistencyPass(acc, threshold);
      assert [v] <= acc;
      if |acc| > 1 {
        CopiesAllDeleted(acc, v, threshold);
      } else {
        assert acc == [v];
        SeparatedIsFixedPoint(acc, threshold);
      }
    }
    if IsZero(v) && Seed(nav).Some? {
      AllOriginGridCollapses(nav, threshold, select);
    }
  }
}

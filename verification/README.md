# Unique diffraction vectors, magnitude indexation and peak markers

This Dafny project models three pieces of a 4D-STEM diffraction toolkit and
proves properties about each:

* **Unique-vector reduction** (`DiffractionVectors.get_unique_vectors`).
  A signal holds a list of diffraction vectors at every scan position. The
  reduction works in three steps:
  * it seeds an accepted list with the first vector of the first position;
  * it walks every position in iteration order, appending the candidates an
    index selector picks from the accepted-to-candidate distance matrix,
    provided the picked batch has a nonzero coordinate;
  * it finishes with a batch deletion of every accepted vector that has
    another accepted vector within the distance threshold.

  Modules `Vectors`, `Sequences` and `UniqueVectors`.
* **Magnitude indexation** (`DiffractionVectors.get_gvector_indexation`).
  Theoretical reciprocal-lattice points are sorted by the key
  `(magnitude, -x, -y, -z)`. For every measured magnitude at every scan
  position, the model lists the points whose squared magnitude difference is
  strictly below the threshold, together with those squared differences.
  Module `Indexation`.
* **Marker tools** (`pixstem/marker_tools.py`). These functions turn
  per-position peak lists and line lists into HyperSpy-style point and
  line-segment markers, and store the markers in a signal's metadata under
  the names `marker<N>`. The padded coordinate arrays use the sentinel -1000.
  Modules `MarkerTools` and `Decimal`.

`Common` holds `Option` and `Result`.

Modelling choices:

* **Distance test.** Coordinates are mathematical reals, and the distance
  test is stated on squared distances. `Within(a, b, t)` holds exactly when
  `t >= 0` and the squared distance is at most `t * t`. This equals
  "Euclidean distance `<= t`" for the non-negative root, and a negative
  threshold admits nothing, as in the source.
* **Selector.** The index selector `get_indices_from_distance_matrix` lives
  outside the modelled files. It is a function parameter, and the only thing
  assumed about it is that it returns column indices of the matrix it is
  given. Every property of the reduction holds for every such selector.
* **Iteration order.** The scan positions are given in iteration order: the
  navigation vector for one navigation dimension, row-major order for two.
  The loop at `diffraction_vectors.py:123` visits every position, including
  the one the seed came from, and the model does the same. Re-selecting the
  seed's neighbours there is up to the selector.
* **Indexation errors.** The indexation takes the navigation dimension and
  raises where the code raises. The index tuple `(i[1], i[0])` at line 275
  needs two navigation axes. An empty lattice leaves `calc_peaks`
  one-dimensional, so `calc_peaks.T[1]` at line 278 fails once a magnitude is
  looked up.
* **Empty matches.** The indexation appends an entry for every measured
  magnitude, also when no lattice point matches it (an empty pair of
  arrays). The model keeps these entries.
* **Marker numbering.** `_add_permanent_markers_to_signal` numbers new
  markers from the number of entries already in the `Markers` node, not from
  the names already used. A node holding only `marker1` therefore gets its
  next marker stored as `marker1` too, and the old entry is replaced
  (`MarkerTools.NumberingCanReuseAName`). This is modelled as the behaviour
  of the code.
* **2D line lists.** `_get_2d_line_segment_list` reads each entry as
  `[x1, y1, x2, y2]` without the row/column swap of the 4D version, and it
  ignores its `signal_axes` argument. Both are modelled.

## Model

| member | source | states |
|---|---|---|
| Vectors.WithinSymmetric | pyxem/signals/diffraction_vectors.py:134 | the distance test between two accepted vectors gives the same answer whichever of them indexes the row of the self-distance matrix |
| Vectors.WithinSelf | pyxem/signals/diffraction_vectors.py:134-136 | the diagonal of the self-distance matrix is within any non-negative threshold, so every column counts itself |
| Sequences.Where | pyxem/signals/diffraction_vectors.py:279 | `np.where` on a mask lists, in increasing order, exactly the indices where the mask holds |
| Sequences.EnumeratesUnique | pyxem/signals/diffraction_vectors.py:279 | an increasing list of exactly the indices where a mask holds is unique, so the result of `np.where` is determined by the mask |
| Sequences.DeleteIndices | pyxem/signals/diffraction_vectors.py:138 | `np.delete` keeps, in order, exactly the elements whose index is not listed for deletion |
| Sequences.DeleteNothing | pyxem/signals/diffraction_vectors.py:138 | deleting an empty index list returns the array unchanged |
| Sequences.ExactlyWhereValues | pyxem/signals/diffraction_vectors.py:279 | when the mask tests a property of each element, the selected elements are exactly the elements with the property |
| UniqueVectors.Seed | pyxem/signals/diffraction_vectors.py:118-121 | whenever the seed indexing succeeds, also for ragged grids, it picks the first vector of the first scan position in iteration order; on a numpy grid it succeeds exactly when that position exists and holds a vector |
| UniqueVectors.Selection | pyxem/signals/diffraction_vectors.py:125-127 | the indices picked from the accepted-to-candidate matrix address candidates of this position |
| UniqueVectors.Step | pyxem/signals/diffraction_vectors.py:124-130 | one position either leaves the accepted list unchanged or appends the whole selected batch after it; it appends exactly when some selected candidate has a nonzero coordinate |
| UniqueVectors.Accumulate | pyxem/signals/diffraction_vectors.py:123-130 | the loop over positions only ever extends the accepted list |
| UniqueVectors.AccumulateProvenance | pyxem/signals/diffraction_vectors.py:123-130 | every vector the loop appends was measured at one of the visited positions |
| UniqueVectors.ZeroPositionsAddNothing | pyxem/signals/diffraction_vectors.py:129-130 | positions holding only `[0, 0]` vectors never change the accepted list, because every batch fails the `any()` test |
| UniqueVectors.CountWithin | pyxem/signals/diffraction_vectors.py:136 | the number of accepted vectors within threshold of a column never exceeds the number of accepted vectors |
| UniqueVectors.CountPositive | pyxem/signals/diffraction_vectors.py:136 | the count is positive exactly when some entry is within threshold |
| UniqueVectors.CountExceedsOne | pyxem/signals/diffraction_vectors.py:136 | the count is above one exactly when two different entries are within threshold |
| UniqueVectors.CrowdedIffNeighbour | pyxem/signals/diffraction_vectors.py:134-137 | a column is marked for deletion exactly when some other accepted vector lies within the threshold of it |
| UniqueVectors.CloseVectorsBothMarked | pyxem/signals/diffraction_vectors.py:134-137 | when two accepted vectors are within threshold of each other, both are marked, not just one |
| UniqueVectors.UncrowdedHasNoNeighbour | pyxem/signals/diffraction_vectors.py:134-137 | an unmarked vector has no other accepted vector within the threshold of it |
| UniqueVectors.DeleteMarks | pyxem/signals/diffraction_vectors.py:132-137 | `delete_indices` lists, in increasing order and within range, exactly the indices whose columns are marked |
| UniqueVectors.ConsistencyPass | pyxem/signals/diffraction_vectors.py:132-138 | the internal check keeps, in original order, exactly the accepted vectors that are not marked; the decision uses the full pre-deletion matrix |
| UniqueVectors.SurvivorsSeparated | pyxem/signals/diffraction_vectors.py:132-138 | the unmarked vectors, taken in order, are pairwise more than the threshold apart |
| UniqueVectors.ConsistencyPassSeparates | pyxem/signals/diffraction_vectors.py:132-138 | after the internal check no two remaining vectors are within the threshold of each other |
| UniqueVectors.SeparatedIsFixedPoint | pyxem/signals/diffraction_vectors.py:132-138 | a list with no close pair passes the internal check unchanged |
| UniqueVectors.ConsistencyPassIdempotent | pyxem/signals/diffraction_vectors.py:132-138 | running the internal check on its own output deletes nothing more |
| UniqueVectors.FixedPointIffSeparated | pyxem/signals/diffraction_vectors.py:132-138 | the internal check leaves a list unchanged if and only if the list has no close pair |
| UniqueVectors.ConsistencyPassKeepsMembers | pyxem/signals/diffraction_vectors.py:138 | the internal check only removes vectors, it never introduces one |
| UniqueVectors.GetUniqueVectors | pyxem/signals/diffraction_vectors.py:118-138 | the reduction fails exactly when the seed indexing has no vector to take; otherwise any two returned vectors are more than the threshold apart |
| UniqueVectors.AccumulatedWereMeasured | pyxem/signals/diffraction_vectors.py:118-130 | the seed and every vector accumulated after it were measured at some scan position |
| UniqueVectors.UniqueVectorsProvenance | pyxem/signals/diffraction_vectors.py:118-138 | every returned unique vector was measured at some scan position |
| UniqueVectors.AllOriginGridCollapses | pyxem/signals/diffraction_vectors.py:118-138 | a grid whose vectors are all `[0, 0]` reduces to the single vector `[0, 0]`, for every threshold and selector |
| UniqueVectors.ResultHoldsOnlyCopies | pyxem/signals/diffraction_vectors.py:118-138 | when every measured vector is the same vector, every returned vector is that vector |
| UniqueVectors.AccumulatedCopies | pyxem/signals/diffraction_vectors.py:118-130 | when every measured vector is the same vector, the seed and everything the loop appends are copies of it |
| UniqueVectors.CopiesAllDeleted | pyxem/signals/diffraction_vectors.py:132-138 | two or more copies of one vector all mark each other under a non-negative threshold, so the internal check deletes every one |
| UniqueVectors.CopiesCollapse | pyxem/signals/diffraction_vectors.py:118-138 | a grid of copies of one vector reduces, under a non-negative threshold, to that vector alone exactly when the loop appended nothing to the seed, and to nothing exactly when it appended a copy; for the zero vector, which the `any()` test never appends, it is always that vector alone |
| Indexation.KeyOrderIsTotal | pyxem/signals/diffraction_vectors.py:267 | the sort key orders any two lattice points, and two points with the same key are the same point |
| Indexation.Insert | pyxem/signals/diffraction_vectors.py:267 | inserting a point into a key-sorted list keeps it sorted and adds exactly that point |
| Indexation.SortByKey | pyxem/signals/diffraction_vectors.py:267 | `calc_peaks` is ordered by ascending magnitude, then descending x, y and z, and is a permutation of the lattice points |
| Indexation.SortedUnique | pyxem/signals/diffraction_vectors.py:267 | two key-sorted arrangements of the same points are identical |
| Indexation.MatchMagnitude | pyxem/signals/diffraction_vectors.py:278-280 | for one magnitude, the matched points are exactly the lattice points whose squared magnitude difference is strictly below the threshold, in lattice order, each paired with that squared difference |
| Indexation.MatchMembership | pyxem/signals/diffraction_vectors.py:278-280 | a point is matched if and only if it is a lattice point whose squared magnitude difference is strictly below the threshold |
| Indexation.MatchesSorted | pyxem/signals/diffraction_vectors.py:279 | matches taken from the sorted lattice stay in key order |
| Indexation.IndexPosition | pyxem/signals/diffraction_vectors.py:276-281 | a scan position gets one entry per measured magnitude, in measurement order, including magnitudes nothing matches; entry `j` holds exactly the lattice points strictly within the threshold of magnitude `j`, in lattice order, each paired with its squared difference |
| Indexation.GvectorIndexation | pyxem/signals/diffraction_vectors.py:264-288 | the indexation raises `IndexError` exactly when a scan position is visited with fewer than two navigation axes (line 275) or a magnitude is looked up in an empty lattice (line 278); otherwise it has one cell per scan position, each with one entry per measured magnitude there |
| Indexation.IndexationMatches | pyxem/signals/diffraction_vectors.py:274-281 | every entry of a successful indexation holds, in key order, exactly the lattice points within the magnitude threshold of its measured magnitude, with their squared differences |
| Indexation.IndexationOrderIndependent | pyxem/signals/diffraction_vectors.py:265-267 | the result does not depend on the order in which the lattice points were enumerated |
| Indexation.AngularThresholdIgnored | pyxem/signals/diffraction_vectors.py:283-286 | the angular threshold is accepted but never changes the result |
| Indexation.GvectorIndexationAsWritten | pyxem/signals/diffraction_vectors.py:274-281 | as written, the loop fails exactly when it visits a scan position: with fewer than two navigation axes on `i[1]` (`IndexError`), otherwise on the undefined `glengths` (`NameError`) |
| Indexation.AsWrittenNeverIndexes | pyxem/signals/diffraction_vectors.py:274-281 | with two or more navigation axes and a scan position the code as written raises `NameError`, while the corrected indexation yields one cell per position for a non-empty lattice; with fewer axes both raise the same `IndexError` |
| Decimal.NatToString | pixstem/marker_tools.py:183 | `'{0}'.format(n)` of a count is a non-empty digit string without a leading zero; 0 renders as the single digit `0` |
| Decimal.ParseNatToString | pixstem/marker_tools.py:183 | reading the rendered numeral back gives the number |
| Decimal.NatToStringInjective | pixstem/marker_tools.py:183 | two numbers render to the same numeral if and only if they are equal |
| MarkerTools.Trunc | pixstem/marker_tools.py:52-55 | `int()` on an index value truncates toward zero, for negative values as well |
| MarkerTools.MaxLength | pixstem/marker_tools.py:33-39 | the scan (also used at lines 88-94) finds the length of the longest present list over all positions, skipping `None`; it is 0 when nothing is present |
| MarkerTools.MaxLengthUnique | pixstem/marker_tools.py:33-39 | the longest length is determined by the grid |
| MarkerTools.FillCell | pixstem/marker_tools.py:47-55 | the entries of one cell overwrite its first slots, in order, and later slots keep their fill |
| MarkerTools.FillRow | pixstem/marker_tools.py:44-55 | along one navigation row, every slot holds its entry's coordinate or the sentinel, and `None` cells stay all sentinel |
| MarkerTools.FillArray | pixstem/marker_tools.py:41-55 | the marker array is nx by ny by max-length, and slot `[ix, iy, ip]` holds the coordinate of entry `ip` at `(ix, iy)`, or -1000 where there is no such entry |
| MarkerTools.LayerOfFilled | pixstem/marker_tools.py:59-61 | `array[..., ip]` of a filled array is the per-position layer of slot `ip` |
| MarkerTools.PointsMarkerList | pixstem/marker_tools.py:5-63 | there is one point marker per peak slot up to the longest peak list; marker `ip` places at each position that position's `ip`-th peak, or -1000 |
| MarkerTools.PointMarkerAtPosition | pixstem/marker_tools.py:41-61 | at each position, marker `ip` has x from the peak's column `peak[1]` on axis 0 and y from its row `peak[0]` on axis 1; padding slots hold -1000 in both |
| MarkerTools.UncalibratedPointSwapsIndices | pixstem/marker_tools.py:48-50 | without signal axes, a marker's x is `peak[1]` and its y is `peak[0]` |
| MarkerTools.LineSegmentList4d | pixstem/marker_tools.py:66-126 | there is one line-segment marker per line slot up to the longest line list, with per-position endpoint arrays padded with -1000 |
| MarkerTools.SegmentMarkerAtPosition | pixstem/marker_tools.py:96-124 | at each position, segment `ip` runs from `(line[1], line[0])` to `(line[3], line[2])` on axes 0 and 1; padding slots hold -1000 in all four |
| MarkerTools.LineSegmentList2d | pixstem/marker_tools.py:129-157 | there is one segment per entry, in list order; each segment's endpoints read back as the entry `[x1, y1, x2, y2]`, and each carries the given style |
| MarkerTools.LineSegmentList2dIgnoresAxes | pixstem/marker_tools.py:129-157 | the 2D conversion gives the same markers whatever signal axes are passed |
| MarkerTools.MarkerName | pixstem/marker_tools.py:183 | a marker name is `marker` followed by the canonical numeral of the marker number: digits without a leading zero (`marker0` for 0) that read back as the number |
| MarkerTools.MarkerNameInjective | pixstem/marker_tools.py:183 | distinct numbers give distinct marker names |
| MarkerTools.NewNames | pixstem/marker_tools.py:182-183 | the names generated for a list contain `marker<n>` for every number in the list's range |
| MarkerTools.NewNamesCount | pixstem/marker_tools.py:182-183 | a list of `k` markers generates `k` distinct names |
| MarkerTools.StoreEach | pixstem/marker_tools.py:182-184 | storing marker after marker adds exactly the new names to the node's keys |
| MarkerTools.StoreEachPlaces | pixstem/marker_tools.py:182-184 | marker `i` of the list ends up stored under `marker<extra + i>` |
| MarkerTools.StoreEachKeeps | pixstem/marker_tools.py:182-184 | every entry whose name is not one of the new names keeps its value |
| MarkerTools.StoreMarkers | pixstem/marker_tools.py:182-184 | the loop adds exactly the new names, stores marker `i` under `marker<extra + i>`, and leaves every other entry as it was |
| MarkerTools.AddPermanentMarkers | pixstem/marker_tools.py:160-184 | a missing `Markers` node is created empty; the markers are stored under names numbered from the node's entry count; other entries are kept |
| MarkerTools.FirstMarkersNumberedFromZero | pixstem/marker_tools.py:179-184 | on a signal without markers, the list is stored as `marker0` onwards and nothing else |
| MarkerTools.NumberingCanReuseAName | pixstem/marker_tools.py:181-184 | numbering by count can reuse an existing name: a node holding only `marker1` has that entry replaced by the new marker |
| MarkerTools.AddPeakArrayAsMarkers | pixstem/marker_tools.py:187-208 | the signal's markers gain one calibrated point marker per peak slot, under names numbered from the existing entry count, and every existing entry whose name is not reused keeps its value |

## Left out

- Plotting, the magnitude histogram, DBSCAN clustering, virtual dark-field images, the diffracting-pixel map and the zone-axis stub are not modelled. They are outside the modelled functions.
- `get_magnitudes` is not modelled. The measured magnitudes are an input of `Indexation.GvectorIndexation`.
- The reciprocal-lattice enumeration by pymatgen (`get_points_in_sphere`) is not modelled. The lattice points and their magnitudes are an input.
- The navigation bookkeeping of `gindex` is not modelled: the object array, its shape, and storing at `(i[1], i[0])`. The result is one cell per scan position, in iteration order.
- For the unique-vector reduction, signals with no navigation axis or more than two are not modelled. The seed indexing at lines 118-121 distinguishes only two navigation dimensions from all others, and the model covers one and two.
- Indexation.GvectorIndexation: with three or more navigation axes it returns one cell per scan position, as with two. The source stores each result at `gindex[i[1], i[0]]`, which with three or more axes addresses a sub-array, and that numpy assignment is not modelled.
- UniqueVectors.GetUniqueVectors: every scan position is an `(n, 2)` array of vectors with exactly two coordinates, so `distance_matrix` at lines 125 and 134 always applies. With any other shape `distance_matrix` raises `ValueError`. That includes a position without peaks stored as a one-dimensional empty array. That error path is not modelled, and such a position is modelled as one contributing nothing.
- Lines 139-142 of `get_unique_vectors` are not modelled: wrapping the list in `pxm.DiffractionVectors` and setting its signal dimension. The model returns the list. The file never imports `pxm` or `np`. Both are assumed to be bound by the star imports at lines 27-28, since the file needs `np` throughout.
- `get_indices_from_distance_matrix` is a parameter. Its body is not part of this model.
- The square root in `distance_matrix` is not modelled. Distances are compared squared, and the entries handed to the selector are squared distances.
- Floating-point rounding is not modelled. Coordinates, magnitudes and thresholds are mathematical reals.
- `delete_indices` is built with `np.append`, so it is a float array. Newer numpy rejects float indices in `np.delete`. The model uses integer indices.
- HyperSpy marker objects, `index2value` and the metadata tree are abstracted. Markers are records of their coordinates and style. `index2value` is a total function per axis, so range errors for out-of-range indices are not modelled. The `Markers` node is a map whose size is its entry count.
- Peaks are modelled with only the two coordinates the code reads, and lines with four. Longer entries are not modelled, and neither are 2D entries that fail to unpack into four values.
- UniqueVectors.Accumulate: its own contract states only that the accepted list grows. What is appended is stated by `UniqueVectors.Step` and `UniqueVectors.AccumulateProvenance`.
- UniqueVectors.CountWithin: its own contract bounds the count by the list length. Its meaning is stated by `UniqueVectors.CountPositive` and `UniqueVectors.CountExceedsOne`.
- Vectors.WithinSelf: only the non-strict facts about distances are proved (symmetry, and a vector is within any non-negative threshold of itself). That distinct vectors have a positive distance is not used and not proved.

## Findings

| source | as written | input that shows it | evidently intended | confidence | as-written member | corrected member |
|---|---|---|---|---|---|---|
| pyxem/signals/diffraction_vectors.py:277 | the loop body reads `glengths[it]`, but `glengths` is never bound in the method and never assigned in the module; the star imports at lines 27-28 are outside this model | any signal with two or more navigation axes and at least one scan position, for any structure and threshold: the first iteration raises `NameError` (with one axis, `i[1]` at line 275 raises `IndexError` first) | the measured vector magnitudes at each scan position (what `get_magnitudes` computes), matched against the sorted lattice | not executed | Indexation.GvectorIndexationAsWritten | Indexation.GvectorIndexation |

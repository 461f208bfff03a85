/**
 Conversion of per-position peak and line lists into plot markers, and the
 storing of markers in a signal's metadata under `marker<N>` names.

 A 4D peak (or line) array is a navigation grid of `nx` by `ny` cells, each
 holding either nothing (`None`) or a list of entries. The marker arrays built
 from it are `nx` by `ny` by `depth` cubes, where `depth` is the longest list;
 slot `ip` of a cell holds the coordinate of that cell's `ip`-th entry or the
 sentinel -1000 where the cell has fewer entries.
 */
module MarkerTools {
  import opened Common
  import opened Decimal

  /** A found peak: `p0` is its row index, `p1` its column index. */
  datatype Peak = Peak(p0: real, p1: real)

  /** A line entry `[l0, l1, l2, l3]`. */
  datatype Line = Line(l0: real, l1: real, l2: real, l3: real)

  /** A navigation grid of optional entry lists. */
  datatype Cells<T> = Cells(nx: nat, ny: nat, at: seq<seq<Option<seq<T>>>>)

  predicate WellShaped<T>(cells: Cells<T>) {
    |cells.at| == cells.nx && forall ix :: 0 <= ix < cells.nx ==> |cells.at[ix]| == cells.ny
  }

  /** Fill value of a marker slot that has no entry. */
  const Sentinel: real := -1000.0

  /**
   The calibration of the two signal axes: `index2value0` maps a column index
   to a position on axis 0, `index2value1` a row index to a position on axis 1.
   */
  datatype SignalAxes = SignalAxes(index2value0: int -> real, index2value1: int -> real)

  /** Python's `int()` on a float: truncation toward zero. */
  function Trunc(r: real): (i: int)
    ensures 0.0 <= r ==> i as real <= r < i as real + 1.0
    ensures r < 0.0 ==> i as real - 1.0 < r <= i as real
  {
    if r >= 0.0 then r.Floor else -((-r).Floor)
  }

  /** A marker coordinate: one value, or one value per navigation position. */
  datatype Coord = Scalar(v: real) | PerPosition(values: seq<seq<real>>)

  /** The two marker kinds built here, with their style arguments. */
  datatype Marker =
    | Point(x: Coord, y: Coord, color: string, size: real)
    | LineSegment(x1: Coord, y1: Coord, x2: Coord, y2: Coord, color: string, linewidth: real, linestyle: string)

  /** Value on axis 0 of a row/column index value, calibrated when axes are given. */
  function OnAxis0(axes: Option<SignalAxes>, v: real): real {
    match axes
    case None => v
    case Some(a) => a.index2value0(Trunc(v))
  }

  /** Value on axis 1 of a row/column index value, calibrated when axes are given. */
  function OnAxis1(axes: Option<SignalAxes>, v: real): real {
    match axes
    case None => v
    case Some(a) => a.index2value1(Trunc(v))
  }

  /** Marker x of a peak: its column index `peak[1]` on axis 0. */
  function PeakX(axes: Option<SignalAxes>): Peak -> real {
    (p: Peak) => OnAxis0(axes, p.p1)
  }

  /** Marker y of a peak: its row index `peak[0]` on axis 1. */
  function PeakY(axes: Option<SignalAxes>): Peak -> real {
    (p: Peak) => OnAxis1(axes, p.p0)
  }

  /** Line endpoints of the 4D conversion: x1 from `line[1]`, y1 from `line[0]`, x2 from `line[3]`, y2 from `line[2]`. */
  function LineX1(axes: Option<SignalAxes>): Line -> real {
    (l: Line) => OnAxis0(axes, l.l1)
  }

  function LineY1(axes: Option<SignalAxes>): Line -> real {
    (l: Line) => OnAxis1(axes, l.l0)
  }

  function LineX2(axes: Option<SignalAxes>): Line -> real {
    (l: Line) => OnAxis0(axes, l.l3)
  }

  function LineY2(axes: Option<SignalAxes>): Line -> real {
    (l: Line) => OnAxis1(axes, l.l2)
  }

  /** `n` is the length of the longest present list, or 0 when every cell is `None` or empty. */
  ghost predicate IsMaxLength<T>(cells: Cells<T>, n: nat)
    requires WellShaped(cells)
  {
    && (forall ix, iy :: 0 <= ix < cells.nx && 0 <= iy < cells.ny && cells.at[ix][iy].Some?
          ==> |cells.at[ix][iy].value| <= n)
    && (n == 0 || exists ix, iy :: (0 <= ix < cells.nx && 0 <= iy < cells.ny && cells.at[ix][iy].Some?
                                     && |cells.at[ix][iy].value| == n))
  }

  /** The longest list length is determined by the grid. */
  lemma MaxLengthUnique<T>(cells: Cells<T>, a: nat, b: nat)
    requires WellShaped(cells)
    requires IsMaxLength(cells, a) && IsMaxLength(cells, b)
    ensures a == b
  {
    if a > 0 {
      var ix, iy :| 0 <= ix < cells.nx && 0 <= iy < cells.ny && cells.at[ix][iy].Some? && |cells.at[ix][iy].value| == a;
      assert a <= b;
    }
    if b > 0 {
      var ix, iy :| 0 <= ix < cells.nx && 0 <= iy < cells.ny && cells.at[ix][iy].Some? && |cells.at[ix][iy].value| == b;
      assert b <= a;
    }
  }

  /** The scan for `max_peaks` / `max_lines`: every cell in `np.ndindex` order, skipping `None`. */
  method MaxLength<T>(cells: Cells<T>) returns (maxCount: nat)
    requires WellShaped(cells)
    ensures IsMaxLength(cells, maxCount)
  {
    maxCount := 0;
    ghost var wx, wy := 0, 0;
    var ix := 0;
    while ix < cells.nx
      invariant 0 <= ix <= cells.nx
      invariant forall i, j :: 0 <= i < ix && 0 <= j < cells.ny && cells.at[i][j].Some?
                  ==> |cells.at[i][j].value| <= maxCount
      invariant maxCount > 0 ==> (wx < cells.nx && wy < cells.ny && cells.at[wx][wy].Some?
                                     && |cells.at[wx][wy].value| == maxCount)
    {
      var iy := 0;
      while iy < cells.ny
        invariant 0 <= iy <= cells.ny
        invariant forall i, j :: 0 <= i < ix && 0 <= j < cells.ny && cells.at[i][j].Some?
                    ==> |cells.at[i][j].value| <= maxCount
        invariant forall j :: 0 <= j < iy && cells.at[ix][j].Some? ==> |cells.at[ix][j].value| <= maxCount
        invariant maxCount > 0 ==> (wx < cells.nx && wy < cells.ny && cells.at[wx][wy].Some?
                                       && |cells.at[wx][wy].value| == maxCount)
      {
        var entry := cells.at[ix][iy];
        if entry.Some? {
          var count := |entry.value|;
          if count > maxCount {
            maxCount := count;
            wx, wy := ix, iy;
          }
        }
        iy := iy + 1;
      }
      ix := ix + 1;
    }
  }

  /** What slot `ip` of a cell holds: the coordinate of its `ip`-th entry, else the sentinel. */
  function Slot<T>(entry: Option<seq<T>>, ip: nat, coord: T -> real): real {
    if entry.Some? && ip < |entry.value| then coord(entry.value[ip]) else Sentinel
  }

  /** `nx` by `ny` by `depth`. */
  predicate IsCube(cube: seq<seq<seq<real>>>, nx: nat, ny: nat, depth: nat) {
    && |cube| == nx
    && (forall ix :: 0 <= ix < nx ==> |cube[ix]| == ny)
    && (forall ix, iy :: 0 <= ix < nx && 0 <= iy < ny ==> |cube[ix][iy]| == depth)
  }

  /** Writes the entries of one cell over the first slots of its (sentinel-filled) row. */
  method FillCell<T>(slots: seq<real>, entries: seq<T>, coord: T -> real) returns (r: seq<real>)
    requires |entries| <= |slots|
    ensures |r| == |slots|
    ensures forall ip :: 0 <= ip < |r| ==> r[ip] == (if ip < |entries| then coord(entries[ip]) else slots[ip])
  {
    r := slots;
    var ip := 0;
    while ip < |entries|
      invariant 0 <= ip <= |entries|
      invariant |r| == |slots|
      invariant forall k :: 0 <= k < |r| ==> r[k] == (if k < ip then coord(entries[k]) else slots[k])
    {
      r := r[ip := coord(entries[ip])];
      ip := ip + 1;
    }
  }

  /** One navigation row `ix` of the fill loop. */
  method FillRow<T>(row: seq<seq<real>>, entries: seq<Option<seq<T>>>, depth: nat, coord: T -> real)
    returns (r: seq<seq<real>>)
    requires |row| == |entries|
    requires forall iy :: 0 <= iy < |row| ==> |row[iy]| == depth && forall ip :: 0 <= ip < depth ==> row[iy][ip] == Sentinel
    requires forall iy :: 0 <= iy < |entries| && entries[iy].Some? ==> |entries[iy].value| <= depth
    ensures |r| == |row|
    ensures forall iy :: 0 <= iy < |r| ==> |r[iy]| == depth
    ensures forall iy, ip :: 0 <= iy < |r| && 0 <= ip < depth ==> r[iy][ip] == Slot(entries[iy], ip, coord)
  {
    r := row;
    var iy := 0;
    while iy < |entries|
      invariant 0 <= iy <= |entries|
      invariant |r| == |row|
      invariant forall j :: 0 <= j < |r| ==> |r[j]| == depth
      invariant forall j, ip :: 0 <= j < iy && 0 <= ip < depth ==> r[j][ip] == Slot(entries[j], ip, coord)
      invariant forall j :: iy <= j < |r| ==> r[j] == row[j]
    {
      if entries[iy].Some? {
        var cell := FillCell(r[iy], entries[iy].value, coord);
        r := r[iy := cell];
      }
      iy := iy + 1;
    }
  }

  /**
   One marker coordinate array: a sentinel-filled cube in which slot
   `[ix, iy, ip]` is overwritten with the coordinate of entry `ip` of cell
   `(ix, iy)`.
   */
  method FillArray<T>(cells: Cells<T>, depth: nat, coord: T -> real) returns (cube: seq<seq<seq<real>>>)
    requires WellShaped(cells)
    requires forall ix, iy :: 0 <= ix < cells.nx && 0 <= iy < cells.ny && cells.at[ix][iy].Some?
               ==> |cells.at[ix][iy].value| <= depth
    ensures IsCube(cube, cells.nx, cells.ny, depth)
    ensures forall ix, iy, ip :: 0 <= ix < cells.nx && 0 <= iy < cells.ny && 0 <= ip < depth
              ==> cube[ix][iy][ip] == Slot(cells.at[ix][iy], ip, coord)
  {
    var blank := seq(depth, _ => Sentinel);
    cube := seq(cells.nx, _ => seq(cells.ny, _ => blank));
    var ix := 0;
    while ix < cells.nx
      invariant 0 <= ix <= cells.nx
      invariant IsCube(cube, cells.nx, cells.ny, depth)
      invariant forall i, iy, ip :: 0 <= i < ix && 0 <= iy < cells.ny && 0 <= ip < depth
                  ==> cube[i][iy][ip] == Slot(cells.at[i][iy], ip, coord)
      invariant forall i, iy :: ix <= i < cells.nx && 0 <= iy < cells.ny ==> cube[i][iy] == blank
    {
      var row := FillRow(cube[ix], cells.at[ix], depth, coord);
      cube := cube[ix := row];
      ix := ix + 1;
    }
  }

  /** The declared content of marker `ip`'s coordinate array: `array[..., ip]`. */
  function SlotLayer<T>(cells: Cells<T>, ip: nat, coord: T -> real): (layer: seq<seq<real>>)
    requires WellShaped(cells)
    ensures |layer| == cells.nx
    ensures forall ix :: 0 <= ix < cells.nx ==> |layer[ix]| == cells.ny
  {
    seq(cells.nx, ix requires 0 <= ix < cells.nx =>
      seq(cells.ny, iy requires 0 <= iy < cells.ny => Slot(cells.at[ix][iy], ip, coord)))
  }

  /** `cube[..., ip]`. */
  function Layer(cube: seq<seq<seq<real>>>, nx: nat, ny: nat, depth: nat, ip: nat): seq<seq<real>>
    requires IsCube(cube, nx, ny, depth) && ip < depth
  {
    seq(nx, ix requires 0 <= ix < nx => seq(ny, iy requires 0 <= iy < ny => cube[ix][iy][ip]))
  }

  /** Slicing a filled cube at `ip` gives the declared layer. */
  lemma LayerOfFilled<T>(cells: Cells<T>, cube: seq<seq<seq<real>>>, depth: nat, coord: T -> real, ip: nat)
    requires WellShaped(cells) && IsCube(cube, cells.nx, cells.ny, depth) && ip < depth
    requires forall ix, iy, k :: 0 <= ix < cells.nx && 0 <= iy < cells.ny && 0 <= k < depth
               ==> cube[ix][iy][k] == Slot(cells.at[ix][iy], k, coord)
    ensures Layer(cube, cells.nx, cells.ny, depth, ip) == SlotLayer(cells, ip, coord)
  {
    var l1 := Layer(cube, cells.nx, cells.ny, depth, ip);
    var l2 := SlotLayer(cells, ip, coord);
    forall ix | 0 <= ix < cells.nx
      ensures l1[ix] == l2[ix]
    {
    }
  }

  /** Point marker `ip` as declared: its x and y arrays are the `ip`-th slot layers of the peak grid. */
  function PointMarker(peaks: Cells<Peak>, axes: Option<SignalAxes>, ip: nat, color: string, size: real): Marker
    requires WellShaped(peaks)
  {
    Point(PerPosition(SlotLayer(peaks, ip, PeakX(axes))), PerPosition(SlotLayer(peaks, ip, PeakY(axes))), color, size)
  }

  /** Line-segment marker `ip` as declared from the 4D line grid. */
  function SegmentMarker(lines: Cells<Line>, axes: Option<SignalAxes>, ip: nat, color: string, linewidth: real, linestyle: string): Marker
    requires WellShaped(lines)
  {
    LineSegment(PerPosition(SlotLayer(lines, ip, LineX1(axes))), PerPosition(SlotLayer(lines, ip, LineY1(axes))),
                PerPosition(SlotLayer(lines, ip, LineX2(axes))), PerPosition(SlotLayer(lines, ip, LineY2(axes))),
                color, linewidth, linestyle)
  }

  /**
   `_get_4d_points_marker_list`: one point marker per peak slot, marker `ip`
   placing at every navigation position that position's `ip`-th peak, or the
   sentinel where it has fewer peaks.
   */
  method PointsMarkerList(peaks: Cells<Peak>, axes: Option<SignalAxes>, color: string, size: real)
    returns (markers: seq<Marker>)
    requires WellShaped(peaks)
    ensures IsMaxLength(peaks, |markers|)
    ensures forall ip :: 0 <= ip < |markers| ==> markers[ip] == PointMarker(peaks, axes, ip, color, size)
  {
    var maxPeaks := MaxLength(peaks);
    var xs := FillArray(peaks, maxPeaks, PeakX(axes));
    var ys := FillArray(peaks, maxPeaks, PeakY(axes));
    markers := [];
    var ip := 0;
    while ip < maxPeaks
      invariant 0 <= ip <= maxPeaks
      invariant |markers| == ip
      invariant forall k :: 0 <= k < ip ==> markers[k] == PointMarker(peaks, axes, k, color, size)
    {
      LayerOfFilled(peaks, xs, maxPeaks, PeakX(axes), ip);
      LayerOfFilled(peaks, ys, maxPeaks, PeakY(axes), ip);
      var marker := Point(PerPosition(Layer(xs, peaks.nx, peaks.ny, maxPeaks, ip)),
                          PerPosition(Layer(ys, peaks.nx, peaks.ny, maxPeaks, ip)), color, size);
      markers := markers + [marker];
      ip := ip + 1;
    }
  }

  /**
   `_get_4d_line_segment_list`: one line-segment marker per line slot, with
   the endpoints of line `[l0, l1, l2, l3]` placed at `(l1, l0)` and `(l3, l2)`.
   */
  method LineSegmentList4d(lines: Cells<Line>, axes: Option<SignalAxes>, color: string, linewidth: real, linestyle: string)
    returns (markers: seq<Marker>)
    requires WellShaped(lines)
    ensures IsMaxLength(lines, |markers|)
    ensures forall ip :: 0 <= ip < |markers| ==> markers[ip] == SegmentMarker(lines, axes, ip, color, linewidth, linestyle)
  {
    var maxLines := MaxLength(lines);
    var x1s := FillArray(lines, maxLines, LineX1(axes));
    var y1s := FillArray(lines, maxLines, LineY1(axes));
    var x2s := FillArray(lines, maxLines, LineX2(axes));
    var y2s := FillArray(lines, maxLines, LineY2(axes));
    markers := [];
    var ip := 0;
    while ip < maxLines
      invariant 0 <= ip <= maxLines
      invariant |markers| == ip
      invariant forall k :: 0 <= k < ip ==> markers[k] == SegmentMarker(lines, axes, k, color, linewidth, linestyle)
    {
      LayerOfFilled(lines, x1s, maxLines, LineX1(axes), ip);
      LayerOfFilled(lines, y1s, maxLines, LineY1(axes), ip);
      LayerOfFilled(lines, x2s, maxLines, LineX2(axes), ip);
      LayerOfFilled(lines, y2s, maxLines, LineY2(axes), ip);
      var marker := LineSegment(
        PerPosition(Layer(x1s, lines.nx, lines.ny, maxLines, ip)), PerPosition(Layer(y1s, lines.nx, lines.ny, maxLines, ip)),
        PerPosition(Layer(x2s, lines.nx, lines.ny, maxLines, ip)), PerPosition(Layer(y2s, lines.nx, lines.ny, maxLines, ip)),
        color, linewidth, linestyle);
      markers := markers + [marker];
      ip := ip + 1;
    }
  }

  /**
   Marker `ip` at navigation position `(ix, iy)`: the peak's column `peak[1]`
   becomes x and its row `peak[0]` becomes y (through the axis calibration
   when given); a position with fewer than `ip + 1` peaks, or none, gets the
   sentinel for both.
   */
  lemma PointMarkerAtPosition(peaks: Cells<Peak>, axes: Option<SignalAxes>, ip: nat, color: string, size: real, ix: nat, iy: nat)
    requires WellShaped(peaks) && ix < peaks.nx && iy < peaks.ny
    ensures var m := PointMarker(peaks, axes, ip, color, size);
      var entry := peaks.at[ix][iy];
      if entry.Some? && ip < |entry.value| then
        && m.x.values[ix][iy] == OnAxis0(axes, entry.value[ip].p1)
        && m.y.values[ix][iy] == OnAxis1(axes, entry.value[ip].p0)
      else
        m.x.values[ix][iy] == Sentinel && m.y.values[ix][iy] == Sentinel
  {
  }

  /** Without axes the marker holds the raw indices, swapped: x is `peak[1]`, y is `peak[0]`. */
  lemma UncalibratedPointSwapsIndices(peaks: Cells<Peak>, ip: nat, color: string, size: real, ix: nat, iy: nat)
    requires WellShaped(peaks) && ix < peaks.nx && iy < peaks.ny
    requires peaks.at[ix][iy].Some? && ip < |peaks.at[ix][iy].value|
    ensures var m := PointMarker(peaks, None, ip, color, size);
      m.x.values[ix][iy] == peaks.at[ix][iy].value[ip].p1 && m.y.values[ix][iy] == peaks.at[ix][iy].value[ip].p0
  {
    PointMarkerAtPosition(peaks, None, ip, color, size, ix, iy);
  }

  /**
   Line marker `ip` at navigation position `(ix, iy)`: endpoints
   `(line[1], line[0])` and `(line[3], line[2])`, or the sentinel everywhere
   when the position has fewer lines.
   */
  lemma SegmentMarkerAtPosition(lines: Cells<Line>, axes: Option<SignalAxes>, ip: nat, color: string, linewidth: real,
                                linestyle: string, ix: nat, iy: nat)
    requires WellShaped(lines) && ix < lines.nx && iy < lines.ny
    ensures var m := SegmentMarker(lines, axes, ip, color, linewidth, linestyle);
      var entry := lines.at[ix][iy];
      if entry.Some? && ip < |entry.value| then
        && m.x1.values[ix][iy] == OnAxis0(axes, entry.value[ip].l1)
        && m.y1.values[ix][iy] == OnAxis1(axes, entry.value[ip].l0)
        && m.x2.values[ix][iy] == OnAxis0(axes, entry.value[ip].l3)
        && m.y2.values[ix][iy] == OnAxis1(axes, entry.value[ip].l2)
      else
        && m.x1.values[ix][iy] == Sentinel && m.y1.values[ix][iy] == Sentinel
        && m.x2.values[ix][iy] == Sentinel && m.y2.values[ix][iy] == Sentinel
  {
  }

  /** The endpoints of a segment with scalar coordinates, in `[x1, y1, x2, y2]` order. */
  function Endpoints(m: Marker): Option<Line> {
    if m.LineSegment? && m.x1.Scalar? && m.y1.Scalar? && m.x2.Scalar? && m.y2.Scalar?
    then Some(Line(m.x1.v, m.y1.v, m.x2.v, m.y2.v))
    else None
  }

  /**
   `_get_2d_line_segment_list`: one segment per entry, in list order, each
   entry read as `[x1, y1, x2, y2]` without swapping; the axes argument is
   accepted and not used.
   */
  function LineSegmentList2d(lines: seq<Line>, axes: Option<SignalAxes>, color: string, linewidth: real, linestyle: string)
    : (markers: seq<Marker>)
    ensures |markers| == |lines|
    ensures forall i :: 0 <= i < |markers| ==>
              && Endpoints(markers[i]) == Some(lines[i])
              && markers[i].color == color && markers[i].linewidth == linewidth && markers[i].linestyle == linestyle
  {
    if |lines| == 0 then []
    else
      var l := lines[0];
      [LineSegment(Scalar(l.l0), Scalar(l.l1), Scalar(l.l2), Scalar(l.l3), color, linewidth, linestyle)]
        + LineSegmentList2d(lines[1..], axes, color, linewidth, linestyle)
  }

  /** The 2D conversion does not depend on the axes argument. */
  lemma LineSegmentList2dIgnoresAxes(lines: seq<Line>, a1: Option<SignalAxes>, a2: Option<SignalAxes>,
                                     color: string, linewidth: real, linestyle: string)
    ensures LineSegmentList2d(lines, a1, color, linewidth, linestyle) == LineSegmentList2d(lines, a2, color, linewidth, linestyle)
  {
  }

  /**
   The metadata name `marker<n>`: the prefix `marker` followed by the
   canonical numeral of `n`, which has no leading zero and reads back as `n`.
   */
  function MarkerName(n: nat): (name: string)
    ensures |name| > 6 && name[..6] == "marker" && AllDigits(name[6..])
    ensures name[6] == '0' ==> n == 0 && |name| == 7
    ensures ParseDigits(name[6..]) == n
  {
    ParseNatToString(n);
    assert ("marker" + NatToString(n))[6..] == NatToString(n);
    "marker" + NatToString(n)
  }

  /** Distinct numbers give distinct marker names. */
  lemma MarkerNameInjective(a: nat, b: nat)
    ensures MarkerName(a) == MarkerName(b) <==> a == b
  {
  }

  /** The names `marker<first>` to `marker<first + count - 1>`. */
  function NewNames(first: nat, count: nat): (names: set<string>)
    ensures forall n: nat :: first <= n < first + count ==> MarkerName(n) in names
    decreases count
  {
    if count == 0 then {} else {MarkerName(first)} + NewNames(first + 1, count - 1)
  }

  /** Every new name is numbered in range. */
  lemma {:induction false} NewNameNumbered(first: nat, count: nat, name: string)
    requires name in NewNames(first, count)
    ensures exists n: nat :: first <= n < first + count && name == MarkerName(n)
    decreases count
  {
    if name != MarkerName(first) {
      NewNameNumbered(first + 1, count - 1, name);
    }
  }

  /** `NewNames` holds no name numbered below `first`. */
  lemma NotANewName(first: nat, count: nat, n: nat)
    requires n < first
    ensures MarkerName(n) !in NewNames(first, count)
  {
    if MarkerName(n) in NewNames(first, count) {
      NewNameNumbered(first, count, MarkerName(n));
    }
  }

  /**
   One marker per step of the loop at lines 182-184, under consecutive names
   starting at `marker<next>`; the keys gain exactly the new names.
   */
  function StoreEach(stored: map<string, Marker>, next: nat, markerList: seq<Marker>): (r: map<string, Marker>)
    ensures r.Keys == stored.Keys + NewNames(next, |markerList|)
    decreases |markerList|
  {
    if |markerList| == 0 then stored
    else StoreEach(stored[MarkerName(next) := markerList[0]], next + 1, markerList[1..])
  }

  /** Storing puts marker `n - next` under `marker<n>`. */
  lemma {:induction false} StoreEachPlaces(stored: map<string, Marker>, next: nat, markerList: seq<Marker>)
    ensures var r := StoreEach(stored, next, markerList);
      forall n: nat :: next <= n < next + |markerList| ==> MarkerName(n) in r && r[MarkerName(n)] == markerList[n - next]
    decreases |markerList|
  {
    if |markerList| > 0 {
      var name := MarkerName(next);
      var updated := stored[name := markerList[0]];
      var rest := markerList[1..];
      StoreEachPlaces(updated, next + 1, rest);
      StoreEachKeeps(updated, next + 1, rest);
      var r := StoreEach(updated, next + 1, rest);
      assert r == StoreEach(stored, next, markerList);
      NotANewName(next + 1, |rest|, next);
      forall n: nat | next <= n < next + |markerList|
        ensures MarkerName(n) in r && r[MarkerName(n)] == markerList[n - next]
      {
        if n > next {
          assert rest[n - (next + 1)] == markerList[n - next];
        }
      }
    }
  }

  /** Storing leaves every stored entry whose name is not a new name as it was. */
  lemma {:induction false} StoreEachKeeps(stored: map<string, Marker>, next: nat, markerList: seq<Marker>)
    ensures var r := StoreEach(stored, next, markerList);
      forall name :: name in stored && name !in NewNames(next, |markerList|) ==> name in r && r[name] == stored[name]
    decreases |markerList|
  {
    if |markerList| > 0 {
      var name := MarkerName(next);
      var updated := stored[name := markerList[0]];
      var rest := markerList[1..];
      StoreEachKeeps(updated, next + 1, rest);
      assert NewNames(next, |markerList|) == {name} + NewNames(next + 1, |rest|);
    }
  }

  /**
   The loop at lines 182-184: adds exactly the new names, puts marker
   `n - next` under `marker<n>`, and leaves every other stored entry as it was.
   */
  function StoreMarkers(stored: map<string, Marker>, next: nat, markerList: seq<Marker>): (r: map<string, Marker>)
    ensures r.Keys == stored.Keys + NewNames(next, |markerList|)
    ensures forall n: nat :: next <= n < next + |markerList| ==> MarkerName(n) in r && r[MarkerName(n)] == markerList[n - next]
    ensures forall name :: name in stored && name !in NewNames(next, |markerList|) ==> name in r && r[name] == stored[name]
  {
    StoreEachPlaces(stored, next, markerList);
    StoreEachKeeps(stored, next, markerList);
    StoreEach(stored, next, markerList)
  }

  /**
   `_add_permanent_markers_to_signal`: `existing` is the signal's `Markers`
   metadata node, `None` when it has none yet. Marker `i` of the list is
   stored as `marker<extra + i>`, where `extra` is the number of entries the
   node already held; every other existing entry is kept.
   */
  function AddPermanentMarkers(existing: Option<map<string, Marker>>, markerList: seq<Marker>): (markers: map<string, Marker>)
    ensures var base := existing.GetOr(map[]);
      && markers.Keys == base.Keys + NewNames(|base|, |markerList|)
      && (forall n: nat :: |base| <= n < |base| + |markerList| ==> MarkerName(n) in markers && markers[MarkerName(n)] == markerList[n - |base|])
      && (forall name :: name in base && name !in NewNames(|base|, |markerList|) ==> name in markers && markers[name] == base[name])
  {
    var base := existing.GetOr(map[]);
    StoreMarkers(base, |base|, markerList)
  }

  /** Without an existing node the markers are named `marker0`, `marker1`, ... in list order. */
  lemma FirstMarkersNumberedFromZero(markerList: seq<Marker>)
    ensures var markers := AddPermanentMarkers(None, markerList);
      && markers.Keys == NewNames(0, |markerList|)
      && |markers| == |markerList|
  {
    var markers := AddPermanentMarkers(None, markerList);
    NewNamesCount(0, |markerList|);
  }

  /** There are `count` new names. */
  lemma {:induction false} NewNamesCount(first: nat, count: nat)
    ensures |NewNames(first, count)| == count
    decreases count
  {
    if count > 0 {
      var rest := NewNames(first + 1, count - 1);
      NewNamesCount(first + 1, count - 1);
      NotANewName(first + 1, count - 1, first);
      assert NewNames(first, count) == rest + {MarkerName(first)};
      assert |rest + {MarkerName(first)}| == |rest| + 1;
    }
  }

  /**
   The numbering counts entries rather than reading their names: a node
   holding only `marker1` gets its next marker stored as `marker1` too,
   replacing the entry that was there.
   */
  lemma NumberingCanReuseAName(previous: Marker, added: Marker)
    ensures AddPermanentMarkers(Some(map["marker1" := previous]), [added]) == map["marker1" := added]
  {
    assert DigitChar(1) == '1';
    assert MarkerName(1) == "marker1";
    var r := AddPermanentMarkers(Some(map["marker1" := previous]), [added]);
    assert r.Keys == {"marker1"};
  }

  /**
   `add_peak_array_to_signal_as_markers`: the point markers of the peak grid,
   calibrated with the signal's axes, appended to the signal's marker node;
   entries already in the node keep their values unless a new name reuses
   theirs.
   */
  method AddPeakArrayAsMarkers(existing: Option<map<string, Marker>>, axes: SignalAxes, peaks: Cells<Peak>,
                               color: string, size: real)
    returns (markers: map<string, Marker>)
    requires WellShaped(peaks)
    ensures var base := existing.GetOr(map[]);
      exists maxPeaks: nat :: 
        && IsMaxLength(peaks, maxPeaks)
        && markers.Keys == base.Keys + NewNames(|base|, maxPeaks)
        && (forall ip :: 0 <= ip < maxPeaks ==>
              MarkerName(|base| + ip) in markers && markers[MarkerName(|base| + ip)] == PointMarker(peaks, Some(axes), ip, color, size))
        && (forall name :: name in base && name !in NewNames(|base|, maxPeaks) ==> markers[name] == base[name])
  {
    var markerList := PointsMarkerList(peaks, Some(axes), color, size);
    markers := AddPermanentMarkers(existing, markerList);
  }
}

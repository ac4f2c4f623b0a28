/**
 The geometric part of `distribute_subproblems`: every point is assigned the
 bin that contains it (points beyond the grid go to the last bin of the
 axis), bins are linearized, the point indices are grouped by bin, every
 bin is split into subproblems of at most `k` points, and every subproblem
 is packaged as its points, its bin coordinate, its indices and its weights.

 Positions are exact non-negative reals, so `np.floor_divide` is an exact
 floor. Sending the pieces to workers is not modelled: the stream of
 subproblems is returned as a sequence, in the order the generator yields it.

 The code clamps coordinates to `uniform_grid_cell_count - 1`, while its
 comment asks for the last bin of the axis, `bins_per_axis - 1`;
 `AxisBinAsWritten` keeps the code's bound and the rest of the model uses the
 last bin.
 */
module Subproblems {
  import opened Common
  import opened BinIndex
  import opened Grouping
  import opened Extract

  /** The uniform grid: per axis, the side of a cell, the number of cells and the cells per bin. */
  datatype Geometry = Geometry(cellSize: seq<real>, cellCount: seq<int>, binSize: seq<int>)

  predicate ValidGeometry(g: Geometry) {
    && |g.cellCount| == |g.cellSize|
    && |g.binSize| == |g.cellSize|
    && forall i :: 0 <= i < |g.cellSize| ==> g.cellSize[i] > 0.0 && 1 <= g.binSize[i] <= g.cellCount[i]
  }

  /** One row per point, one non-negative coordinate per axis. */
  predicate ValidPoints(g: Geometry, pts: seq<seq<real>>) {
    forall j :: 0 <= j < |pts| ==>
      |pts[j]| == |g.cellSize| && forall i :: 0 <= i < |pts[j]| ==> pts[j][i] >= 0.0
  }

  /** `uniform_grid_cell_count // bins_size`: the number of whole bins along each axis. */
  function BinsPerAxis(g: Geometry): (bins: seq<int>)
    requires ValidGeometry(g)
    ensures |bins| == |g.cellSize| && PositiveAxes(bins)
    ensures forall i :: 0 <= i < |bins| ==>
              bins[i] * g.binSize[i] <= g.cellCount[i] < (bins[i] + 1) * g.binSize[i]
  {
    var bins := seq(|g.cellSize|, i requires 0 <= i < |g.cellSize| => g.cellCount[i] / g.binSize[i]);
    forall i | 0 <= i < |bins|
      ensures bins[i] >= 1
      ensures bins[i] * g.binSize[i] <= g.cellCount[i] < (bins[i] + 1) * g.binSize[i]
    {
      DivBounds(g.cellCount[i], g.binSize[i]);
    }
    bins
  }

  /** Integer division rounds down: `a / b` whole blocks of `b` fit into `a`, one more does not. */
  lemma DivBounds(a: int, b: int)
    requires 1 <= b <= a
    ensures a / b >= 1
    ensures (a / b) * b <= a < (a / b + 1) * b
  {
    var q := a / b;
    assert a == q * b + a % b;
    assert (q + 1) * b == q * b + b;
    if q < 1 {
      MulMonotone(q, 0, b);
    }
  }

  /** The side of a bin along axis `i`: `uniform_grid_cell_size * bins_size`. */
  function BinWidth(g: Geometry, i: int): (w: real)
    requires ValidGeometry(g) && 0 <= i < |g.cellSize|
    ensures w > 0.0
  {
    g.cellSize[i] * (g.binSize[i] as real)
  }

  /** `pos` lies in the `c`-th interval of width `width`. */
  predicate InInterval(pos: real, width: real, c: int) {
    (c as real) * width <= pos < ((c + 1) as real) * width
  }

  /** `pos` lies beyond the first `n` intervals of width `width`. */
  predicate Beyond(pos: real, width: real, n: int) {
    pos >= (n as real) * width
  }

  /**
   The bin of one coordinate along one axis: the floor of `pos / width`,
   clamped to the last of `bins` bins. A position below `bins` bin widths
   (the region of whole bins) lands in the bin that contains it; a position
   at or beyond that bound lands in the last bin. When the cell count is not
   a multiple of the bin size, this folds the strip of leftover cells into
   the last bin.
   */
  function AxisBin(pos: real, width: real, bins: int): (c: int)
    requires pos >= 0.0 && width > 0.0 && bins >= 1
    ensures 0 <= c < bins
    ensures !Beyond(pos, width, bins) ==> InInterval(pos, width, c)
    ensures Beyond(pos, width, bins) ==> c == bins - 1
  {
    FloorBounds(pos, width);
    FloorAgainstBound(pos, width, bins);
    Min((pos / width).Floor, bins - 1)
  }

  /** `floor(pos / width)` names the cell of width `width` that holds `pos`. */
  lemma FloorBounds(pos: real, width: real)
    requires pos >= 0.0 && width > 0.0
    ensures 0 <= (pos / width).Floor
    ensures ((pos / width).Floor as real) * width <= pos
    ensures pos < (((pos / width).Floor + 1) as real) * width
  {
    var q := pos / width;
    assert q * width == pos;
    assert q >= 0.0;
    var f := q.Floor;
    assert (f as real) <= q < (f as real) + 1.0;
    assert ((f + 1) as real) == (f as real) + 1.0;
    RealMulMonotone(f as real, q, width);
    var next := (f + 1) as real;
    assert next == (f as real) + 1.0;
    RealMulStrict(q, next, width);
    assert pos < next * width;
  }

  /** The floor of `pos / width` reaches `n` exactly when `pos` lies beyond `n` intervals. */
  lemma FloorAgainstBound(pos: real, width: real, n: int)
    requires pos >= 0.0 && width > 0.0
    ensures Beyond(pos, width, n) ==> (pos / width).Floor >= n
    ensures !Beyond(pos, width, n) ==> (pos / width).Floor < n
  {
    var q := pos / width;
    assert q * width == pos;
    var f := q.Floor;
    assert (f as real) <= q < (f as real) + 1.0;
    if Beyond(pos, width, n) {
      RealMulCancel(n as real, q, width);
    } else {
      RealMulCancelStrict(q, n as real, width);
    }
  }

  lemma RealMulCancel(a: real, b: real, w: real)
    requires w > 0.0 && a * w <= b * w
    ensures a <= b
  {
    assert (b - a) * w == b * w - a * w;
    assert (b - a) * w >= 0.0;
  }

  lemma RealMulCancelStrict(a: real, b: real, w: real)
    requires w > 0.0 && a * w < b * w
    ensures a < b
  {
    assert (b - a) * w == b * w - a * w;
    assert (b - a) * w > 0.0;
  }

  lemma RealMulMonotone(a: real, b: real, w: real)
    requires a <= b && w > 0.0
    ensures a * w <= b * w
  {
    assert b * w - a * w == (b - a) * w;
  }

  lemma RealMulStrict(a: real, b: real, w: real)
    requires a < b && w > 0.0
    ensures a * w < b * w
  {
    assert b * w - a * w == (b - a) * w;
  }

  /**
   The code's clamp: the floor of `pos / width`, clamped to the last cell of
   the axis. It stays inside the grid of cells, not inside the grid of bins.
   */
  function AxisBinAsWritten(pos: real, width: real, cellCount: int): (c: int)
    requires pos >= 0.0 && width > 0.0 && cellCount >= 1
    ensures 0 <= c < cellCount
    ensures !Beyond(pos, width, cellCount) ==> InInterval(pos, width, c)
  {
    FloorBounds(pos, width);
    FloorAgainstBound(pos, width, cellCount);
    Min((pos / width).Floor, cellCount - 1)
  }

  /** The bin coordinate of a point: a valid coordinate of the bin grid. */
  function BinCoord(g: Geometry, p: seq<real>): (c: seq<int>)
    requires ValidGeometry(g) && |p| == |g.cellSize|
    requires forall i :: 0 <= i < |p| ==> p[i] >= 0.0
    ensures ValidCoord(BinsPerAxis(g), c)
    ensures forall i :: 0 <= i < |c| && !Beyond(p[i], BinWidth(g, i), BinsPerAxis(g)[i]) ==>
              InInterval(p[i], BinWidth(g, i), c[i])
    ensures forall i :: 0 <= i < |c| && Beyond(p[i], BinWidth(g, i), BinsPerAxis(g)[i]) ==>
              c[i] == BinsPerAxis(g)[i] - 1
  {
    var bins := BinsPerAxis(g);
    var c := seq(|p|, i requires 0 <= i < |p| => AxisBin(p[i], BinWidth(g, i), bins[i]));
    forall i | 0 <= i < |c|
      ensures 0 <= c[i] < bins[i]
      ensures !Beyond(p[i], BinWidth(g, i), bins[i]) ==> InInterval(p[i], BinWidth(g, i), c[i])
      ensures Beyond(p[i], BinWidth(g, i), bins[i]) ==> c[i] == bins[i] - 1
    {
      assert c[i] == AxisBin(p[i], BinWidth(g, i), bins[i]);
    }
    c
  }

  /** The bin coordinate of a point with the code's clamp. */
  function BinCoordAsWritten(g: Geometry, p: seq<real>): (c: seq<int>)
    requires ValidGeometry(g) && |p| == |g.cellSize|
    requires forall i :: 0 <= i < |p| ==> p[i] >= 0.0
    ensures |c| == |p|
    ensures forall i :: 0 <= i < |c| ==> 0 <= c[i] < g.cellCount[i]
  {
    seq(|p|, i requires 0 <= i < |p| => AxisBinAsWritten(p[i], BinWidth(g, i), g.cellCount[i]))
  }

  /**
   With the code's clamp, on a 4x4 grid of cells in 2x2 bins, a point beyond
   the grid on the second axis gets coordinate 3 on an axis of two bins, and
   its linear index is that of bin `(1, 1)`: the two bins' points would be
   grouped together. With the last-bin clamp it goes to bin `(0, 1)`.
   */
  lemma ClampAsWrittenMergesBins()
    ensures ValidGeometry(Geometry([1.0, 1.0], [4, 4], [2, 2]))
    ensures BinsPerAxis(Geometry([1.0, 1.0], [4, 4], [2, 2])) == [2, 2]
    ensures BinCoordAsWritten(Geometry([1.0, 1.0], [4, 4], [2, 2]), [0.0, 7.0]) == [0, 3]
    ensures !ValidCoord([2, 2], [0, 3])
    ensures BinCoordAsWritten(Geometry([1.0, 1.0], [4, 4], [2, 2]), [2.0, 2.0]) == [1, 1]
    ensures Linearize([2, 2], [0, 3]) == Linearize([2, 2], [1, 1]) == 3
    ensures BinCoord(Geometry([1.0, 1.0], [4, 4], [2, 2]), [0.0, 7.0]) == [0, 1]
  {
    var g := Geometry([1.0, 1.0], [4, 4], [2, 2]);
    assert BinWidth(g, 0) == 2.0 && BinWidth(g, 1) == 2.0;
    assert (7.0 / 2.0).Floor == 3 && (0.0 / 2.0).Floor == 0 && (2.0 / 2.0).Floor == 1;
    var bins := BinsPerAxis(g);
    assert bins[0] == 2 && bins[1] == 2;
    assert Multipliers([2, 2]) == [2, 1] by {
      assert [2, 2][1..] == [2] && [2, 2][2..] == [];
      assert Product([2]) == 2;
    }
  }

  // ---------------------------------------------------------------------
  // From points to subproblems

  /** The bin coordinate of every point (`bin_coords`). */
  function Coords(g: Geometry, pts: seq<seq<real>>): (coords: seq<seq<int>>)
    requires ValidGeometry(g) && ValidPoints(g, pts)
    ensures |coords| == |pts|
    ensures forall j :: 0 <= j < |pts| ==> ValidCoord(BinsPerAxis(g), coords[j])
  {
    seq(|pts|, j requires 0 <= j < |pts| => BinCoord(g, pts[j]))
  }

  /**
   `aug_linearized_bin_coords`: one row per point, holding the linear index of
   the point's bin and the index of the point.
   */
  function Keyed(g: Geometry, pts: seq<seq<real>>): (rows: seq<Pair>)
    requires ValidGeometry(g) && ValidPoints(g, pts)
    ensures |rows| == |pts|
    ensures Values(rows) == Range(|pts|)
    ensures forall j :: 0 <= j < |pts| ==> rows[j] == Pair(Linearize(BinsPerAxis(g), Coords(g, pts)[j]), j)
  {
    var bins := BinsPerAxis(g);
    var coords := Coords(g, pts);
    seq(|pts|, j requires 0 <= j < |pts| => Pair(Linearize(bins, coords[j]), j))
  }

  /** One subproblem, as `bin_content_tuple` builds it. */
  datatype Subproblem = Subproblem(
    points: seq<seq<real>>,   // `pts[bin_content]`
    binCoord: seq<int>,       // `bin_coords[bin_content[0]]`
    indices: seq<int>,        // `bin_content`
    weights: seq<real>        // `weights[bin_content]`
  )

  /**
   `bin_content_tuple`: positions and weights gathered with the same index
   list, and the bin of the first point; an empty list has no first point.
   */
  function BinContentTuple(pts: seq<seq<real>>, coords: seq<seq<int>>, weights: seq<real>, content: seq<int>): (r: Result<Subproblem>)
    requires |coords| == |pts| && |weights| == |pts|
    requires forall a :: 0 <= a < |content| ==> 0 <= content[a] < |pts|
    ensures r.Ok? <==> |content| >= 1
    ensures r.Err? ==> r.error == IndexError
    ensures r.Ok? ==>
              && r.value.indices == content
              && r.value.binCoord == coords[content[0]]
              && |r.value.points| == |content| && |r.value.weights| == |content|
              && (forall a :: 0 <= a < |content| ==> r.value.points[a] == pts[content[a]] && r.value.weights[a] == weights[content[a]])
  {
    if |content| == 0 then Err(IndexError)
    else
      Ok(Subproblem(
        seq(|content|, a requires 0 <= a < |content| => pts[content[a]]),
        coords[content[0]],
        content,
        seq(|content|, a requires 0 <= a < |content| => weights[content[a]])))
  }

  /** Every index list of the stream packaged in order; the first failure wins. */
  function Package(pts: seq<seq<real>>, coords: seq<seq<int>>, weights: seq<real>, contents: seq<seq<int>>): (r: Result<seq<Subproblem>>)
    requires |coords| == |pts| && |weights| == |pts|
    requires forall t, a :: 0 <= t < |contents| && 0 <= a < |contents[t]| ==> 0 <= contents[t][a] < |pts|
    ensures r.Ok? <==> forall t :: 0 <= t < |contents| ==> |contents[t]| >= 1
    ensures r.Err? ==> r.error == IndexError
    ensures r.Ok? ==> |r.value| == |contents|
    ensures r.Ok? ==> forall t :: 0 <= t < |contents| ==> BinContentTuple(pts, coords, weights, contents[t]) == Ok(r.value[t])
  {
    if |contents| == 0 then Ok([])
    else
      match BinContentTuple(pts, coords, weights, contents[0])
      case Err(e) => Err(e)
      case Ok(first) =>
        match Package(pts, coords, weights, contents[1..])
        case Err(e) => Err(e)
        case Ok(rest) =>
          assert forall t :: 1 <= t < |contents| ==> contents[t] == contents[1..][t - 1];
          Ok([first] + rest)
  }

  /** All point indices of a stream of subproblems, in stream order. */
  function AllIndices(tasks: seq<Subproblem>): seq<int>
  {
    Flatten(seq(|tasks|, t requires 0 <= t < |tasks| => tasks[t].indices))
  }

  /**
   `distribute_subproblems` without the Dask client: bin every point, group
   the point indices by linear bin, split every bin into subproblems of at
   most `k` points (`k == -1`: no bound), and package every subproblem.
   */
  function Distribute(g: Geometry, pts: seq<seq<real>>, weights: seq<real>, k: int): (r: Result<seq<Subproblem>>)
    requires ValidGeometry(g) && ValidPoints(g, pts) && |weights| == |pts|
    ensures r.Ok? <==> |pts| >= 1 && (k == Unbounded || k >= 1)
    ensures k == 0 ==> r == Err(ZeroDivisionError)
    ensures (k < Unbounded || (k >= 1 && |pts| == 0)) ==> r == Err(ValueError)
    ensures k == Unbounded && |pts| == 0 ==> r == Err(IndexError)
    ensures r.Ok? ==> multiset(AllIndices(r.value)) == multiset(Range(|pts|))
    ensures r.Ok? ==> forall t :: 0 <= t < |r.value| ==> WellFormedTask(g, pts, weights, k, r.value[t])
    ensures r.Ok? && k == Unbounded ==> forall t :: 0 <= t < |r.value| ==> WholeBin(g, pts, r.value[t])
  {
    var coords := Coords(g, pts);
    var keyed := Keyed(g, pts);
    match ExtractSubproblems(GroupBy(keyed), k)
    case Err(e) =>
      DistributeFails(keyed, k);
      Err(e)
    case Ok(sub) =>
      var contents := Flatten(sub);
      StreamFacts(BinsPerAxis(g), coords, keyed, k, sub, contents);
      var r := Package(pts, coords, weights, contents);
      PackageFacts(g, pts, weights, k, contents, r);
      r
  }

  /**
   What every subproblem satisfies: it is not empty, it holds at most `k`
   points when `k` bounds them, its indices name points, positions and
   weights are gathered with its indices, and its bin coordinate is the bin
   of every one of its points.
   */
  predicate WellFormedTask(g: Geometry, pts: seq<seq<real>>, weights: seq<real>, k: int, task: Subproblem)
    requires ValidGeometry(g) && ValidPoints(g, pts) && |weights| == |pts|
  {
    && 1 <= |task.indices|
    && (k >= 1 ==> |task.indices| <= k)
    && |task.points| == |task.indices| && |task.weights| == |task.indices|
    && ValidCoord(BinsPerAxis(g), task.binCoord)
    && forall a :: 0 <= a < |task.indices| ==>
         && 0 <= task.indices[a] < |pts|
         && task.points[a] == pts[task.indices[a]]
         && task.weights[a] == weights[task.indices[a]]
         && BinCoord(g, pts[task.indices[a]]) == task.binCoord
  }

  /** The subproblem holds every point of its bin. */
  predicate WholeBin(g: Geometry, pts: seq<seq<real>>, task: Subproblem)
    requires ValidGeometry(g) && ValidPoints(g, pts)
  {
    forall j :: 0 <= j < |pts| && BinCoord(g, pts[j]) == task.binCoord ==> j in task.indices
  }

  // ---------------------------------------------------------------------
  // Why the stream of subproblems is a partition into bins

  /**
   `keyed` holds one row per point: the linear index of the point's valid bin
   coordinate, and the point's own index.
   */
  predicate KeyedBy(bins: seq<int>, coords: seq<seq<int>>, keyed: seq<Pair>) {
    && PositiveAxes(bins)
    && |keyed| == |coords|
    && forall j :: 0 <= j < |coords| ==> ValidCoord(bins, coords[j]) && keyed[j] == Pair(Linearize(bins, coords[j]), j)
  }

  /** A point index is in the `i`-th group exactly when its bin has the `i`-th group's linear index. */
  lemma GroupMember(bins: seq<int>, coords: seq<seq<int>>, keyed: seq<Pair>, i: int, j: int)
    requires KeyedBy(bins, coords, keyed) && |keyed| >= 1
    requires 0 <= i < |GroupBy(keyed)|
    ensures |GroupKeys(keyed)| == |GroupBy(keyed)|
    ensures j in GroupBy(keyed)[i] <==> 0 <= j < |keyed| && keyed[j].key == GroupKeys(keyed)[i]
  {
    InGroup(keyed, i, j);
    KeyedRow(bins, coords, keyed, GroupKeys(keyed)[i], j);
  }

  /** The row `(key, j)` exists exactly when point `j` exists and its bin has linear index `key`. */
  lemma KeyedRow(bins: seq<int>, coords: seq<seq<int>>, keyed: seq<Pair>, key: int, j: int)
    requires KeyedBy(bins, coords, keyed)
    ensures Pair(key, j) in keyed <==> 0 <= j < |keyed| && keyed[j].key == key
  {
    if Pair(key, j) in keyed {
      var m :| 0 <= m < |keyed| && keyed[m] == Pair(key, j);
      assert keyed[m].value == m;
    }
    if 0 <= j < |keyed| && keyed[j].key == key {
      assert keyed[j] == Pair(key, j);
    }
  }

  /** All points of one group share their bin coordinate. */
  lemma GroupSharesBin(bins: seq<int>, coords: seq<seq<int>>, keyed: seq<Pair>, i: int, j1: int, j2: int)
    requires KeyedBy(bins, coords, keyed) && |keyed| >= 1
    requires 0 <= i < |GroupBy(keyed)|
    requires j1 in GroupBy(keyed)[i] && j2 in GroupBy(keyed)[i]
    ensures 0 <= j1 < |coords| && 0 <= j2 < |coords|
    ensures coords[j1] == coords[j2]
  {
    GroupMember(bins, coords, keyed, i, j1);
    GroupMember(bins, coords, keyed, i, j2);
    LinearizeInjective(bins, coords[j1], coords[j2]);
  }

  /** A group holds every point that shares the bin of one of its points. */
  lemma GroupIsWholeBin(bins: seq<int>, coords: seq<seq<int>>, keyed: seq<Pair>, i: int, j0: int)
    requires KeyedBy(bins, coords, keyed) && |keyed| >= 1
    requires 0 <= i < |GroupBy(keyed)| && 0 <= j0 < |coords| && j0 in GroupBy(keyed)[i]
    ensures forall j :: 0 <= j < |coords| && coords[j] == coords[j0] ==> j in GroupBy(keyed)[i]
  {
    forall j | 0 <= j < |coords| && coords[j] == coords[j0]
      ensures j in GroupBy(keyed)[i]
    {
      GroupMember(bins, coords, keyed, i, j0);
      GroupMember(bins, coords, keyed, i, j);
    }
  }

  /** A non-empty piece of one group: all its points share the first point's bin. */
  lemma PieceSharesBin(bins: seq<int>, coords: seq<seq<int>>, keyed: seq<Pair>, i: int, piece: seq<int>)
    requires KeyedBy(bins, coords, keyed) && |keyed| >= 1
    requires 0 <= i < |GroupBy(keyed)| && |piece| >= 1
    requires forall x :: x in piece ==> x in GroupBy(keyed)[i]
    ensures forall a :: 0 <= a < |piece| ==> 0 <= piece[a] < |coords|
    ensures forall a :: 0 <= a < |piece| ==> coords[piece[a]] == coords[piece[0]]
  {
    forall a | 0 <= a < |piece|
      ensures 0 <= piece[a] < |coords| && 0 <= piece[0] < |coords| && coords[piece[a]] == coords[piece[0]]
    {
      GroupSharesBin(bins, coords, keyed, i, piece[a], piece[0]);
    }
  }

  /** Every index list of the stream is a piece of one group. */
  lemma TaskInGroup(keyed: seq<Pair>, k: int, sub: seq<seq<seq<int>>>, t: int) returns (i: int)
    requires ExtractSubproblems(GroupBy(keyed), k) == Ok(sub)
    requires 0 <= t < |Flatten(sub)|
    ensures 0 <= i < |GroupBy(keyed)|
    ensures forall x :: x in Flatten(sub)[t] ==> x in GroupBy(keyed)[i]
    ensures k >= 1 ==> 1 <= |Flatten(sub)[t]| <= k
    ensures k == Unbounded ==> Flatten(sub)[t] == GroupBy(keyed)[i]
  {
    var groups := GroupBy(keyed);
    var a;
    i, a := FlattenIndex(sub, t);
    assert SplitBin(groups[i], k) == Ok(sub[i]);
    forall x | x in Flatten(sub)[t]
      ensures x in groups[i]
    {
      InFlatten(sub[i], x);
    }
  }

  /** With at least one point, no index list of the stream is empty. */
  lemma TaskSize(keyed: seq<Pair>, k: int, sub: seq<seq<seq<int>>>, t: int, i: int)
    requires |keyed| >= 1
    requires ExtractSubproblems(GroupBy(keyed), k) == Ok(sub)
    requires 0 <= t < |Flatten(sub)| && 0 <= i < |GroupBy(keyed)|
    requires k >= 1 ==> 1 <= |Flatten(sub)[t]| <= k
    requires k == Unbounded ==> Flatten(sub)[t] == GroupBy(keyed)[i]
    ensures 1 <= |Flatten(sub)[t]|
  {
    ExtractSucceeds(GroupBy(keyed), k);
    if k == Unbounded {
      GroupByCorrect(keyed);
    }
  }

  /** One index list of the stream: not empty, bounded by `k`, one bin, and the whole bin when `k == -1`. */
  lemma OneTaskOneBin(bins: seq<int>, coords: seq<seq<int>>, keyed: seq<Pair>, k: int, sub: seq<seq<seq<int>>>, content: seq<int>, t: int)
    requires KeyedBy(bins, coords, keyed) && |keyed| >= 1
    requires ExtractSubproblems(GroupBy(keyed), k) == Ok(sub)
    requires 0 <= t < |Flatten(sub)| && content == Flatten(sub)[t]
    ensures 1 <= |content| && (k >= 1 ==> |content| <= k)
    ensures forall a :: 0 <= a < |content| ==> 0 <= content[a] < |coords|
    ensures forall a :: 0 <= a < |content| ==> coords[content[a]] == coords[content[0]]
    ensures k == Unbounded ==> forall j :: 0 <= j < |coords| && coords[j] == coords[content[0]] ==> j in content
  {
    var i := TaskInGroup(keyed, k, sub, t);
    TaskSize(keyed, k, sub, t, i);
    PieceSharesBin(bins, coords, keyed, i, content);
    if k == Unbounded {
      GroupIsWholeBin(bins, coords, keyed, i, content[0]);
    }
  }

  /** Without points there is one empty group, which only `k == -1` passes on, as one empty list. */
  lemma StreamOfNoPoints(k: int, sub: seq<seq<seq<int>>>)
    requires ExtractSubproblems(GroupBy([]), k) == Ok(sub)
    ensures k == Unbounded && Flatten(sub) == [[]]
  {
    GroupByEmpty();
    ExtractSucceeds(GroupBy([]), k);
    var empty: seq<int> := [];
    assert sub == [[empty]];
    assert Flatten(sub) == [empty] + Flatten([]);
  }

  /**
   The stream of index lists is a partition of the point indices into
   non-empty lists of at most `k` points of one bin each, each the whole bin
   when `k == -1`.
   */
  lemma StreamFacts(bins: seq<int>, coords: seq<seq<int>>, keyed: seq<Pair>, k: int, sub: seq<seq<seq<int>>>, contents: seq<seq<int>>)
    requires KeyedBy(bins, coords, keyed)
    requires ExtractSubproblems(GroupBy(keyed), k) == Ok(sub)
    requires contents == Flatten(sub)
    ensures multiset(Flatten(contents)) == multiset(Range(|coords|))
    ensures forall t, a :: 0 <= t < |contents| && 0 <= a < |contents[t]| ==> 0 <= contents[t][a] < |coords|
    ensures |coords| == 0 ==> k == Unbounded && contents == [[]]
    ensures |coords| >= 1 ==> forall t :: 0 <= t < |contents| ==>
              1 <= |contents[t]| && (k >= 1 ==> |contents[t]| <= k)
    ensures |coords| >= 1 ==> forall t, a :: 0 <= t < |contents| && 0 <= a < |contents[t]| ==>
              coords[contents[t][a]] == coords[contents[t][0]]
    ensures |coords| >= 1 && k == Unbounded ==>
              forall t, j ::
                (0 <= t < |contents| && 0 <= j < |coords| && 1 <= |contents[t]| &&
                 coords[j] == coords[contents[t][0]]) ==> j in contents[t]
  {
    StreamPartition(bins, coords, keyed, k, sub, contents);
    if |coords| == 0 {
      assert keyed == [];
      StreamOfNoPoints(k, sub);
    } else {
      forall t | 0 <= t < |contents|
        ensures 1 <= |contents[t]| && (k >= 1 ==> |contents[t]| <= k)
        ensures forall a :: 0 <= a < |contents[t]| ==> coords[contents[t][a]] == coords[contents[t][0]]
        ensures k == Unbounded ==> forall j :: 0 <= j < |coords| && coords[j] == coords[contents[t][0]] ==> j in contents[t]
      {
        OneTaskOneBin(bins, coords, keyed, k, sub, contents[t], t);
      }
    }
  }

  /** The index lists of the stream, concatenated, are the point indices, each once. */
  lemma StreamPartition(bins: seq<int>, coords: seq<seq<int>>, keyed: seq<Pair>, k: int, sub: seq<seq<seq<int>>>, contents: seq<seq<int>>)
    requires KeyedBy(bins, coords, keyed)
    requires ExtractSubproblems(GroupBy(keyed), k) == Ok(sub)
    requires contents == Flatten(sub)
    ensures multiset(Flatten(contents)) == multiset(Range(|coords|))
    ensures forall t, a :: 0 <= t < |contents| && 0 <= a < |contents[t]| ==> 0 <= contents[t][a] < |coords|
  {
    ExtractLossless(GroupBy(keyed), k);
    GroupByLossless(keyed);
    KeyedValues(bins, coords, keyed);
    PartitionBounds(contents, |coords|);
  }

  /** The value column of the keyed rows is `0..n-1`. */
  lemma KeyedValues(bins: seq<int>, coords: seq<seq<int>>, keyed: seq<Pair>)
    requires KeyedBy(bins, coords, keyed)
    ensures Values(keyed) == Range(|coords|)
  {
  }

  /** Extraction fails only when there is no point or `k` is neither `-1` nor positive. */
  lemma DistributeFails(keyed: seq<Pair>, k: int)
    requires ExtractSubproblems(GroupBy(keyed), k).Err?
    ensures k != Unbounded && (|keyed| == 0 || k < 1)
  {
    ExtractSucceeds(GroupBy(keyed), k);
    if |keyed| >= 1 {
      GroupByCorrect(keyed);
    }
  }

  /** The packaged stream keeps the partition and bin facts of the index lists it packages. */
  lemma PackageFacts(g: Geometry, pts: seq<seq<real>>, weights: seq<real>, k: int, contents: seq<seq<int>>, r: Result<seq<Subproblem>>)
    requires ValidGeometry(g) && ValidPoints(g, pts) && |weights| == |pts|
    requires forall t, a :: 0 <= t < |contents| && 0 <= a < |contents[t]| ==> 0 <= contents[t][a] < |pts|
    requires r == Package(pts, Coords(g, pts), weights, contents)
    requires multiset(Flatten(contents)) == multiset(Range(|pts|))
    requires |pts| == 0 ==> k == Unbounded && contents == [[]]
    requires |pts| >= 1 ==> forall t :: 0 <= t < |contents| ==>
               1 <= |contents[t]| && (k >= 1 ==> |contents[t]| <= k)
    requires |pts| >= 1 ==> forall t, a :: 0 <= t < |contents| && 0 <= a < |contents[t]| ==>
               Coords(g, pts)[contents[t][a]] == Coords(g, pts)[contents[t][0]]
    requires |pts| >= 1 && k == Unbounded ==>
               forall t, j ::
                 (0 <= t < |contents| && 0 <= j < |pts| && 1 <= |contents[t]| &&
                  Coords(g, pts)[j] == Coords(g, pts)[contents[t][0]]) ==> j in contents[t]
    ensures r.Ok? <==> |pts| >= 1
    ensures r.Err? ==> r == Err(IndexError)
    ensures r.Ok? ==> multiset(AllIndices(r.value)) == multiset(Range(|pts|))
    ensures r.Ok? ==> forall t :: 0 <= t < |r.value| ==> WellFormedTask(g, pts, weights, k, r.value[t])
    ensures r.Ok? && k == Unbounded ==> forall t :: 0 <= t < |r.value| ==> WholeBin(g, pts, r.value[t])
  {
    var coords := Coords(g, pts);
    if |pts| == 0 {
      assert |contents[0]| == 0;
    } else {
      var tasks := r.value;
      assert seq(|tasks|, t requires 0 <= t < |tasks| => tasks[t].indices) == contents;
      forall t | 0 <= t < |tasks|
        ensures WellFormedTask(g, pts, weights, k, tasks[t])
        ensures k == Unbounded ==> WholeBin(g, pts, tasks[t])
      {
        assert BinContentTuple(pts, coords, weights, contents[t]) == Ok(tasks[t]);
        forall a | 0 <= a < |contents[t]|
          ensures BinCoord(g, pts[contents[t][a]]) == tasks[t].binCoord
        {
          assert coords[contents[t][a]] == coords[contents[t][0]];
        }
      }
    }
  }
}

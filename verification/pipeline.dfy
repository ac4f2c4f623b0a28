/**
 `mapped_distance_matrix`: default the weights, distribute the points into
 subproblems, let a worker map every subproblem to a block of values over grid
 cells, write every block into an all-zero array of shape
 `(*uniform_grid_cell_count, n_points)` as the results complete, and reshape
 that array to one row per grid cell.

 What a worker computes (`compute_mapped_distance_on_subgroup`: distances to
 the grid cells near the bin, mapped through `function`) is the parameter
 `mapper`; the order in which `as_completed` yields the results is the
 parameter `schedule`, which for `m` subproblems may be any permutation of
 `0..m-1`.
 */
module Pipeline {
  import opened Common
  import opened BinIndex
  import opened Grouping
  import opened Extract
  import opened Subproblems
  import opened Aggregation

  /**
   The result of one worker: the grid cells it addresses (the per-axis index
   arrays of `samples1_idxes`, one cell per row) and, per cell, one value per
   point of the subproblem (`submatrix`).
   */
  datatype Mapped = Mapped(cells: seq<seq<int>>, values: seq<seq<real>>)

  /** The worker's result fits the grid and its subproblem, and names no cell twice. */
  predicate MapperFits(cellCount: seq<int>, task: Subproblem, m: Mapped) {
    && |m.values| == |m.cells|
    && (forall a :: 0 <= a < |m.cells| ==> ValidCoord(cellCount, m.cells[a]) && |m.values[a]| == |task.indices|)
    && Distinct(m.cells)
  }

  /** `weights = np.ones(len(points))` when no weights are given. */
  function WeightsOrOnes(weights: Option<seq<real>>, n: nat): (w: seq<real>)
    requires weights.Some? ==> |weights.value| == n
    ensures |w| == n
    ensures weights.None? ==> forall j :: 0 <= j < n ==> w[j] == 1.0
    ensures weights.Some? ==> w == weights.value
  {
    match weights
    case None => seq(n, j => 1.0)
    case Some(given) => given
  }

  /** The block each worker writes: its cells and values, at the point indices of its subproblem. */
  function WorkerBlocks(tasks: seq<Subproblem>, mapper: Subproblem -> Mapped): (blocks: seq<Block>)
    ensures |blocks| == |tasks|
    ensures forall t :: 0 <= t < |tasks| ==>
              && blocks[t].cells == mapper(tasks[t]).cells
              && blocks[t].points == tasks[t].indices
              && blocks[t].values == mapper(tasks[t]).values
  {
    seq(|tasks|, t requires 0 <= t < |tasks| => Block(mapper(tasks[t]).cells, tasks[t].indices, mapper(tasks[t]).values))
  }

  /** Some block writes the entry at row `c` (a cell in C order), column `p` (a point) of the result. */
  predicate Written(cellCount: seq<int>, blocks: seq<Block>, c: int, p: int) {
    exists t, a, j :: 0 <= t < |blocks| && 0 <= a < |blocks[t].cells| && 0 <= j < |blocks[t].points| &&
      |blocks[t].cells[a]| == |cellCount| &&
      Linearize(cellCount, blocks[t].cells[a]) == c && blocks[t].points[j] == p
  }

  /**
   What the result matrix is, given the workers' blocks: one row per grid
   cell (in C order) and one column per point; the blocks fit the grid and
   never share a point; every value a block carries sits at its cell and
   point, and every entry no block writes is zero.
   */
  predicate Describes(cellCount: seq<int>, n: nat, blocks: seq<Block>, m: seq<seq<real>>) {
    && |m| == Product(cellCount)
    && (forall c :: 0 <= c < |m| ==> |m[c]| == n)
    && AllShaped(cellCount, n, blocks) && DisjointPoints(blocks)
    && (forall t :: 0 <= t < |blocks| ==> Lands(cellCount, m, blocks[t]))
    && (forall c, p :: 0 <= c < |m| && 0 <= p < n && !Written(cellCount, blocks, c, p) ==> m[c][p] == 0.0)
  }

  /** The subproblems of `mapped_distance_matrix`, with the weights defaulted. */
  function Tasks(g: Geometry, pts: seq<seq<real>>, weights: Option<seq<real>>, k: int): Result<seq<Subproblem>>
    requires ValidGeometry(g) && ValidPoints(g, pts)
    requires weights.Some? ==> |weights.value| == |pts|
  {
    Distribute(g, pts, WeightsOrOnes(weights, |pts|), k)
  }

  lemma CellAxesPositive(g: Geometry)
    requires ValidGeometry(g)
    ensures PositiveAxes(g.cellCount)
    ensures Product(g.cellCount) >= 1
  {
    ProductPositive(g.cellCount);
  }

  /**
   `mapped_distance_matrix`: a matrix with one row per grid cell (in C order)
   and one column per point. The workers' blocks fit the grid and never share
   a point; the entry of a cell and a point holds what the worker of the
   point's subproblem computed for that cell, and zero where no worker wrote.
   The errors are those of `distribute_subproblems`.
   */
  function MappedDistanceMatrix(g: Geometry, pts: seq<seq<real>>, weights: Option<seq<real>>, k: int,
                                mapper: Subproblem -> Mapped, schedule: nat -> seq<int>): (r: Result<seq<seq<real>>>)
    requires ValidGeometry(g) && ValidPoints(g, pts)
    requires weights.Some? ==> |weights.value| == |pts|
    requires forall task :: MapperFits(g.cellCount, task, mapper(task))
    requires forall m: nat :: CompletionOrder(schedule(m), m)
    ensures r.Ok? <==> |pts| >= 1 && (k == Unbounded || k >= 1)
    ensures r.Err? ==> r.error == (if k == 0 then ZeroDivisionError else if k == Unbounded then IndexError else ValueError)
    ensures r.Ok? ==> Tasks(g, pts, weights, k).Ok?
    ensures r.Ok? ==> Describes(g.cellCount, |pts|, WorkerBlocks(Tasks(g, pts, weights, k).value, mapper), r.value)
  {
    CellAxesPositive(g);
    match Tasks(g, pts, weights, k)
    case Err(e) => Err(e)
    case Ok(tasks) => Ok(Assemble(g.cellCount, |pts|, tasks, mapper, schedule))
  }

  /**
   The part of `mapped_distance_matrix` after the subproblems exist: the
   workers' blocks, written into zeros in the order `schedule` gives, reshaped
   to one row per cell.
   */
  function Assemble(cellCount: seq<int>, n: nat, tasks: seq<Subproblem>,
                    mapper: Subproblem -> Mapped, schedule: nat -> seq<int>): (m: seq<seq<real>>)
    requires PositiveAxes(cellCount) && Product(cellCount) >= 1
    requires multiset(AllIndices(tasks)) == multiset(Range(n))
    requires forall task :: MapperFits(cellCount, task, mapper(task))
    requires forall m: nat :: CompletionOrder(schedule(m), m)
    ensures Describes(cellCount, n, WorkerBlocks(tasks, mapper), m)
  {
    var blocks := WorkerBlocks(tasks, mapper);
    var order := schedule(|tasks|);
    BlocksFit(cellCount, n, tasks, mapper);
    CompletionOrderCovers(order, |blocks|);
    var m := Reshape(Aggregate(cellCount, n, blocks, order), Product(cellCount), n);
    MatrixValues(cellCount, n, blocks, order, m);
    MatrixZeros(cellCount, n, blocks, order, m);
    m
  }

  /**
   Subproblems that partition the points give blocks that are well shaped and
   never write the same point twice.
   */
  lemma BlocksFit(cellCount: seq<int>, n: nat, tasks: seq<Subproblem>, mapper: Subproblem -> Mapped)
    requires multiset(AllIndices(tasks)) == multiset(Range(n))
    requires forall task :: MapperFits(cellCount, task, mapper(task))
    ensures AllShaped(cellCount, n, WorkerBlocks(tasks, mapper)) && DisjointPoints(WorkerBlocks(tasks, mapper))
  {
    var blocks := WorkerBlocks(tasks, mapper);
    var parts := seq(|tasks|, t requires 0 <= t < |tasks| => tasks[t].indices);
    RangeCountAtMostOne(n);
    assert multiset(Flatten(parts)) == multiset(Range(n));
    FlattenCountAtMostOne(parts);
    PartitionBounds(parts, n);
    forall t | 0 <= t < |blocks|
      ensures BlockShape(cellCount, n, blocks[t])
    {
      assert MapperFits(cellCount, tasks[t], mapper(tasks[t]));
      assert parts[t] == tasks[t].indices;
    }
    forall t1, t2, j1, j2 |
      && 0 <= t1 < |blocks| && 0 <= t2 < |blocks| && 0 <= j1 < |blocks[t1].points| && 0 <= j2 < |blocks[t2].points|
      && blocks[t1].points[j1] == blocks[t2].points[j2]
      ensures t1 == t2
    {
      assert parts[t1] == blocks[t1].points && parts[t2] == blocks[t2].points;
    }
  }

  /** The matrix entry of a block's cell and point is the block's value. */
  lemma MatrixValueAt(cellCount: seq<int>, n: nat, blocks: seq<Block>, order: seq<int>, m: seq<seq<real>>,
                      t: int, a: int, j: int)
    requires PositiveAxes(cellCount) && Product(cellCount) >= 1
    requires AllShaped(cellCount, n, blocks) && DisjointPoints(blocks) && CompletionOrder(order, |blocks|)
    requires IndicesBelow(order, |blocks|)
    requires m == Reshape(Aggregate(cellCount, n, blocks, order), Product(cellCount), n)
    requires 0 <= t < |blocks| && 0 <= a < |blocks[t].cells| && 0 <= j < |blocks[t].points|
    ensures |blocks[t].cells[a]| == |cellCount|
    ensures 0 <= Linearize(cellCount, blocks[t].cells[a]) < |m|
    ensures 0 <= blocks[t].points[j] < n
    ensures m[Linearize(cellCount, blocks[t].cells[a])][blocks[t].points[j]] == blocks[t].values[a][j]
  {
    var b := blocks[t];
    assert BlockShape(cellCount, n, b);
    var buffer := Aggregate(cellCount, n, blocks, order);
    AggregateAt(cellCount, n, blocks, order, t, a, j);
    ReshapeOffset(cellCount, n, buffer, b.cells[a], b.points[j]);
  }

  /** Offset `Linearize(cell) * n + p` of the flat buffer is entry `[Linearize(cell)][p]` once reshaped to `(-1, n)`. */
  lemma ReshapeOffset(cellCount: seq<int>, n: nat, buffer: seq<real>, cell: seq<int>, p: int)
    requires PositiveAxes(cellCount) && |buffer| == Product(cellCount) * n
    requires ValidCoord(cellCount, cell) && 0 <= p < n
    ensures 0 <= Linearize(cellCount, cell) < Product(cellCount)
    ensures 0 <= Offset(cellCount, n, cell, p) < |buffer|
    ensures Reshape(buffer, Product(cellCount), n)[Linearize(cellCount, cell)][p] == buffer[Offset(cellCount, n, cell, p)]
  {
    LinearizeInRange(cellCount, cell);
    OffsetRowMajor(cellCount, n, cell, p);
    ReshapeAt(buffer, Product(cellCount), n, Linearize(cellCount, cell), p);
  }

  /** Every value of block `b` is the entry of `m` at the block's cell (in C order) and point. */
  predicate Lands(cellCount: seq<int>, m: seq<seq<real>>, b: Block) {
    forall a, j :: 0 <= a < |b.cells| && 0 <= j < |b.points| ==> LandsAt(cellCount, m, b, a, j)
  }

  /** Value `(a, j)` of block `b` is the entry of `m` at cell `a` and point `j` of the block. */
  predicate LandsAt(cellCount: seq<int>, m: seq<seq<real>>, b: Block, a: int, j: int)
    requires 0 <= a < |b.cells| && 0 <= j < |b.points|
  {
    && |b.cells[a]| == |cellCount| && a < |b.values| && j < |b.values[a]|
    && 0 <= Linearize(cellCount, b.cells[a]) < |m|
    && 0 <= b.points[j] < |m[Linearize(cellCount, b.cells[a])]|
    && m[Linearize(cellCount, b.cells[a])][b.points[j]] == b.values[a][j]
  }

  lemma MatrixValues(cellCount: seq<int>, n: nat, blocks: seq<Block>, order: seq<int>, m: seq<seq<real>>)
    requires PositiveAxes(cellCount) && Product(cellCount) >= 1
    requires AllShaped(cellCount, n, blocks) && DisjointPoints(blocks) && CompletionOrder(order, |blocks|)
    requires IndicesBelow(order, |blocks|)
    requires m == Reshape(Aggregate(cellCount, n, blocks, order), Product(cellCount), n)
    ensures forall t :: 0 <= t < |blocks| ==> Lands(cellCount, m, blocks[t])
  {
    forall t | 0 <= t < |blocks|
      ensures Lands(cellCount, m, blocks[t])
    {
      var b := blocks[t];
      forall a, j | 0 <= a < |b.cells| && 0 <= j < |b.points|
        ensures LandsAt(cellCount, m, b, a, j)
      {
        assert BlockShape(cellCount, n, b);
        MatrixValueAt(cellCount, n, blocks, order, m, t, a, j);
      }
    }
  }

  /** An entry no block writes is zero. */
  lemma MatrixZeroAt(cellCount: seq<int>, n: nat, blocks: seq<Block>, order: seq<int>, m: seq<seq<real>>, c: int, p: int)
    requires PositiveAxes(cellCount) && Product(cellCount) >= 1
    requires AllShaped(cellCount, n, blocks) && IndicesBelow(order, |blocks|)
    requires m == Reshape(Aggregate(cellCount, n, blocks, order), Product(cellCount), n)
    requires 0 <= c < Product(cellCount) && 0 <= p < n && !Written(cellCount, blocks, c, p)
    ensures m[c][p] == 0.0
  {
    UnwrittenIsZero(cellCount, n, blocks, order, c, p);
    ReshapeZeroAt(Aggregate(cellCount, n, blocks, order), Product(cellCount), n, c, p);
  }

  /** After the loop, the buffer place of an entry `[c][p]` that no block writes is zero. */
  lemma UnwrittenIsZero(cellCount: seq<int>, n: nat, blocks: seq<Block>, order: seq<int>, c: int, p: int)
    requires PositiveAxes(cellCount) && AllShaped(cellCount, n, blocks) && IndicesBelow(order, |blocks|)
    requires 0 <= c < Product(cellCount) && 0 <= p < n && !Written(cellCount, blocks, c, p)
    ensures 0 <= c * n + p < |Aggregate(cellCount, n, blocks, order)|
    ensures Aggregate(cellCount, n, blocks, order)[c * n + p] == 0.0
  {
    RowMajorBounds(Product(cellCount), n, c, p);
    forall t | 0 <= t < |blocks|
      ensures !Covers(cellCount, n, blocks[t], c * n + p)
    {
      CoversIsWritten(cellCount, n, blocks, t, c, p);
    }
    AggregateZeroAt(cellCount, n, blocks, order, c * n + p);
  }

  /** A zero at place `c * cols + p` of the buffer is the zero at `[c][p]` of the reshaped matrix. */
  lemma ReshapeZeroAt(buffer: seq<real>, rows: nat, cols: nat, c: int, p: int)
    requires |buffer| == rows * cols && 0 <= c < rows && 0 <= p < cols
    requires 0 <= c * cols + p < |buffer| && buffer[c * cols + p] == 0.0
    ensures |Reshape(buffer, rows, cols)| == rows && |Reshape(buffer, rows, cols)[c]| == cols
    ensures Reshape(buffer, rows, cols)[c][p] == 0.0
  {
    ReshapeAt(buffer, rows, cols, c, p);
  }

  /** A block that covers offset `c * n + p` writes entry `[c][p]`. */
  lemma CoversIsWritten(cellCount: seq<int>, n: nat, blocks: seq<Block>, t: int, c: int, p: int)
    requires PositiveAxes(cellCount) && AllShaped(cellCount, n, blocks)
    requires 0 <= t < |blocks| && 0 <= p < n
    ensures Covers(cellCount, n, blocks[t], c * n + p) ==> Written(cellCount, blocks, c, p)
  {
    var b := blocks[t];
    if Covers(cellCount, n, b, c * n + p) {
      var a, j :| 0 <= a < |b.cells| && 0 <= j < |b.points| && Offset(cellCount, n, b.cells[a], b.points[j]) == c * n + p;
      assert BlockShape(cellCount, n, b);
      OffsetRowMajor(cellCount, n, b.cells[a], b.points[j]);
      DivModUnique(Linearize(cellCount, b.cells[a]), b.points[j], c, p, n);
    }
  }

  lemma MatrixZeros(cellCount: seq<int>, n: nat, blocks: seq<Block>, order: seq<int>, m: seq<seq<real>>)
    requires PositiveAxes(cellCount) && Product(cellCount) >= 1
    requires AllShaped(cellCount, n, blocks) && IndicesBelow(order, |blocks|)
    requires m == Reshape(Aggregate(cellCount, n, blocks, order), Product(cellCount), n)
    ensures forall c, p :: 0 <= c < |m| && 0 <= p < n && !Written(cellCount, blocks, c, p) ==> m[c][p] == 0.0
  {
    forall c, p | 0 <= c < |m| && 0 <= p < n && !Written(cellCount, blocks, c, p)
      ensures m[c][p] == 0.0
    {
      MatrixZeroAt(cellCount, n, blocks, order, m, c, p);
    }
  }

  /** The assembled matrix is the same for any two completion orders: both hold every block value at its place and zero elsewhere. */
  lemma AssembleScheduleIndependent(cellCount: seq<int>, n: nat, tasks: seq<Subproblem>,
                                    mapper: Subproblem -> Mapped, s1: nat -> seq<int>, s2: nat -> seq<int>)
    requires PositiveAxes(cellCount) && Product(cellCount) >= 1
    requires multiset(AllIndices(tasks)) == multiset(Range(n))
    requires forall task :: MapperFits(cellCount, task, mapper(task))
    requires forall m: nat :: CompletionOrder(s1(m), m)
    requires forall m: nat :: CompletionOrder(s2(m), m)
    ensures Assemble(cellCount, n, tasks, mapper, s1) == Assemble(cellCount, n, tasks, mapper, s2)
  {
    var m1, m2 := Assemble(cellCount, n, tasks, mapper, s1), Assemble(cellCount, n, tasks, mapper, s2);
    var blocks := WorkerBlocks(tasks, mapper);
    forall c | 0 <= c < |m1|
      ensures m1[c] == m2[c]
    {
      forall p | 0 <= p < n
        ensures m1[c][p] == m2[c][p]
      {
        if Written(cellCount, blocks, c, p) {
          var t, a, j :| 0 <= t < |blocks| && 0 <= a < |blocks[t].cells| && 0 <= j < |blocks[t].points| &&
            |blocks[t].cells[a]| == |cellCount| &&
            Linearize(cellCount, blocks[t].cells[a]) == c && blocks[t].points[j] == p;
          assert Lands(cellCount, m1, blocks[t]) && Lands(cellCount, m2, blocks[t]);
          assert LandsAt(cellCount, m1, blocks[t], a, j) && LandsAt(cellCount, m2, blocks[t], a, j);
        }
      }
    }
  }

  /**
   The order in which the futures complete does not change the result of
   `mapped_distance_matrix`.
   */
  lemma ScheduleIndependent(g: Geometry, pts: seq<seq<real>>, weights: Option<seq<real>>, k: int,
                            mapper: Subproblem -> Mapped, s1: nat -> seq<int>, s2: nat -> seq<int>)
    requires ValidGeometry(g) && ValidPoints(g, pts)
    requires weights.Some? ==> |weights.value| == |pts|
    requires forall task :: MapperFits(g.cellCount, task, mapper(task))
    requires forall m: nat :: CompletionOrder(s1(m), m)
    requires forall m: nat :: CompletionOrder(s2(m), m)
    ensures MappedDistanceMatrix(g, pts, weights, k, mapper, s1) == MappedDistanceMatrix(g, pts, weights, k, mapper, s2)
  {
    CellAxesPositive(g);
    if Tasks(g, pts, weights, k).Ok? {
      AssembleScheduleIndependent(g.cellCount, |pts|, Tasks(g, pts, weights, k).value, mapper, s1, s2);
    }
  }

  /** Without weights, every subproblem carries weight one for each of its points. */
  lemma DefaultWeightsAreOne(g: Geometry, pts: seq<seq<real>>, k: int)
    requires ValidGeometry(g) && ValidPoints(g, pts) && Tasks(g, pts, None, k).Ok?
    ensures forall t, a :: 0 <= t < |Tasks(g, pts, None, k).value| && 0 <= a < |Tasks(g, pts, None, k).value[t].weights| ==>
              Tasks(g, pts, None, k).value[t].weights[a] == 1.0
  {
    var w := WeightsOrOnes(None, |pts|);
    var tasks := Tasks(g, pts, None, k).value;
    forall t, a | 0 <= t < |tasks| && 0 <= a < |tasks[t].weights|
      ensures tasks[t].weights[a] == 1.0
    {
      var task := tasks[t];
      assert WellFormedTask(g, pts, w, k, task);
      assert 0 <= task.indices[a] < |pts| && task.weights[a] == w[task.indices[a]];
    }
  }
}

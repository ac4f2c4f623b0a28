/**
 The aggregation loop of `mapped_distance_matrix`: the output starts as an
 all-zero array of shape `(*uniform_grid_cell_count, n_points)`, the result of
 every subproblem is written into its own index slice in whatever order the
 futures complete, and the array is reshaped to `(cells, n_points)`.

 The array is modelled as its C-order buffer, a `seq<real>`; a write of a
 subproblem's result is a sequence of single-entry writes. What a worker
 computes for a subproblem is a parameter (`mapper`), and the order in which
 the results arrive is a parameter (`schedule`) constrained only to be a
 permutation of the subproblems.
 */
module Aggregation {
  import opened Common
  import opened BinIndex
  import opened Subproblems

  /** One entry write `buffer[offset] = value`. */
  datatype Entry = Entry(offset: int, value: real)

  predicate OffsetsBelow(es: seq<Entry>, size: int) {
    forall i :: 0 <= i < |es| ==> 0 <= es[i].offset < size
  }

  /** Entries that agree wherever they write the same place, so their write order does not matter. */
  predicate Consistent(es: seq<Entry>) {
    forall e1, e2 :: e1 in es && e2 in es && e1.offset == e2.offset ==> e1.value == e2.value
  }

  /** The writes applied one after the other, the last one last. */
  function WriteEntries(buffer: seq<real>, es: seq<Entry>): (r: seq<real>)
    requires OffsetsBelow(es, |buffer|)
    ensures |r| == |buffer|
    ensures forall x :: 0 <= x < |buffer| && (forall e :: e in es ==> e.offset != x) ==> r[x] == buffer[x]
    ensures Consistent(es) ==> forall e :: e in es ==> r[e.offset] == e.value
    decreases |es|
  {
    if |es| == 0 then buffer
    else
      var init := es[..|es| - 1];
      var last := es[|es| - 1];
      assert forall e :: e in es <==> e in init || e == last by {
        assert es == init + [last];
      }
      WriteEntries(buffer, init)[last.offset := last.value]
  }

  /** Writing two lists of entries is writing their concatenation. */
  lemma {:induction false} WriteEntriesConcat(buffer: seq<real>, a: seq<Entry>, b: seq<Entry>)
    requires OffsetsBelow(a, |buffer|) && OffsetsBelow(b, |buffer|)
    ensures OffsetsBelow(a + b, |buffer|)
    ensures WriteEntries(WriteEntries(buffer, a), b) == WriteEntries(buffer, a + b)
    decreases |b|
  {
    assert OffsetsBelow(a + b, |buffer|) by {
      forall i | 0 <= i < |a + b|
        ensures 0 <= (a + b)[i].offset < |buffer|
      {
        if i >= |a| {
          assert (a + b)[i] == b[i - |a|];
        }
      }
    }
    if |b| == 0 {
      assert a + b == a;
    } else {
      var b', last := b[..|b| - 1], b[|b| - 1];
      assert (a + b)[..|a + b| - 1] == a + b';
      assert (a + b)[|a + b| - 1] == last;
      WriteEntriesConcat(buffer, a, b');
      calc {
        WriteEntries(WriteEntries(buffer, a), b);
        WriteEntries(WriteEntries(buffer, a), b')[last.offset := last.value];
        WriteEntries(buffer, a + b')[last.offset := last.value];
        WriteEntries(buffer, a + b);
      }
    }
  }

  // ---------------------------------------------------------------------
  // The output array and one subproblem's result

  /** Where entry `(cell, point)` of an array of shape `(*cellCount, n)` sits in its C-order buffer. */
  function Offset(cellCount: seq<int>, n: int, cell: seq<int>, point: int): int
    requires |cell| == |cellCount|
  {
    Linearize(cellCount, cell) * n + point
  }

  lemma OffsetRowMajor(cellCount: seq<int>, n: int, cell: seq<int>, point: int)
    requires |cell| == |cellCount|
    ensures Offset(cellCount, n, cell, point) == Linearize(cellCount, cell) * n + point
  {
  }

  /** The offset is the C-order index of `cell + [point]` in the grid extended by an axis of `n` points. */
  lemma OffsetIsLinearize(cellCount: seq<int>, n: int, cell: seq<int>, point: int)
    requires |cell| == |cellCount|
    ensures Offset(cellCount, n, cell, point) == Linearize(cellCount + [n], cell + [point])
  {
    LinearizeAppendAxis(cellCount, cell, n, point);
  }

  lemma OffsetBounds(cellCount: seq<int>, n: int, cell: seq<int>, point: int)
    requires PositiveAxes(cellCount) && ValidCoord(cellCount, cell) && 0 <= point < n
    ensures 0 <= Offset(cellCount, n, cell, point) < Product(cellCount) * n
  {
    LinearizeInRange(cellCount, cell);
    RowMajorBounds(Product(cellCount), n, Linearize(cellCount, cell), point);
    OffsetRowMajor(cellCount, n, cell, point);
  }

  /** Different entries of the array sit at different places of the buffer. */
  lemma OffsetInjective(cellCount: seq<int>, n: int, c1: seq<int>, p1: int, c2: seq<int>, p2: int)
    requires PositiveAxes(cellCount) && ValidCoord(cellCount, c1) && ValidCoord(cellCount, c2)
    requires 0 <= p1 < n && 0 <= p2 < n
    requires Offset(cellCount, n, c1, p1) == Offset(cellCount, n, c2, p2)
    ensures c1 == c2 && p1 == p2
  {
    DivModUnique(Linearize(cellCount, c1), p1, Linearize(cellCount, c2), p2, n);
    LinearizeInjective(cellCount, c1, c2);
  }

  /**
   The result of one subproblem: the grid cells it covers, the indices of
   its points, and one row of values per cell with one value per point
   (`submatrix` and `idxes_broadcastable_tuple`).
   */
  datatype Block = Block(cells: seq<seq<int>>, points: seq<int>, values: seq<seq<real>>)

  /** The values fit the cells and points, every cell is in the grid, and no cell or point repeats. */
  predicate BlockShape(cellCount: seq<int>, n: int, b: Block) {
    && |b.values| == |b.cells|
    && (forall a :: 0 <= a < |b.cells| ==> ValidCoord(cellCount, b.cells[a]) && |b.values[a]| == |b.points|)
    && (forall j :: 0 <= j < |b.points| ==> 0 <= b.points[j] < n)
    && Distinct(b.cells)
    && Distinct(b.points)
  }

  /** The block writes place `x` of the buffer. */
  predicate Covers(cellCount: seq<int>, n: int, b: Block, x: int)
    requires BlockShape(cellCount, n, b)
  {
    exists a, j :: 0 <= a < |b.cells| && 0 <= j < |b.points| && Offset(cellCount, n, b.cells[a], b.points[j]) == x
  }

  /** The single-entry writes of `mapped_distance[idxes] = submatrix`, row by row. */
  function Entries(cellCount: seq<int>, n: int, b: Block): (es: seq<Entry>)
    requires BlockShape(cellCount, n, b)
    ensures forall e :: e in es <==>
              exists a, j :: 0 <= a < |b.cells| && 0 <= j < |b.points| &&
                e == Entry(Offset(cellCount, n, b.cells[a], b.points[j]), b.values[a][j])
  {
    var rows := EntryRows(cellCount, n, b);
    forall e
      ensures e in Flatten(rows) <==>
                exists a, j :: 0 <= a < |b.cells| && 0 <= j < |b.points| &&
                  e == Entry(Offset(cellCount, n, b.cells[a], b.points[j]), b.values[a][j])
    {
      EntryRowsFrom(cellCount, n, b, e);
      EntryRowsHold(cellCount, n, b, e);
    }
    Flatten(rows)
  }

  lemma EntryRowsFrom(cellCount: seq<int>, n: int, b: Block, e: Entry)
    requires BlockShape(cellCount, n, b)
    ensures e in Flatten(EntryRows(cellCount, n, b)) ==>
              exists a, j :: 0 <= a < |b.cells| && 0 <= j < |b.points| &&
                e == Entry(Offset(cellCount, n, b.cells[a], b.points[j]), b.values[a][j])
  {
    var rows := EntryRows(cellCount, n, b);
    InFlatten(rows, e);
    if e in Flatten(rows) {
      var a :| 0 <= a < |rows| && e in rows[a];
      var j :| 0 <= j < |rows[a]| && rows[a][j] == e;
    }
  }

  lemma EntryRowsHold(cellCount: seq<int>, n: int, b: Block, e: Entry)
    requires BlockShape(cellCount, n, b)
    ensures (exists a, j :: 0 <= a < |b.cells| && 0 <= j < |b.points| &&
               e == Entry(Offset(cellCount, n, b.cells[a], b.points[j]), b.values[a][j]))
            ==> e in Flatten(EntryRows(cellCount, n, b))
  {
    var rows := EntryRows(cellCount, n, b);
    if exists a, j :: 0 <= a < |b.cells| && 0 <= j < |b.points| &&
         e == Entry(Offset(cellCount, n, b.cells[a], b.points[j]), b.values[a][j]) {
      var a, j :| 0 <= a < |b.cells| && 0 <= j < |b.points| &&
        e == Entry(Offset(cellCount, n, b.cells[a], b.points[j]), b.values[a][j]);
      assert e == rows[a][j];
      InFlatten(rows, e);
    }
  }

  /** The writes of one block grouped by cell: row `a` writes cell `a` for every point. */
  function EntryRows(cellCount: seq<int>, n: int, b: Block): (rows: seq<seq<Entry>>)
    requires BlockShape(cellCount, n, b)
    ensures |rows| == |b.cells|
    ensures forall a :: 0 <= a < |rows| ==> |rows[a]| == |b.points|
    ensures forall a, j :: 0 <= a < |rows| && 0 <= j < |b.points| ==>
              rows[a][j] == Entry(Offset(cellCount, n, b.cells[a], b.points[j]), b.values[a][j])
  {
    seq(|b.cells|, a requires 0 <= a < |b.cells| =>
      seq(|b.points|, j requires 0 <= j < |b.points| =>
        Entry(Offset(cellCount, n, b.cells[a], b.points[j]), b.values[a][j])))
  }

  /** One block's entries sit inside the buffer and never write one place twice with different values. */
  lemma EntriesFit(cellCount: seq<int>, n: int, b: Block)
    requires PositiveAxes(cellCount) && BlockShape(cellCount, n, b)
    ensures OffsetsBelow(Entries(cellCount, n, b), Product(cellCount) * n)
    ensures Consistent(Entries(cellCount, n, b))
  {
    var es := Entries(cellCount, n, b);
    forall i | 0 <= i < |es|
      ensures 0 <= es[i].offset < Product(cellCount) * n
    {
      EntryInBuffer(cellCount, n, b, es[i]);
    }
    forall e1, e2 | e1 in es && e2 in es && e1.offset == e2.offset
      ensures e1.value == e2.value
    {
      EntriesAgree(cellCount, n, b, e1, e2);
    }
  }

  lemma EntryInBuffer(cellCount: seq<int>, n: int, b: Block, e: Entry)
    requires PositiveAxes(cellCount) && BlockShape(cellCount, n, b) && e in Entries(cellCount, n, b)
    ensures 0 <= e.offset < Product(cellCount) * n
  {
    var a, j := EntryOfBlock(cellCount, n, b, e);
    OffsetBounds(cellCount, n, b.cells[a], b.points[j]);
  }

  lemma EntriesAgree(cellCount: seq<int>, n: int, b: Block, e1: Entry, e2: Entry)
    requires PositiveAxes(cellCount) && BlockShape(cellCount, n, b)
    requires e1 in Entries(cellCount, n, b) && e2 in Entries(cellCount, n, b) && e1.offset == e2.offset
    ensures e1.value == e2.value
  {
    var a1, j1 := EntryOfBlock(cellCount, n, b, e1);
    var a2, j2 := EntryOfBlock(cellCount, n, b, e2);
    OffsetInjective(cellCount, n, b.cells[a1], b.points[j1], b.cells[a2], b.points[j2]);
    DistinctIndex(b.cells, a1, a2);
    DistinctIndex(b.points, j1, j2);
  }

  lemma DistinctIndex<T>(s: seq<T>, i: int, j: int)
    requires Distinct(s) && 0 <= i < |s| && 0 <= j < |s| && s[i] == s[j]
    ensures i == j
  {
  }

  /**
   `mapped_distance[idxes_broadcastable_tuple] = submatrix`: every value lands
   at its cell and point, and every place the block does not cover keeps its
   value.
   */
  function Scatter(buffer: seq<real>, cellCount: seq<int>, n: int, b: Block): (r: seq<real>)
    requires PositiveAxes(cellCount) && BlockShape(cellCount, n, b) && |buffer| == Product(cellCount) * n
    ensures |r| == |buffer|
    ensures forall a, j :: 0 <= a < |b.cells| && 0 <= j < |b.points| ==>
              0 <= Offset(cellCount, n, b.cells[a], b.points[j]) < |r|
    ensures forall a, j :: 0 <= a < |b.cells| && 0 <= j < |b.points| ==>
              r[Offset(cellCount, n, b.cells[a], b.points[j])] == b.values[a][j]
    ensures forall x :: 0 <= x < |buffer| && !Covers(cellCount, n, b, x) ==> r[x] == buffer[x]
  {
    EntriesFit(cellCount, n, b);
    var es := Entries(cellCount, n, b);
    forall a, j | 0 <= a < |b.cells| && 0 <= j < |b.points|
      ensures Entry(Offset(cellCount, n, b.cells[a], b.points[j]), b.values[a][j]) in es
      ensures 0 <= Offset(cellCount, n, b.cells[a], b.points[j]) < |buffer|
    {
      OffsetBounds(cellCount, n, b.cells[a], b.points[j]);
    }
    WriteEntries(buffer, es)
  }

  // ---------------------------------------------------------------------
  // The loop over completed subproblems

  /** `np.zeros(size)`. */
  function Zeros(size: nat): (z: seq<real>)
    ensures |z| == size
    ensures forall x :: 0 <= x < size ==> z[x] == 0.0
  {
    seq(size, x => 0.0)
  }

  /** The number of entries of an array of shape `(*cellCount, n)`. */
  function BufferSize(cellCount: seq<int>, n: nat): (size: nat)
    requires PositiveAxes(cellCount)
    ensures size == Product(cellCount) * n
  {
    ProductPositive(cellCount);
    MulMonotone(0, Product(cellCount), n);
    Product(cellCount) * n
  }

  /** The results arrive once each, in some order: a permutation of `0..count-1`. */
  predicate CompletionOrder(order: seq<int>, count: nat) {
    multiset(order) == multiset(Range(count))
  }

  predicate AllShaped(cellCount: seq<int>, n: int, blocks: seq<Block>) {
    forall t :: 0 <= t < |blocks| ==> BlockShape(cellCount, n, blocks[t])
  }

  predicate IndicesBelow(order: seq<int>, count: int) {
    forall i :: 0 <= i < |order| ==> 0 <= order[i] < count
  }

  /**
   The loop `for ... in as_completed(...)`: starting from zeros, the result
   of subproblem `order[0]` is written, then that of `order[1]`, and so on.
   */
  function Aggregate(cellCount: seq<int>, n: nat, blocks: seq<Block>, order: seq<int>): (r: seq<real>)
    requires PositiveAxes(cellCount) && AllShaped(cellCount, n, blocks) && IndicesBelow(order, |blocks|)
    ensures |r| == BufferSize(cellCount, n)
    decreases |order|
  {
    if |order| == 0 then Zeros(BufferSize(cellCount, n))
    else
      var done := Aggregate(cellCount, n, blocks, order[..|order| - 1]);
      Scatter(done, cellCount, n, blocks[order[|order| - 1]])
  }

  /** All single-entry writes of the loop, in the order they happen. */
  function AllEntries(cellCount: seq<int>, n: nat, blocks: seq<Block>, order: seq<int>): seq<Entry>
    requires AllShaped(cellCount, n, blocks) && IndicesBelow(order, |blocks|)
  {
    Flatten(EntryLists(cellCount, n, blocks, order))
  }

  /** The entry writes of each block, in the order the blocks are written. */
  function EntryLists(cellCount: seq<int>, n: nat, blocks: seq<Block>, order: seq<int>): (parts: seq<seq<Entry>>)
    requires AllShaped(cellCount, n, blocks) && IndicesBelow(order, |blocks|)
    ensures |parts| == |order|
    ensures forall i :: 0 <= i < |order| ==> parts[i] == Entries(cellCount, n, blocks[order[i]])
  {
    seq(|order|, i requires 0 <= i < |order| => Entries(cellCount, n, blocks[order[i]]))
  }

  /** Block after block, the loop performs all entry writes of all blocks in order, on zeros. */
  lemma {:induction false} AggregateIsOneWrite(cellCount: seq<int>, n: nat, blocks: seq<Block>, order: seq<int>)
    requires PositiveAxes(cellCount) && AllShaped(cellCount, n, blocks) && IndicesBelow(order, |blocks|)
    ensures OffsetsBelow(AllEntries(cellCount, n, blocks, order), BufferSize(cellCount, n))
    ensures Aggregate(cellCount, n, blocks, order) == WriteEntries(Zeros(BufferSize(cellCount, n)), AllEntries(cellCount, n, blocks, order))
    decreases |order|
  {
    var size := BufferSize(cellCount, n);
    if |order| == 0 {
      assert AllEntries(cellCount, n, blocks, order) == [];
    } else {
      var init := order[..|order| - 1];
      var last := blocks[order[|order| - 1]];
      AggregateIsOneWrite(cellCount, n, blocks, init);
      EntriesFit(cellCount, n, last);
      AllEntriesSnoc(cellCount, n, blocks, order);
      WriteEntriesConcat(Zeros(size), AllEntries(cellCount, n, blocks, init), Entries(cellCount, n, last));
    }
  }

  lemma AllEntriesSnoc(cellCount: seq<int>, n: nat, blocks: seq<Block>, order: seq<int>)
    requires AllShaped(cellCount, n, blocks) && IndicesBelow(order, |blocks|) && |order| >= 1
    ensures AllEntries(cellCount, n, blocks, order)
         == AllEntries(cellCount, n, blocks, order[..|order| - 1]) + Entries(cellCount, n, blocks[order[|order| - 1]])
  {
    var init := order[..|order| - 1];
    var lastEntries := Entries(cellCount, n, blocks[order[|order| - 1]]);
    var parts := EntryLists(cellCount, n, blocks, order);
    var initParts := EntryLists(cellCount, n, blocks, init);
    assert parts == initParts + [lastEntries];
    FlattenConcat(initParts, [lastEntries]);
    assert Flatten([lastEntries]) == lastEntries + Flatten([]);
  }

  /** Every write of the loop is a write of some value of some block. */
  lemma EntryOrigin(cellCount: seq<int>, n: nat, blocks: seq<Block>, order: seq<int>, e: Entry)
      returns (t: int, a: int, j: int)
    requires AllShaped(cellCount, n, blocks) && IndicesBelow(order, |blocks|)
    requires e in AllEntries(cellCount, n, blocks, order)
    ensures 0 <= t < |blocks| && 0 <= a < |blocks[t].cells| && 0 <= j < |blocks[t].points|
    ensures e == Entry(Offset(cellCount, n, blocks[t].cells[a], blocks[t].points[j]), blocks[t].values[a][j])
  {
    var parts := EntryLists(cellCount, n, blocks, order);
    InFlatten(parts, e);
    var i :| 0 <= i < |parts| && e in parts[i];
    t := order[i];
    a, j := EntryOfBlock(cellCount, n, blocks[t], e);
  }

  /** An entry write of a block writes one of its values at the place of its cell and point. */
  lemma EntryOfBlock(cellCount: seq<int>, n: nat, b: Block, e: Entry) returns (a: int, j: int)
    requires BlockShape(cellCount, n, b) && e in Entries(cellCount, n, b)
    ensures 0 <= a < |b.cells| && 0 <= j < |b.points|
    ensures e == Entry(Offset(cellCount, n, b.cells[a], b.points[j]), b.values[a][j])
  {
    a, j :| 0 <= a < |b.cells| && 0 <= j < |b.points| &&
      e == Entry(Offset(cellCount, n, b.cells[a], b.points[j]), b.values[a][j]);
  }

  /** Every value of every block in the order is written by the loop. */
  lemma EntryPresent(cellCount: seq<int>, n: nat, blocks: seq<Block>, order: seq<int>, i: int, a: int, j: int)
    requires AllShaped(cellCount, n, blocks) && IndicesBelow(order, |blocks|) && 0 <= i < |order|
    requires 0 <= a < |blocks[order[i]].cells| && 0 <= j < |blocks[order[i]].points|
    ensures Entry(Offset(cellCount, n, blocks[order[i]].cells[a], blocks[order[i]].points[j]), blocks[order[i]].values[a][j])
            in AllEntries(cellCount, n, blocks, order)
  {
    var b := blocks[order[i]];
    var e := Entry(Offset(cellCount, n, b.cells[a], b.points[j]), b.values[a][j]);
    var parts := EntryLists(cellCount, n, blocks, order);
    InFlatten(parts, e);
    assert e in parts[i];
  }

  /** No point index belongs to two different blocks (the subproblems partition the points). */
  predicate DisjointPoints(blocks: seq<Block>) {
    forall t1, t2, j1, j2 ::
      (0 <= t1 < |blocks| && 0 <= t2 < |blocks| && 0 <= j1 < |blocks[t1].points| && 0 <= j2 < |blocks[t2].points| &&
       blocks[t1].points[j1] == blocks[t2].points[j2]) ==> t1 == t2
  }

  /** Blocks over disjoint points never write one place with two different values. */
  lemma AllEntriesConsistent(cellCount: seq<int>, n: nat, blocks: seq<Block>, order: seq<int>)
    requires PositiveAxes(cellCount) && AllShaped(cellCount, n, blocks) && IndicesBelow(order, |blocks|)
    requires DisjointPoints(blocks)
    ensures Consistent(AllEntries(cellCount, n, blocks, order))
  {
    var es := AllEntries(cellCount, n, blocks, order);
    forall e1, e2 | e1 in es && e2 in es && e1.offset == e2.offset
      ensures e1.value == e2.value
    {
      SameOffsetSameValue(cellCount, n, blocks, order, e1, e2);
    }
  }

  lemma SameOffsetSameValue(cellCount: seq<int>, n: nat, blocks: seq<Block>, order: seq<int>, e1: Entry, e2: Entry)
    requires PositiveAxes(cellCount) && AllShaped(cellCount, n, blocks) && IndicesBelow(order, |blocks|)
    requires DisjointPoints(blocks)
    requires e1 in AllEntries(cellCount, n, blocks, order) && e2 in AllEntries(cellCount, n, blocks, order)
    requires e1.offset == e2.offset
    ensures e1.value == e2.value
  {
    var t1, a1, j1 := EntryOrigin(cellCount, n, blocks, order, e1);
    var t2, a2, j2 := EntryOrigin(cellCount, n, blocks, order, e2);
    var b1, b2 := blocks[t1], blocks[t2];
    assert BlockShape(cellCount, n, b1) && BlockShape(cellCount, n, b2);
    OffsetInjective(cellCount, n, b1.cells[a1], b1.points[j1], b2.cells[a2], b2.points[j2]);
    assert t1 == t2;
    DistinctIndex(b1.cells, a1, a2);
    DistinctIndex(b1.points, j1, j2);
  }

  /** A completion order names only subproblems. */
  lemma CompletionOrderCovers(order: seq<int>, count: nat)
    requires CompletionOrder(order, count)
    ensures IndicesBelow(order, count)
  {
    forall i | 0 <= i < |order|
      ensures 0 <= order[i] < count
    {
      assert order[i] in multiset(order);
      InRange(count, order[i]);
    }
  }

  /** A completion order names every subproblem. */
  lemma CompletionOrderPosition(order: seq<int>, count: nat, t: int) returns (i: int)
    requires CompletionOrder(order, count) && 0 <= t < count
    ensures 0 <= i < |order| && order[i] == t
  {
    InRange(count, t);
    assert t in multiset(Range(count));
    assert t in order;
    i :| 0 <= i < |order| && order[i] == t;
  }

  /** No block writes place `x`. */
  predicate Uncovered(cellCount: seq<int>, n: int, blocks: seq<Block>, x: int)
    requires AllShaped(cellCount, n, blocks)
  {
    forall t :: 0 <= t < |blocks| ==> !Covers(cellCount, n, blocks[t], x)
  }

  /** The value the loop leaves at the place of value `(a, j)` of block `t` is that value. */
  lemma AggregateAt(cellCount: seq<int>, n: nat, blocks: seq<Block>, order: seq<int>, t: int, a: int, j: int)
    requires PositiveAxes(cellCount) && AllShaped(cellCount, n, blocks) && DisjointPoints(blocks)
    requires CompletionOrder(order, |blocks|)
    requires 0 <= t < |blocks| && 0 <= a < |blocks[t].cells| && 0 <= j < |blocks[t].points|
    ensures IndicesBelow(order, |blocks|)
    ensures 0 <= Offset(cellCount, n, blocks[t].cells[a], blocks[t].points[j]) < BufferSize(cellCount, n)
    ensures Aggregate(cellCount, n, blocks, order)[Offset(cellCount, n, blocks[t].cells[a], blocks[t].points[j])]
            == blocks[t].values[a][j]
  {
    CompletionOrderCovers(order, |blocks|);
    var i := CompletionOrderPosition(order, |blocks|, t);
    AggregateIsOneWrite(cellCount, n, blocks, order);
    AllEntriesConsistent(cellCount, n, blocks, order);
    assert BlockShape(cellCount, n, blocks[t]);
    OffsetBounds(cellCount, n, blocks[t].cells[a], blocks[t].points[j]);
    EntryPresent(cellCount, n, blocks, order, i, a, j);
  }

  /** A place no block covers stays zero. */
  lemma AggregateZeroAt(cellCount: seq<int>, n: nat, blocks: seq<Block>, order: seq<int>, x: int)
    requires PositiveAxes(cellCount) && AllShaped(cellCount, n, blocks) && IndicesBelow(order, |blocks|)
    requires 0 <= x < BufferSize(cellCount, n) && Uncovered(cellCount, n, blocks, x)
    ensures Aggregate(cellCount, n, blocks, order)[x] == 0.0
  {
    AggregateIsOneWrite(cellCount, n, blocks, order);
    var es := AllEntries(cellCount, n, blocks, order);
    forall e | e in es
      ensures e.offset != x
    {
      var t, a, j := EntryOrigin(cellCount, n, blocks, order, e);
      assert !Covers(cellCount, n, blocks[t], x);
    }
  }

  /**
   Whatever the completion order, every value of every subproblem lands at its
   cell and point, and every place no subproblem covers stays zero.
   */
  lemma AggregateClosedForm(cellCount: seq<int>, n: nat, blocks: seq<Block>, order: seq<int>)
    requires PositiveAxes(cellCount) && AllShaped(cellCount, n, blocks) && DisjointPoints(blocks)
    requires CompletionOrder(order, |blocks|)
    ensures IndicesBelow(order, |blocks|)
    ensures forall t, a, j :: 0 <= t < |blocks| && 0 <= a < |blocks[t].cells| && 0 <= j < |blocks[t].points| ==>
              0 <= Offset(cellCount, n, blocks[t].cells[a], blocks[t].points[j]) < BufferSize(cellCount, n)
    ensures forall t, a, j :: 0 <= t < |blocks| && 0 <= a < |blocks[t].cells| && 0 <= j < |blocks[t].points| ==>
              Aggregate(cellCount, n, blocks, order)[Offset(cellCount, n, blocks[t].cells[a], blocks[t].points[j])]
              == blocks[t].values[a][j]
    ensures forall x :: 0 <= x < BufferSize(cellCount, n) && Uncovered(cellCount, n, blocks, x) ==>
              Aggregate(cellCount, n, blocks, order)[x] == 0.0
  {
    CompletionOrderCovers(order, |blocks|);
    forall t, a, j | 0 <= t < |blocks| && 0 <= a < |blocks[t].cells| && 0 <= j < |blocks[t].points|
      ensures 0 <= Offset(cellCount, n, blocks[t].cells[a], blocks[t].points[j]) < BufferSize(cellCount, n)
      ensures Aggregate(cellCount, n, blocks, order)[Offset(cellCount, n, blocks[t].cells[a], blocks[t].points[j])]
              == blocks[t].values[a][j]
    {
      AggregateAt(cellCount, n, blocks, order, t, a, j);
    }
    forall x | 0 <= x < BufferSize(cellCount, n) && Uncovered(cellCount, n, blocks, x)
      ensures Aggregate(cellCount, n, blocks, order)[x] == 0.0
    {
      AggregateZeroAt(cellCount, n, blocks, order, x);
    }
  }

  /** The completion order does not change the aggregated array. */
  lemma AggregateOrderIndependent(cellCount: seq<int>, n: nat, blocks: seq<Block>, o1: seq<int>, o2: seq<int>)
    requires PositiveAxes(cellCount) && AllShaped(cellCount, n, blocks) && DisjointPoints(blocks)
    requires CompletionOrder(o1, |blocks|) && CompletionOrder(o2, |blocks|)
    ensures IndicesBelow(o1, |blocks|) && IndicesBelow(o2, |blocks|)
    ensures Aggregate(cellCount, n, blocks, o1) == Aggregate(cellCount, n, blocks, o2)
  {
    CompletionOrderCovers(o1, |blocks|);
    CompletionOrderCovers(o2, |blocks|);
    var r1, r2 := Aggregate(cellCount, n, blocks, o1), Aggregate(cellCount, n, blocks, o2);
    forall x | 0 <= x < |r1|
      ensures r1[x] == r2[x]
    {
      AggregateSameAt(cellCount, n, blocks, o1, o2, x);
    }
  }

  lemma AggregateSameAt(cellCount: seq<int>, n: nat, blocks: seq<Block>, o1: seq<int>, o2: seq<int>, x: int)
    requires PositiveAxes(cellCount) && AllShaped(cellCount, n, blocks) && DisjointPoints(blocks)
    requires CompletionOrder(o1, |blocks|) && CompletionOrder(o2, |blocks|)
    requires IndicesBelow(o1, |blocks|) && IndicesBelow(o2, |blocks|)
    requires 0 <= x < BufferSize(cellCount, n)
    ensures Aggregate(cellCount, n, blocks, o1)[x] == Aggregate(cellCount, n, blocks, o2)[x]
  {
    if Uncovered(cellCount, n, blocks, x) {
      AggregateZeroAt(cellCount, n, blocks, o1, x);
      AggregateZeroAt(cellCount, n, blocks, o2, x);
    } else {
      var t :| 0 <= t < |blocks| && Covers(cellCount, n, blocks[t], x);
      var a, j :| 0 <= a < |blocks[t].cells| && 0 <= j < |blocks[t].points| &&
        Offset(cellCount, n, blocks[t].cells[a], blocks[t].points[j]) == x;
      AggregateAt(cellCount, n, blocks, o1, t, a, j);
      AggregateAt(cellCount, n, blocks, o2, t, a, j);
    }
  }

  // ---------------------------------------------------------------------
  // The final reshape

  /** Entry `(c, p)` of a `rows x cols` matrix sits at `c * cols + p` of its C-order buffer. */
  lemma RowMajorBounds(rows: nat, cols: nat, c: int, p: int)
    requires 0 <= c < rows && 0 <= p < cols
    ensures 0 <= c * cols + p < rows * cols
    ensures (c + 1) * cols + p == cols + (c * cols + p)
  {
    MulMonotone(0, c, cols);
    MulMonotone(c + 1, rows, cols);
  }

  /**
   `buffer.reshape(rows, cols)` of a C-order buffer: row `c` is the `c`-th run
   of `cols` entries, so the rows, concatenated, are the buffer.
   */
  function Reshape(buffer: seq<real>, rows: nat, cols: nat): (m: seq<seq<real>>)
    requires |buffer| == rows * cols
    ensures |m| == rows
    ensures forall c :: 0 <= c < rows ==> |m[c]| == cols
    ensures Flatten(m) == buffer
    decreases rows
  {
    if rows == 0 then []
    else
      MulMonotone(1, rows, cols);
      var head, rest := buffer[..cols], buffer[cols..];
      assert buffer == head + rest;
      assert Flatten([head] + Reshape(rest, rows - 1, cols)) == head + Flatten(Reshape(rest, rows - 1, cols));
      [head] + Reshape(rest, rows - 1, cols)
  }

  /** Reading entry `(c, p)` of the reshaped matrix reads place `c * cols + p` of the buffer. */
  lemma {:induction false} ReshapeAt(buffer: seq<real>, rows: nat, cols: nat, c: int, p: int)
    requires |buffer| == rows * cols && 0 <= c < rows && 0 <= p < cols
    ensures 0 <= c * cols + p < |buffer|
    ensures |Reshape(buffer, rows, cols)| == rows && |Reshape(buffer, rows, cols)[c]| == cols
    ensures Reshape(buffer, rows, cols)[c][p] == buffer[c * cols + p]
    decreases c
  {
    RowMajorBounds(rows, cols, c, p);
    MulMonotone(1, rows, cols);
    var rest := buffer[cols..];
    var m, m' := Reshape(buffer, rows, cols), Reshape(rest, rows - 1, cols);
    assert m == [buffer[..cols]] + m';
    if c == 0 {
      assert m[0] == buffer[..cols];
    } else {
      ReshapeAt(rest, rows - 1, cols, c - 1, p);
      RowMajorBounds(rows, cols, c - 1, p);
      var x := (c - 1) * cols + p;
      assert m[c] == m'[c - 1];
      assert rest[x] == buffer[cols + x];
    }
  }
}

/**
 `compute_linearized_bin_coords`: an N-dimensional bin coordinate becomes one
 integer in C order (last axis fastest), by a dot product with per-axis
 multipliers.

 The documented multiplier of axis `i` is the product of the bin counts of all
 later axes, which is what the docstring example needs. The code instead uses
 `bins_per_axis[i+1]` alone (and the name `bin_coords` where the parameter is
 called `bins_coords`); `LinearizeAsWritten` keeps that version so that the
 difference can be stated, and the rest of the model uses `Linearize`.
 */
module BinIndex {
  import opened Common

  /** Number of bins in a grid with `bins[i]` bins along axis `i`. */
  function Product(bins: seq<int>): int
  {
    if |bins| == 0 then 1 else bins[0] * Product(bins[1..])
  }

  predicate PositiveAxes(bins: seq<int>) {
    forall i :: 0 <= i < |bins| ==> bins[i] >= 1
  }

  /** A coordinate that names an existing bin. */
  predicate ValidCoord(bins: seq<int>, coord: seq<int>) {
    && |coord| == |bins|
    && forall i :: 0 <= i < |coord| ==> 0 <= coord[i] < bins[i]
  }

  /** `np.dot` of a coordinate row with a multiplier column. */
  function Dot(a: seq<int>, b: seq<int>): int
    requires |a| == |b|
  {
    if |a| == 0 then 0 else a[0] * b[0] + Dot(a[1..], b[1..])
  }

  /** Documented multiplier of each axis: the product of the later axes' bin counts. */
  function Multipliers(bins: seq<int>): seq<int>
  {
    seq(|bins|, i requires 0 <= i < |bins| => Product(bins[i + 1..]))
  }

  /** The linear index of a bin coordinate, `sum_i coord[i] * prod_{j>i} bins[j]`. */
  function Linearize(bins: seq<int>, coord: seq<int>): int
    requires |coord| == |bins|
  {
    Dot(coord, Multipliers(bins))
  }

  /** The multipliers the code builds: `bins_per_axis[1:]` followed by a 1. */
  function ShiftedMultipliers(bins: seq<int>): seq<int>
  {
    seq(|bins|, i requires 0 <= i < |bins| => if i + 1 < |bins| then bins[i + 1] else 1)
  }

  /** The linearization exactly as the code computes it. */
  function LinearizeAsWritten(bins: seq<int>, coord: seq<int>): int
    requires |coord| == |bins|
  {
    Dot(coord, ShiftedMultipliers(bins))
  }

  lemma ProductPositive(bins: seq<int>)
    requires PositiveAxes(bins)
    ensures Product(bins) >= 1
  {
    if |bins| > 0 {
      ProductPositive(bins[1..]);
    }
  }

  lemma {:induction false} ProductAppend(bins: seq<int>, n: int)
    ensures Product(bins + [n]) == Product(bins) * n
  {
    if |bins| == 0 {
      assert bins + [n] == [n];
    } else {
      assert (bins + [n])[1..] == bins[1..] + [n];
      ProductAppend(bins[1..], n);
    }
  }

  /** The C-order index peels off the first axis: `coord[0]` times the size of a slab. */
  lemma LinearizeUnfold(bins: seq<int>, coord: seq<int>)
    requires |coord| == |bins| >= 1
    ensures Linearize(bins, coord) == coord[0] * Product(bins[1..]) + Linearize(bins[1..], coord[1..])
  {
    var m := Multipliers(bins);
    var m' := Multipliers(bins[1..]);
    forall i | 0 <= i < |m'|
      ensures m[1..][i] == m'[i]
    {
      assert bins[1..][i + 1..] == bins[i + 2..];
    }
    assert m[1..] == m';
  }

  /** Quotient and remainder are unique: the arithmetic fact behind injectivity. */
  lemma DivModUnique(q1: int, r1: int, q2: int, r2: int, p: int)
    requires p >= 1 && 0 <= r1 < p && 0 <= r2 < p
    requires q1 * p + r1 == q2 * p + r2
    ensures q1 == q2 && r1 == r2
  {
    if q1 < q2 {
      MulMonotone(q1 + 1, q2, p);
    } else if q2 < q1 {
      MulMonotone(q2 + 1, q1, p);
    }
  }

  /** Every valid coordinate lands in `[0, Product(bins))`. */
  lemma {:induction false} LinearizeInRange(bins: seq<int>, coord: seq<int>)
    requires PositiveAxes(bins) && ValidCoord(bins, coord)
    ensures 0 <= Linearize(bins, coord) < Product(bins)
  {
    if |bins| > 0 {
      LinearizeUnfold(bins, coord);
      LinearizeInRange(bins[1..], coord[1..]);
      var p := Product(bins[1..]);
      ProductPositive(bins[1..]);
      MulMonotone(0, coord[0], p);
      MulMonotone(coord[0], bins[0] - 1, p);
      assert (bins[0] - 1) * p + p == bins[0] * p;
    }
  }

  /** Two valid coordinates with the same linear index are the same coordinate. */
  lemma {:induction false} LinearizeInjective(bins: seq<int>, c1: seq<int>, c2: seq<int>)
    requires PositiveAxes(bins) && ValidCoord(bins, c1) && ValidCoord(bins, c2)
    requires Linearize(bins, c1) == Linearize(bins, c2)
    ensures c1 == c2
  {
    if |bins| > 0 {
      LinearizeUnfold(bins, c1);
      LinearizeUnfold(bins, c2);
      LinearizeInRange(bins[1..], c1[1..]);
      LinearizeInRange(bins[1..], c2[1..]);
      DivModUnique(c1[0], Linearize(bins[1..], c1[1..]), c2[0], Linearize(bins[1..], c2[1..]), Product(bins[1..]));
      LinearizeInjective(bins[1..], c1[1..], c2[1..]);
      assert c1 == [c1[0]] + c1[1..];
      assert c2 == [c2[0]] + c2[1..];
    }
  }

  /**
   The inverse of `Linearize` (NumPy's `np.unravel_index` in C order): the
   coordinate of the bin with a given linear index.
   */
  function Delinearize(bins: seq<int>, index: int): (coord: seq<int>)
    requires PositiveAxes(bins) && 0 <= index < Product(bins)
    ensures ValidCoord(bins, coord)
    ensures Linearize(bins, coord) == index
  {
    if |bins| == 0 then []
    else
      var p := Product(bins[1..]);
      QuotientBelowAxis(bins, index);
      var rest := Delinearize(bins[1..], index % p);
      DelinearizeStep(bins, index, rest);
      [index / p] + rest
  }

  /** The quotient by the slab size, followed by the coordinate of the remainder, names the bin of `index`. */
  lemma DelinearizeStep(bins: seq<int>, index: int, rest: seq<int>)
    requires |bins| >= 1 && PositiveAxes(bins) && 0 <= index < Product(bins)
    requires Product(bins[1..]) >= 1
    requires ValidCoord(bins[1..], rest) && Linearize(bins[1..], rest) == index % Product(bins[1..])
    ensures ValidCoord(bins, [index / Product(bins[1..])] + rest)
    ensures Linearize(bins, [index / Product(bins[1..])] + rest) == index
  {
    var p := Product(bins[1..]);
    QuotientBelowAxis(bins, index);
    var coord := [index / p] + rest;
    assert coord[1..] == rest;
    LinearizeUnfold(bins, coord);
    DivMod(index, p);
  }

  /** The leading coordinate of an index in range names an existing slab. */
  lemma QuotientBelowAxis(bins: seq<int>, index: int)
    requires |bins| >= 1 && PositiveAxes(bins) && 0 <= index < Product(bins)
    ensures Product(bins[1..]) >= 1
    ensures 0 <= index / Product(bins[1..]) < bins[0]
  {
    ProductPositive(bins[1..]);
    QuotientBelow(index, bins[0], Product(bins[1..]));
  }

  lemma QuotientBelow(index: int, b: int, p: int)
    requires p >= 1 && 0 <= index < b * p
    ensures 0 <= index / p < b
  {
    var q, r := index / p, index % p;
    DivMod(index, p);
    if q < 0 {
      MulMonotone(q, -1, p);
    } else if q >= b {
      MulMonotone(b, q, p);
    }
  }

  /** Linearization is a bijection between valid coordinates and `[0, Product(bins))`. */
  lemma LinearizeRoundTrip(bins: seq<int>, coord: seq<int>)
    requires PositiveAxes(bins) && ValidCoord(bins, coord)
    ensures 0 <= Linearize(bins, coord) < Product(bins)
    ensures Delinearize(bins, Linearize(bins, coord)) == coord
  {
    LinearizeInRange(bins, coord);
    var back := Delinearize(bins, Linearize(bins, coord));
    LinearizeInjective(bins, back, coord);
  }

  /**
   Appending an axis of size `n` multiplies the index of the leading axes by
   `n`: the entry `(g..., p)` of a C-order array of shape `(bins..., n)` is
   row `Linearize(bins, g)`, column `p` once reshaped to `(-1, n)`.
   */
  lemma {:induction false} LinearizeAppendAxis(bins: seq<int>, coord: seq<int>, n: int, p: int)
    requires |coord| == |bins|
    ensures Linearize(bins + [n], coord + [p]) == Linearize(bins, coord) * n + p
  {
    if |bins| == 0 {
      assert bins + [n] == [n] && coord + [p] == [p];
      LinearizeUnfold([n], [p]);
    } else {
      LinearizeUnfold(bins + [n], coord + [p]);
      assert (bins + [n])[1..] == bins[1..] + [n];
      assert (coord + [p])[1..] == coord[1..] + [p];
      LinearizeAppendAxis(bins[1..], coord[1..], n, p);
      ProductAppend(bins[1..], n);
      LinearizeUnfold(bins, coord);
      var a, l := coord[0] * Product(bins[1..]), Linearize(bins[1..], coord[1..]);
      assert coord[0] * (Product(bins[1..]) * n) == a * n;
      assert (a + l) * n == a * n + l * n;
    }
  }

  /** Last axis fastest: stepping the last coordinate steps the index by one. */
  lemma LinearizeLastAxisFastest(bins: seq<int>, coord: seq<int>, n: int, p: int)
    requires |coord| == |bins|
    ensures Linearize(bins + [n], coord + [p + 1]) == Linearize(bins + [n], coord + [p]) + 1
  {
    LinearizeAppendAxis(bins, coord, n, p);
    LinearizeAppendAxis(bins, coord, n, p + 1);
  }

  /** The docstring example: bins `[1,3,2]` give `[3, 9, 1, 10]`. */
  lemma LinearizeDocstringExample()
    ensures Linearize([1, 3, 2], [0, 1, 1]) == 3
    ensures Linearize([1, 3, 2], [1, 1, 1]) == 9
    ensures Linearize([1, 3, 2], [0, 0, 1]) == 1
    ensures Linearize([1, 3, 2], [1, 2, 0]) == 10
  {
    var bins := [1, 3, 2];
    assert bins[1..] == [3, 2] && bins[2..] == [2] && bins[3..] == [];
    assert Product([2]) == 2 && Product([3, 2]) == 6;
    assert Multipliers(bins) == [6, 2, 1];
  }

  /** The code's multipliers miss the docstring example: it gives `[3, 6, 1, 7]`. */
  lemma AsWrittenDocstringExample()
    ensures LinearizeAsWritten([1, 3, 2], [1, 1, 1]) == 6 != Linearize([1, 3, 2], [1, 1, 1])
    ensures LinearizeAsWritten([1, 3, 2], [1, 2, 0]) == 7 != Linearize([1, 3, 2], [1, 2, 0])
  {
    assert ShiftedMultipliers([1, 3, 2]) == [3, 2, 1];
    LinearizeDocstringExample();
  }

  /**
   With the code's multipliers two different valid bins of a 2x2x2 grid share
   a linear index, so `group_by` would merge them.
   */
  lemma AsWrittenCollides()
    ensures ValidCoord([2, 2, 2], [0, 1, 0]) && ValidCoord([2, 2, 2], [1, 0, 0])
    ensures LinearizeAsWritten([2, 2, 2], [0, 1, 0]) == LinearizeAsWritten([2, 2, 2], [1, 0, 0]) == 2
  {
    assert ShiftedMultipliers([2, 2, 2]) == [2, 2, 1];
  }
}

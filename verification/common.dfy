/**
 Shared vocabulary of the partitioning pipeline: the failures Python raises on
 the paths the model follows, optional values, and the sequence helpers
 (flattening one level of nesting, cutting a sequence at boundaries) that
 `np.split`, `np.array_split` and the generator in `distribute_subproblems`
 are built from.
 */
module Common {

  /** An optional argument, such as `weights=None`. */
  datatype Option<T> = None | Some(value: T)

  /** The Python exceptions the modelled code can raise. */
  datatype PyError =
    | ZeroDivisionError   // `len(arr) / 0`
    | ValueError          // `np.array_split` asked for fewer than one section
    | IndexError          // `bin_content[0]` on an empty index list

  datatype Result<T> = Ok(value: T) | Err(error: PyError)

  function Min(a: int, b: int): int {
    if a <= b then a else b
  }

  lemma MulMonotone(a: int, b: int, p: int)
    requires a <= b && p >= 0
    ensures a * p <= b * p
  {
    assert b * p - a * p == (b - a) * p;
  }

  /** Euclidean division: the quotient and the remainder rebuild the dividend. */
  lemma DivMod(x: int, p: int)
    requires p >= 1
    ensures x == (x / p) * p + x % p && 0 <= x % p < p
  {
  }

  /** `[0, 1, ..., n-1]`, as `np.arange(n)`. */
  function Range(n: nat): (r: seq<int>)
    ensures |r| == n
    ensures forall i :: 0 <= i < n ==> r[i] == i
  {
    seq(n, i => i)
  }

  /** Concatenation of a sequence of sequences, one level deep. */
  function Flatten<T>(ss: seq<seq<T>>): seq<T>
  {
    if |ss| == 0 then [] else ss[0] + Flatten(ss[1..])
  }

  lemma {:induction false} FlattenConcat<T>(a: seq<seq<T>>, b: seq<seq<T>>)
    ensures Flatten(a + b) == Flatten(a) + Flatten(b)
  {
    if |a| == 0 {
      assert a + b == b;
    } else {
      assert (a + b)[1..] == a[1..] + b;
      FlattenConcat(a[1..], b);
    }
  }

  /** An element of the concatenation comes from one of the parts, and back. */
  lemma {:induction false} InFlatten<T>(ss: seq<seq<T>>, x: T)
    ensures x in Flatten(ss) <==> exists i :: 0 <= i < |ss| && x in ss[i]
  {
    if |ss| > 0 {
      InFlatten(ss[1..], x);
      if x in Flatten(ss[1..]) {
        var i :| 0 <= i < |ss[1..]| && x in ss[1..][i];
        assert x in ss[i + 1];
      }
      if exists i :: 1 <= i < |ss| && x in ss[i] {
        var i :| 1 <= i < |ss| && x in ss[i];
        assert x in ss[1..][i - 1];
      }
    }
  }

  /** Every position of the concatenation comes from a position of one part. */
  lemma {:induction false} FlattenIndex<T>(ss: seq<seq<T>>, t: int) returns (i: int, a: int)
    requires 0 <= t < |Flatten(ss)|
    ensures 0 <= i < |ss| && 0 <= a < |ss[i]|
    ensures Flatten(ss)[t] == ss[i][a]
  {
    if t < |ss[0]| {
      i, a := 0, t;
    } else {
      var i', a' := FlattenIndex(ss[1..], t - |ss[0]|);
      i, a := i' + 1, a';
    }
  }

  /** Flattening twice is flattening every inner part first. */
  lemma {:induction false} FlattenFlatten<T>(sss: seq<seq<seq<T>>>)
    ensures Flatten(Flatten(sss)) == Flatten(seq(|sss|, i requires 0 <= i < |sss| => Flatten(sss[i])))
  {
    var inner := seq(|sss|, i requires 0 <= i < |sss| => Flatten(sss[i]));
    if |sss| > 0 {
      var rest := seq(|sss| - 1, i requires 0 <= i < |sss| - 1 => Flatten(sss[1..][i]));
      assert inner[1..] == rest;
      FlattenFlatten(sss[1..]);
      FlattenConcat(sss[0], Flatten(sss[1..]));
    }
  }

  /** An element that occurs at two different positions is counted twice. */
  lemma TwoPositionsCountTwice<T>(s: seq<T>, i: int, j: int)
    requires 0 <= i < j < |s| && s[i] == s[j]
    ensures multiset(s)[s[i]] >= 2
  {
    assert s == s[..j] + s[j..];
    assert s[i] in s[..j];
    assert s[j..][0] == s[j];
  }

  /** Every element of `s` occurs at most once. */
  predicate Distinct<T(==)>(s: seq<T>) {
    forall i, j :: 0 <= i < j < |s| ==> s[i] != s[j]
  }

  lemma CountAtMostOneIsDistinct<T>(s: seq<T>)
    requires forall x :: multiset(s)[x] <= 1
    ensures Distinct(s)
  {
    forall i, j | 0 <= i < j < |s|
      ensures s[i] != s[j]
    {
      if s[i] == s[j] {
        TwoPositionsCountTwice(s, i, j);
      }
    }
  }

  /**
   When no element is counted twice in the concatenation, two different
   parts share no element and no part repeats an element.
   */
  lemma {:induction false} FlattenCountAtMostOne<T>(ss: seq<seq<T>>)
    requires forall x :: multiset(Flatten(ss))[x] <= 1
    ensures forall i, j, a, b :: 0 <= i < j < |ss| && 0 <= a < |ss[i]| && 0 <= b < |ss[j]| ==> ss[i][a] != ss[j][b]
    ensures forall i :: 0 <= i < |ss| ==> Distinct(ss[i])
  {
    if |ss| > 0 {
      assert Flatten(ss) == ss[0] + Flatten(ss[1..]);
      assert forall x :: multiset(Flatten(ss[1..]))[x] <= multiset(Flatten(ss))[x];
      FlattenCountAtMostOne(ss[1..]);
      assert forall x :: multiset(ss[0])[x] <= multiset(Flatten(ss))[x];
      CountAtMostOneIsDistinct(ss[0]);
      forall j, a, b | 0 < j < |ss| && 0 <= a < |ss[0]| && 0 <= b < |ss[j]|
        ensures ss[0][a] != ss[j][b]
      {
        var x := ss[0][a];
        assert multiset(Flatten(ss))[x] == multiset(ss[0])[x] + multiset(Flatten(ss[1..]))[x];
        assert x !in Flatten(ss[1..]);
        InFlatten(ss[1..], x);
        assert ss[j] == ss[1..][j - 1];
      }
      forall i, j, a, b | 0 <= i < j < |ss| && 0 <= a < |ss[i]| && 0 <= b < |ss[j]|
        ensures ss[i][a] != ss[j][b]
      {
        if i > 0 {
          assert ss[i] == ss[1..][i - 1] && ss[j] == ss[1..][j - 1];
        }
      }
      forall i | 0 <= i < |ss|
        ensures Distinct(ss[i])
      {
        if i > 0 {
          assert ss[i] == ss[1..][i - 1];
        }
      }
    }
  }

  /** `0..n-1` holds every number at most once. */
  lemma {:induction false} RangeCountAtMostOne(n: nat)
    ensures forall x :: multiset(Range(n))[x] <= 1
  {
    if n > 0 {
      RangeCountAtMostOne(n - 1);
      assert Range(n) == Range(n - 1) + [n - 1];
      assert n - 1 !in Range(n - 1);
    }
  }

  lemma InRange(count: nat, x: int)
    ensures x in Range(count) <==> 0 <= x < count
  {
    if 0 <= x < count {
      assert Range(count)[x] == x;
    }
  }

  /** Lists that together are a permutation of `0..n-1` hold only numbers below `n`. */
  lemma PartitionBounds(parts: seq<seq<int>>, n: nat)
    requires multiset(Flatten(parts)) == multiset(Range(n))
    ensures forall t, a :: 0 <= t < |parts| && 0 <= a < |parts[t]| ==> 0 <= parts[t][a] < n
  {
    forall t, a | 0 <= t < |parts| && 0 <= a < |parts[t]|
      ensures 0 <= parts[t][a] < n
    {
      var x := parts[t][a];
      InFlatten(parts, x);
      assert x in multiset(Range(n));
      InRange(n, x);
    }
  }

  /** Boundaries that never decrease. */
  predicate Monotone(bs: seq<int>) {
    forall i, j :: 0 <= i <= j < |bs| ==> bs[i] <= bs[j]
  }

  /**
   The consecutive pieces `s[bs[0]..bs[1]], s[bs[1]..bs[2]], ...` that a list of
   boundaries cuts out of `s`; both `np.split` and `np.array_split` return such
   pieces for their own boundaries.
   */
  function Slices<T>(s: seq<T>, bs: seq<int>): (pieces: seq<seq<T>>)
    requires |bs| >= 1 && Monotone(bs)
    requires 0 <= bs[0] && bs[|bs| - 1] <= |s|
    ensures |pieces| == |bs| - 1
    ensures forall i :: 0 <= i < |pieces| ==> pieces[i] == s[bs[i]..bs[i + 1]]
    ensures Flatten(pieces) == s[bs[0]..bs[|bs| - 1]]
    decreases |bs|
  {
    if |bs| == 1 then []
    else
      var rest := Slices(s, bs[1..]);
      assert s[bs[0]..bs[1]] + s[bs[1]..bs[|bs| - 1]] == s[bs[0]..bs[|bs| - 1]];
      assert ([s[bs[0]..bs[1]]] + rest)[1..] == rest;
      [s[bs[0]..bs[1]]] + rest
  }
}

/**
 `group_by`: the rows of a two-column array are sorted by their first column
 (`argsort`), the second column is cut at the first row of every distinct key
 (`np.unique(..., return_index=True)`), and `np.split` returns one group of
 values per distinct key, in ascending key order.

 `argsort` uses an unstable sort, so the order inside a group is not fixed by
 the code. The model sorts with a stable insertion sort, and every property
 below speaks of a group's contents as a multiset, so it holds for whatever
 order the unstable sort picks.
 */
module Grouping {
  import opened Common

  /** One row of the input array: `a[i, 0]` is the key, `a[i, 1]` the grouped value. */
  datatype Pair = Pair(key: int, value: int)

  /** The value column `a[:, 1]`. */
  function Values(s: seq<Pair>): seq<int>
  {
    seq(|s|, i requires 0 <= i < |s| => s[i].value)
  }

  /** Reference grouping: the values paired with key `k`, in input order. */
  function ValuesWithKey(s: seq<Pair>, k: int): seq<int>
  {
    if |s| == 0 then []
    else (if s[0].key == k then [s[0].value] else []) + ValuesWithKey(s[1..], k)
  }

  /** The distinct keys of the input. */
  function KeysOf(s: seq<Pair>): set<int>
  {
    set p | p in s :: p.key
  }

  predicate SortedByKey(s: seq<Pair>) {
    forall i, j :: 0 <= i < j < |s| ==> s[i].key <= s[j].key
  }

  function Insert(p: Pair, s: seq<Pair>): (r: seq<Pair>)
    requires SortedByKey(s)
    ensures SortedByKey(r)
    ensures multiset(r) == multiset(s) + multiset{p}
    ensures multiset(Values(r)) == multiset(Values(s)) + multiset{p.value}
  {
    if |s| == 0 then
      assert Values([p]) == [p.value];
      [p]
    else if p.key <= s[0].key then
      assert Values([p] + s) == [p.value] + Values(s);
      [p] + s
    else
      var rest := Insert(p, s[1..]);
      InsertBehindHead(p, s, rest);
      [s[0]] + rest
  }

  /** Putting the head back in front of the sorted tail keeps the order and the contents. */
  lemma InsertBehindHead(p: Pair, s: seq<Pair>, rest: seq<Pair>)
    requires SortedByKey(s) && |s| >= 1 && s[0].key < p.key
    requires SortedByKey(rest) && multiset(rest) == multiset(s[1..]) + multiset{p}
    requires multiset(Values(rest)) == multiset(Values(s[1..])) + multiset{p.value}
    ensures SortedByKey([s[0]] + rest)
    ensures multiset([s[0]] + rest) == multiset(s) + multiset{p}
    ensures multiset(Values([s[0]] + rest)) == multiset(Values(s)) + multiset{p.value}
  {
    forall j | 0 <= j < |rest|
      ensures s[0].key <= rest[j].key
    {
      assert rest[j] in multiset(rest);
      if rest[j] != p {
        assert rest[j] in s[1..];
      }
    }
    assert s == [s[0]] + s[1..];
    assert Values([s[0]] + rest) == [s[0].value] + Values(rest);
    assert Values(s) == [s[0].value] + Values(s[1..]);
  }

  /** `a[a[:, 0].argsort()]`: the rows reordered by ascending key. */
  function SortByKey(s: seq<Pair>): (r: seq<Pair>)
    ensures SortedByKey(r)
    ensures multiset(r) == multiset(s)
    ensures multiset(Values(r)) == multiset(Values(s))
  {
    if |s| == 0 then []
    else
      assert s == [s[0]] + s[1..];
      assert Values(s) == [s[0].value] + Values(s[1..]);
      Insert(s[0], SortByKey(s[1..]))
  }

  /** No earlier row carries the same key: what `return_index` reports. */
  predicate FirstOccurrence(s: seq<Pair>, i: int)
    requires 0 <= i < |s|
  {
    forall j :: 0 <= j < i ==> s[j].key != s[i].key
  }

  /**
   `np.unique(keys, return_index=True)[1]`, restricted to indices `>= from`:
   the first row of every distinct key. On key-sorted rows these come in
   ascending key order, which is the order `np.unique` returns them in.
   */
  function FirstIndices(s: seq<Pair>, from: nat): (r: seq<int>)
    requires from <= |s|
    ensures forall i :: 0 <= i < |r| ==> from <= r[i] < |s|
    ensures forall i, j :: 0 <= i < j < |r| ==> r[i] < r[j]
    ensures forall x :: x in r <==> from <= x < |s| && FirstOccurrence(s, x)
    ensures from < |s| && FirstOccurrence(s, from) ==> |r| >= 1 && r[0] == from
    decreases |s| - from
  {
    if from == |s| then []
    else if FirstOccurrence(s, from) then [from] + FirstIndices(s, from + 1)
    else FirstIndices(s, from + 1)
  }

  /** Python's `xs[1:]`, which is empty for an empty list. */
  function Tail(xs: seq<int>): seq<int>
  {
    if |xs| == 0 then [] else xs[1..]
  }

  /** `np.split(s, cuts)`: `s[:cuts[0]], s[cuts[0]:cuts[1]], ..., s[cuts[-1]:]`. */
  function Split<T>(s: seq<T>, cuts: seq<int>): (pieces: seq<seq<T>>)
    requires forall i :: 0 <= i < |cuts| ==> 0 <= cuts[i] <= |s|
    requires forall i, j :: 0 <= i < j < |cuts| ==> cuts[i] < cuts[j]
    ensures |pieces| == |cuts| + 1
    ensures Flatten(pieces) == s
  {
    var bs := [0] + cuts + [|s|];
    assert Monotone(bs) by {
      forall i, j | 0 <= i <= j < |bs|
        ensures bs[i] <= bs[j]
      {
        if 0 < i <= j <= |cuts| {
          assert bs[i] == cuts[i - 1] && bs[j] == cuts[j - 1];
        }
      }
    }
    Slices(s, bs)
  }

  /** `group_by(a)`: sort by key, then cut the value column where a new key starts. */
  function GroupBy(s: seq<Pair>): seq<seq<int>>
  {
    SplitRuns(SortByKey(s))
  }

  /** The key shared by each group's rows (`np.unique(keys)`), in the order of `GroupBy`. */
  function GroupKeys(s: seq<Pair>): seq<int>
  {
    RunKeys(SortByKey(s))
  }

  // ---------------------------------------------------------------------
  // Facts about the reference grouping

  lemma {:induction false} ValuesWithKeyConcat(a: seq<Pair>, b: seq<Pair>, k: int)
    ensures ValuesWithKey(a + b, k) == ValuesWithKey(a, k) + ValuesWithKey(b, k)
  {
    if |a| == 0 {
      assert a + b == b;
    } else {
      var c := a + b;
      assert c[0] == a[0] && c[1..] == a[1..] + b;
      ValuesWithKeyConcat(a[1..], b, k);
      var head := if a[0].key == k then [a[0].value] else [];
      assert ValuesWithKey(c, k) == head + ValuesWithKey(c[1..], k);
      assert ValuesWithKey(a, k) == head + ValuesWithKey(a[1..], k);
    }
  }

  lemma {:induction false} ValuesWithOtherKey(a: seq<Pair>, k: int)
    requires forall i :: 0 <= i < |a| ==> a[i].key != k
    ensures ValuesWithKey(a, k) == []
  {
    if |a| > 0 {
      ValuesWithOtherKey(a[1..], k);
    }
  }

  lemma {:induction false} ValuesWithSameKey(a: seq<Pair>, k: int)
    requires forall i :: 0 <= i < |a| ==> a[i].key == k
    ensures ValuesWithKey(a, k) == Values(a)
  {
    if |a| > 0 {
      ValuesWithSameKey(a[1..], k);
      assert Values(a) == [a[0].value] + Values(a[1..]);
    }
  }

  /** The reference group of `k` holds `v` as often as the input holds the row `(k, v)`. */
  lemma {:induction false} ValuesWithKeyCount(s: seq<Pair>, k: int, v: int)
    ensures multiset(ValuesWithKey(s, k))[v] == multiset(s)[Pair(k, v)]
  {
    if |s| > 0 {
      ValuesWithKeyCount(s[1..], k, v);
      assert s == [s[0]] + s[1..];
    }
  }

  /** Reordering the rows does not change any reference group, as a multiset. */
  lemma ValuesWithKeyPermutation(s: seq<Pair>, t: seq<Pair>, k: int)
    requires multiset(s) == multiset(t)
    ensures multiset(ValuesWithKey(s, k)) == multiset(ValuesWithKey(t, k))
  {
    forall v
      ensures multiset(ValuesWithKey(s, k))[v] == multiset(ValuesWithKey(t, k))[v]
    {
      ValuesWithKeyCount(s, k, v);
      ValuesWithKeyCount(t, k, v);
    }
  }

  /** `v` is in the reference group of `k` exactly when some row is `(k, v)`. */
  lemma InValuesWithKey(s: seq<Pair>, k: int, v: int)
    ensures v in ValuesWithKey(s, k) <==> Pair(k, v) in s
  {
    ValuesWithKeyCount(s, k, v);
    assert v in ValuesWithKey(s, k) <==> multiset(ValuesWithKey(s, k))[v] > 0;
  }

  // ---------------------------------------------------------------------
  // Facts about the sort-and-split implementation, for any key-sorted order

  /** On sorted rows a key occurs first exactly where it differs from its predecessor. */
  lemma SortedFirstOccurrence(s: seq<Pair>, i: int)
    requires SortedByKey(s) && 0 <= i < |s|
    ensures FirstOccurrence(s, i) <==> i == 0 || s[i].key != s[i - 1].key
  {
  }

  lemma {:induction false} EqualToPredecessor(s: seq<Pair>, lo: int, hi: int)
    requires 0 <= lo < hi <= |s|
    requires forall j :: lo < j < hi ==> s[j].key == s[j - 1].key
    ensures forall j :: lo <= j < hi ==> s[j].key == s[lo].key
  {
    if hi > lo + 1 {
      EqualToPredecessor(s, lo, hi - 1);
      assert s[hi - 1].key == s[hi - 2].key;
    }
  }

  /** Where run `i` of the sorted rows starts; run `|firsts|` "starts" at the end. */
  function Boundary(sorted: seq<Pair>, i: int): int
    requires 0 <= i <= |FirstIndices(sorted, 0)|
  {
    var firsts := FirstIndices(sorted, 0);
    if i < |firsts| then firsts[i] else |sorted|
  }

  lemma RunBounds(sorted: seq<Pair>, i: int)
    requires |sorted| >= 1
    requires 0 <= i < |FirstIndices(sorted, 0)|
    ensures FirstIndices(sorted, 0)[0] == 0
    ensures 0 <= Boundary(sorted, i) < Boundary(sorted, i + 1) <= |sorted|
  {
    var firsts := FirstIndices(sorted, 0);
    assert FirstOccurrence(sorted, 0);
    assert firsts[i] in firsts;
  }

  /** The rows of run `i` all carry the key of its first row. */
  lemma RunConstant(sorted: seq<Pair>, i: int)
    requires SortedByKey(sorted) && |sorted| >= 1
    requires 0 <= i < |FirstIndices(sorted, 0)|
    ensures forall j :: Boundary(sorted, i) <= j < Boundary(sorted, i + 1) ==>
              sorted[j].key == sorted[Boundary(sorted, i)].key
  {
    var firsts := FirstIndices(sorted, 0);
    var lo, hi := Boundary(sorted, i), Boundary(sorted, i + 1);
    RunBounds(sorted, i);
    forall j | lo < j < hi
      ensures sorted[j].key == sorted[j - 1].key
    {
      SortedFirstOccurrence(sorted, j);
      assert j !in firsts by {
        forall m | 0 <= m < |firsts|
          ensures firsts[m] != j
        {
          if m <= i {
            assert firsts[m] <= firsts[i];
          } else {
            assert i + 1 < |firsts| && firsts[i + 1] <= firsts[m];
          }
        }
      }
    }
    EqualToPredecessor(sorted, lo, hi);
  }

  /** Rows before run `i` have smaller keys, rows after it larger keys. */
  lemma RunSeparated(sorted: seq<Pair>, i: int)
    requires SortedByKey(sorted) && |sorted| >= 1
    requires 0 <= i < |FirstIndices(sorted, 0)|
    ensures forall j :: 0 <= j < Boundary(sorted, i) ==> sorted[j].key < sorted[Boundary(sorted, i)].key
    ensures forall j :: Boundary(sorted, i + 1) <= j < |sorted| ==> sorted[j].key > sorted[Boundary(sorted, i)].key
  {
    var firsts := FirstIndices(sorted, 0);
    var lo, hi := Boundary(sorted, i), Boundary(sorted, i + 1);
    RunBounds(sorted, i);
    if lo > 0 {
      assert lo in firsts;
      SortedFirstOccurrence(sorted, lo);
    }
    if hi < |sorted| {
      assert hi in firsts;
      SortedFirstOccurrence(sorted, hi);
      RunConstant(sorted, i);
      assert sorted[hi - 1].key == sorted[lo].key;
    }
  }

  /** `np.split(a[:, 1], np.unique(a[:, 0], return_index=True)[1][1:])` on key-sorted rows. */
  function SplitRuns(sorted: seq<Pair>): (groups: seq<seq<int>>)
    ensures Flatten(groups) == Values(sorted)
  {
    Split(Values(sorted), Tail(FirstIndices(sorted, 0)))
  }

  /** The key of each run, i.e. `np.unique(a[:, 0])` for key-sorted rows. */
  function RunKeys(sorted: seq<Pair>): seq<int>
  {
    var firsts := FirstIndices(sorted, 0);
    seq(|firsts|, i requires 0 <= i < |firsts| => sorted[firsts[i]].key)
  }

  /** Piece `i` of `np.split(s, cuts)` runs from the previous cut (or 0) to the next cut (or the end). */
  lemma SplitPiece<T>(s: seq<T>, cuts: seq<int>, i: int, lo: int, hi: int)
    requires forall j :: 0 <= j < |cuts| ==> 0 <= cuts[j] <= |s|
    requires forall j, m :: 0 <= j < m < |cuts| ==> cuts[j] < cuts[m]
    requires 0 <= i <= |cuts|
    requires lo == (if i == 0 then 0 else cuts[i - 1])
    requires hi == (if i == |cuts| then |s| else cuts[i])
    ensures 0 <= lo <= hi <= |s|
    ensures Split(s, cuts)[i] == s[lo..hi]
  {
    var bs := [0] + cuts + [|s|];
    assert bs[i] == lo && bs[i + 1] == hi;
  }

  lemma ValuesSlice(s: seq<Pair>, lo: int, hi: int)
    requires 0 <= lo <= hi <= |s|
    ensures Values(s)[lo..hi] == Values(s[lo..hi])
  {
  }

  /** Run `i` is the value column between its boundaries. */
  lemma RunIsSlice(sorted: seq<Pair>, i: int)
    requires |sorted| >= 1
    requires 0 <= i < |FirstIndices(sorted, 0)|
    ensures |SplitRuns(sorted)| == |FirstIndices(sorted, 0)|
    ensures SplitRuns(sorted)[i] == Values(sorted[Boundary(sorted, i)..Boundary(sorted, i + 1)])
  {
    var firsts := FirstIndices(sorted, 0);
    RunBounds(sorted, i);
    var cuts := Tail(firsts);
    var lo, hi := Boundary(sorted, i), Boundary(sorted, i + 1);
    assert lo == (if i == 0 then 0 else cuts[i - 1]);
    assert hi == (if i == |cuts| then |sorted| else cuts[i]);
    SplitPiece(Values(sorted), cuts, i, lo, hi);
    ValuesSlice(sorted, lo, hi);
  }

  /** Run `i` holds exactly the values paired with key `RunKeys[i]`. */
  lemma RunContents(sorted: seq<Pair>, i: int)
    requires SortedByKey(sorted) && |sorted| >= 1
    requires 0 <= i < |FirstIndices(sorted, 0)|
    ensures |SplitRuns(sorted)[i]| >= 1
    ensures SplitRuns(sorted)[i] == ValuesWithKey(sorted, RunKeys(sorted)[i])
  {
    var lo, hi := Boundary(sorted, i), Boundary(sorted, i + 1);
    RunBounds(sorted, i);
    RunIsSlice(sorted, i);
    RunConstant(sorted, i);
    RunSeparated(sorted, i);
    var k := RunKeys(sorted)[i];
    assert k == sorted[lo].key;
    OneRunWithKey(sorted, lo, hi, k);
  }

  lemma OtherKeysInSlice(s: seq<Pair>, lo: int, hi: int, k: int)
    requires 0 <= lo <= hi <= |s|
    requires forall j :: lo <= j < hi ==> s[j].key != k
    ensures ValuesWithKey(s[lo..hi], k) == []
  {
    var part := s[lo..hi];
    forall j | 0 <= j < |part|
      ensures part[j].key != k
    {
      assert part[j] == s[lo + j];
    }
    ValuesWithOtherKey(part, k);
  }

  lemma SameKeyInSlice(s: seq<Pair>, lo: int, hi: int, k: int)
    requires 0 <= lo <= hi <= |s|
    requires forall j :: lo <= j < hi ==> s[j].key == k
    ensures ValuesWithKey(s[lo..hi], k) == Values(s[lo..hi])
  {
    var part := s[lo..hi];
    forall j | 0 <= j < |part|
      ensures part[j].key == k
    {
      assert part[j] == s[lo + j];
    }
    ValuesWithSameKey(part, k);
  }

  /** If exactly the rows in `[lo, hi)` carry key `k`, the reference group of `k` is their value column. */
  lemma OneRunWithKey(s: seq<Pair>, lo: int, hi: int, k: int)
    requires 0 <= lo <= hi <= |s|
    requires forall j :: 0 <= j < lo ==> s[j].key != k
    requires forall j :: lo <= j < hi ==> s[j].key == k
    requires forall j :: hi <= j < |s| ==> s[j].key != k
    ensures ValuesWithKey(s, k) == Values(s[lo..hi])
  {
    var before, run, after := s[0..lo], s[lo..hi], s[hi..|s|];
    assert s == before + run + after;
    ValuesWithKeyConcat(before + run, after, k);
    ValuesWithKeyConcat(before, run, k);
    OtherKeysInSlice(s, 0, lo, k);
    SameKeyInSlice(s, lo, hi, k);
    OtherKeysInSlice(s, hi, |s|, k);
  }

  /**
   For ANY key-sorted reordering of the rows (whatever order `argsort`
   leaves equal keys in), cutting at the first row of each key yields one
   non-empty group per distinct key, with strictly ascending keys, and group
   `i` holds exactly the values paired with key `i`, as a multiset.
   */
  lemma SplitRunsCorrect(s: seq<Pair>, sorted: seq<Pair>)
    requires |s| >= 1
    requires SortedByKey(sorted) && multiset(sorted) == multiset(s)
    ensures |SplitRuns(sorted)| == |RunKeys(sorted)|
    ensures forall i, j :: 0 <= i < j < |RunKeys(sorted)| ==> RunKeys(sorted)[i] < RunKeys(sorted)[j]
    ensures forall k :: k in RunKeys(sorted) <==> k in KeysOf(s)
    ensures forall i :: 0 <= i < |SplitRuns(sorted)| ==>
              |SplitRuns(sorted)[i]| >= 1 && multiset(SplitRuns(sorted)[i]) == multiset(ValuesWithKey(s, RunKeys(sorted)[i]))
  {
    assert |sorted| >= 1 by {
      assert |multiset(sorted)| == |multiset(s)|;
    }
    RunBounds(sorted, 0);
    RunIsSlice(sorted, 0);
    RunGroupContents(s, sorted);
    RunKeysAscending(sorted);
    RunKeysAreKeys(s, sorted);
  }

  lemma RunGroupContents(s: seq<Pair>, sorted: seq<Pair>)
    requires |sorted| >= 1 && SortedByKey(sorted) && multiset(sorted) == multiset(s)
    requires |SplitRuns(sorted)| == |RunKeys(sorted)|
    ensures forall i :: 0 <= i < |SplitRuns(sorted)| ==>
              |SplitRuns(sorted)[i]| >= 1 && multiset(SplitRuns(sorted)[i]) == multiset(ValuesWithKey(s, RunKeys(sorted)[i]))
  {
    forall i | 0 <= i < |SplitRuns(sorted)|
      ensures |SplitRuns(sorted)[i]| >= 1
      ensures multiset(SplitRuns(sorted)[i]) == multiset(ValuesWithKey(s, RunKeys(sorted)[i]))
    {
      RunContents(sorted, i);
      ValuesWithKeyPermutation(sorted, s, RunKeys(sorted)[i]);
    }
  }

  lemma RunKeysAscending(sorted: seq<Pair>)
    requires |sorted| >= 1 && SortedByKey(sorted)
    ensures forall i, j :: 0 <= i < j < |RunKeys(sorted)| ==> RunKeys(sorted)[i] < RunKeys(sorted)[j]
  {
    var firsts := FirstIndices(sorted, 0);
    var keys := RunKeys(sorted);
    forall i, j | 0 <= i < j < |keys|
      ensures keys[i] < keys[j]
    {
      RunBounds(sorted, i);
      RunSeparated(sorted, i);
      assert Boundary(sorted, i + 1) <= firsts[j];
    }
  }

  lemma RunKeysAreKeys(s: seq<Pair>, sorted: seq<Pair>)
    requires |sorted| >= 1 && SortedByKey(sorted) && multiset(sorted) == multiset(s)
    ensures forall k :: k in RunKeys(sorted) <==> k in KeysOf(s)
  {
    var firsts := FirstIndices(sorted, 0);
    var keys := RunKeys(sorted);
    forall k
      ensures k in keys <==> k in KeysOf(s)
    {
      if k in keys {
        var i :| 0 <= i < |keys| && keys[i] == k;
        RunBounds(sorted, i);
        var p := sorted[firsts[i]];
        assert p in multiset(s);
        assert p in s && p.key == k;
      }
      if k in KeysOf(s) {
        var p :| p in s && p.key == k;
        assert p in multiset(sorted);
        var j :| 0 <= j < |sorted| && sorted[j] == p;
        var i := LocateRun(sorted, j);
        RunConstant(sorted, i);
        assert keys[i] == sorted[Boundary(sorted, i)].key == k;
      }
    }
  }

  /** Every row of the sorted input lies in some run. */
  lemma LocateRun(sorted: seq<Pair>, j: int) returns (i: int)
    requires 0 <= j < |sorted|
    ensures 0 <= i < |FirstIndices(sorted, 0)|
    ensures Boundary(sorted, i) <= j < Boundary(sorted, i + 1)
  {
    var firsts := FirstIndices(sorted, 0);
    assert FirstOccurrence(sorted, 0);
    i := 0;
    while i + 1 < |firsts| && firsts[i + 1] <= j
      invariant 0 <= i < |firsts| && firsts[i] <= j
      decreases |firsts| - i
    {
      i := i + 1;
    }
  }

  /**
   `group_by` on a non-empty input: one non-empty group per distinct key, in
   strictly ascending key order, each holding exactly the values paired with
   its key.
   */
  lemma GroupByCorrect(s: seq<Pair>)
    requires |s| >= 1
    ensures |GroupBy(s)| == |GroupKeys(s)|
    ensures forall i, j :: 0 <= i < j < |GroupKeys(s)| ==> GroupKeys(s)[i] < GroupKeys(s)[j]
    ensures forall k :: k in GroupKeys(s) <==> k in KeysOf(s)
    ensures forall i :: 0 <= i < |GroupBy(s)| ==>
              |GroupBy(s)[i]| >= 1 && multiset(GroupBy(s)[i]) == multiset(ValuesWithKey(s, GroupKeys(s)[i]))
  {
    SplitRunsCorrect(s, SortByKey(s));
  }

  /** `v` is in group `i` exactly when some row pairs `v` with the group's key. */
  lemma InGroup(s: seq<Pair>, i: int, v: int)
    requires |s| >= 1 && 0 <= i < |GroupBy(s)|
    ensures |GroupKeys(s)| == |GroupBy(s)|
    ensures v in GroupBy(s)[i] <==> Pair(GroupKeys(s)[i], v) in s
  {
    var key := GroupKeys(s)[i];
    GroupByCorrect(s);
    var group := GroupBy(s)[i];
    assert multiset(group) == multiset(ValuesWithKey(s, key));
    assert v in group <==> v in multiset(group);
    assert v in ValuesWithKey(s, key) <==> v in multiset(ValuesWithKey(s, key));
    InValuesWithKey(s, key, v);
  }

  /** No value is lost or duplicated: the groups together are the value column, as a multiset. */
  lemma GroupByLossless(s: seq<Pair>)
    ensures multiset(Flatten(GroupBy(s))) == multiset(Values(s))
  {
  }

  /** On an empty input `np.split` still returns one (empty) group. */
  lemma GroupByEmpty()
    ensures GroupBy([]) == [[]]
  {
    var empty: seq<int> := [];
    assert Slices(empty, [0, 0]) == [empty];
  }

  /** The docstring example: keys `[0,1,1,0,2]`, values `[1,2,3,4,5]` give `[[1,4],[2,3],[5]]`. */
  lemma GroupByDocstringExample()
    ensures GroupBy([Pair(0, 1), Pair(1, 2), Pair(1, 3), Pair(0, 4), Pair(2, 5)]) == [[1, 4], [2, 3], [5]]
  {
    ExampleSorted();
    ExampleSplitRuns();
  }

  lemma ExampleSplitRuns()
    ensures SplitRuns([Pair(0, 1), Pair(0, 4), Pair(1, 2), Pair(1, 3), Pair(2, 5)]) == [[1, 4], [2, 3], [5]]
  {
    var sorted := [Pair(0, 1), Pair(0, 4), Pair(1, 2), Pair(1, 3), Pair(2, 5)];
    ExampleFirstIndices();
    ExampleValues();
    assert Tail([0, 2, 4]) == [2, 4];
    ExampleSplit();
  }

  lemma ExampleValues()
    ensures Values([Pair(0, 1), Pair(0, 4), Pair(1, 2), Pair(1, 3), Pair(2, 5)]) == [1, 4, 2, 3, 5]
  {
  }

  lemma ExampleSplit()
    ensures Split([1, 4, 2, 3, 5], [2, 4]) == [[1, 4], [2, 3], [5]]
  {
    var values := [1, 4, 2, 3, 5];
    var bs := [0] + [2, 4] + [|values|];
    assert bs == [0, 2, 4, 5];
    assert values[0..2] == [1, 4] && values[2..4] == [2, 3] && values[4..5] == [5];
    var r := Slices(values, bs);
    assert |r| == 3;
    assert r[0] == values[bs[0]..bs[1]] == [1, 4];
    assert r[1] == values[bs[1]..bs[2]] == [2, 3];
    assert r[2] == values[bs[2]..bs[3]] == [5];
    assert r == [[1, 4], [2, 3], [5]];
  }

  // The example's insertion sort, one inserted row per step.

  lemma ExampleSortStep1()
    ensures SortByKey([Pair(2, 5)]) == [Pair(2, 5)]
  {
    assert [Pair(2, 5)][1..] == [];
  }

  lemma ExampleSortStep2()
    ensures SortByKey([Pair(0, 4), Pair(2, 5)]) == [Pair(0, 4), Pair(2, 5)]
  {
    ExampleSortStep1();
    assert [Pair(0, 4), Pair(2, 5)][1..] == [Pair(2, 5)];
  }

  lemma ExampleSortStep3()
    ensures SortByKey([Pair(1, 3), Pair(0, 4), Pair(2, 5)]) == [Pair(0, 4), Pair(1, 3), Pair(2, 5)]
  {
    var t := [Pair(1, 3), Pair(0, 4), Pair(2, 5)];
    ExampleSortStep2();
    assert t[1..] == [Pair(0, 4), Pair(2, 5)];
    assert SortByKey(t) == Insert(Pair(1, 3), [Pair(0, 4), Pair(2, 5)]);
    ExampleInsertStep3();
  }

  lemma ExampleInsertStep3()
    ensures Insert(Pair(1, 3), [Pair(0, 4), Pair(2, 5)]) == [Pair(0, 4), Pair(1, 3), Pair(2, 5)]
  {
    var u := [Pair(0, 4), Pair(2, 5)];
    assert u[1..] == [Pair(2, 5)];
    assert Insert(Pair(1, 3), u[1..]) == [Pair(1, 3)] + u[1..];
  }

  lemma ExampleSortStep4()
    ensures SortByKey([Pair(1, 2), Pair(1, 3), Pair(0, 4), Pair(2, 5)])
         == [Pair(0, 4), Pair(1, 2), Pair(1, 3), Pair(2, 5)]
  {
    var t := [Pair(1, 2), Pair(1, 3), Pair(0, 4), Pair(2, 5)];
    ExampleSortStep3();
    assert t[1..] == [Pair(1, 3), Pair(0, 4), Pair(2, 5)];
    var sortedTail := [Pair(0, 4), Pair(1, 3), Pair(2, 5)];
    assert SortByKey(t) == Insert(Pair(1, 2), sortedTail);
    ExampleInsertStep4();
  }

  lemma ExampleInsertStep4()
    ensures Insert(Pair(1, 2), [Pair(0, 4), Pair(1, 3), Pair(2, 5)]) == [Pair(0, 4), Pair(1, 2), Pair(1, 3), Pair(2, 5)]
  {
    var u := [Pair(0, 4), Pair(1, 3), Pair(2, 5)];
    assert u[1..] == [Pair(1, 3), Pair(2, 5)];
    assert Insert(Pair(1, 2), u[1..]) == [Pair(1, 2)] + u[1..];
  }

  lemma ExampleSorted()
    ensures SortByKey([Pair(0, 1), Pair(1, 2), Pair(1, 3), Pair(0, 4), Pair(2, 5)])
         == [Pair(0, 1), Pair(0, 4), Pair(1, 2), Pair(1, 3), Pair(2, 5)]
  {
    var t := [Pair(0, 1), Pair(1, 2), Pair(1, 3), Pair(0, 4), Pair(2, 5)];
    ExampleSortStep4();
    assert t[1..] == [Pair(1, 2), Pair(1, 3), Pair(0, 4), Pair(2, 5)];
    var sortedTail := [Pair(0, 4), Pair(1, 2), Pair(1, 3), Pair(2, 5)];
    assert SortByKey(t) == Insert(Pair(0, 1), sortedTail);
    ExampleInsertStep5();
  }

  lemma ExampleInsertStep5()
    ensures Insert(Pair(0, 1), [Pair(0, 4), Pair(1, 2), Pair(1, 3), Pair(2, 5)])
         == [Pair(0, 1), Pair(0, 4), Pair(1, 2), Pair(1, 3), Pair(2, 5)]
  {
    var u := [Pair(0, 4), Pair(1, 2), Pair(1, 3), Pair(2, 5)];
    assert Insert(Pair(0, 1), u) == [Pair(0, 1)] + u;
  }

  lemma ExampleFirstIndices()
    ensures FirstIndices([Pair(0, 1), Pair(0, 4), Pair(1, 2), Pair(1, 3), Pair(2, 5)], 0) == [0, 2, 4]
  {
    var sorted := [Pair(0, 1), Pair(0, 4), Pair(1, 2), Pair(1, 3), Pair(2, 5)];
    assert FirstIndices(sorted, 5) == [];
    assert FirstOccurrence(sorted, 4);
    assert FirstIndices(sorted, 4) == [4];
    assert sorted[2].key == sorted[3].key;
    assert !FirstOccurrence(sorted, 3);
    assert FirstIndices(sorted, 3) == [4];
    assert FirstOccurrence(sorted, 2);
    assert FirstIndices(sorted, 2) == [2, 4];
    assert sorted[0].key == sorted[1].key;
    assert !FirstOccurrence(sorted, 1);
    assert FirstIndices(sorted, 1) == [2, 4];
    assert FirstOccurrence(sorted, 0);
  }
}

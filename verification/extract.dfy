/**
 `extract_subproblems`: every bin's index list is cut into `ceil(len/k)`
 contiguous, nearly equal pieces by `np.array_split`, so that no subproblem
 holds more than `k` points; `k == -1` keeps every bin whole.

 The Python `map` is lazy, so a failure surfaces when the bins are walked, in
 bin order; the model returns the first bin's failure. `np.ceil(len / k)` is
 computed here on exact rationals.
 */
module Extract {
  import opened Common

  /** The sentinel for "no upper bound on the points of a subproblem". */
  const Unbounded: int := -1

  /** `ceil(a / b)` of the exact quotient, for a non-zero divisor. */
  function CeilDiv(a: int, b: int): (q: int)
    requires b != 0
    ensures b > 0 ==> (q - 1) * b < a <= q * b
    ensures b < 0 ==> q * b <= a < (q - 1) * b
  {
    if b > 0 then (a + b - 1) / b else -(a / (-b))
  }

  /**
   Where `np.array_split` cuts a sequence of length `len` into `n` sections:
   the first `len % n` sections get one extra element.
   */
  function Cut(len: nat, n: int, i: int): int
    requires n >= 1
  {
    i * (len / n) + Min(i, len % n)
  }

  lemma CutStep(len: nat, n: int, i: int)
    requires n >= 1 && i >= 0
    ensures Cut(len, n, i + 1) - Cut(len, n, i) == len / n + (if i < len % n then 1 else 0)
  {
    assert (i + 1) * (len / n) == i * (len / n) + len / n;
  }

  lemma CutMonotone(len: nat, n: int, i: int, j: int)
    requires n >= 1 && i <= j
    ensures Cut(len, n, i) <= Cut(len, n, j)
  {
    MulMonotone(i, j, len / n);
  }

  lemma CutEnds(len: nat, n: int)
    requires n >= 1
    ensures Cut(len, n, 0) == 0 && Cut(len, n, n) == len
  {
  }

  /** `np.array_split(s, n)` for `n >= 1`: `n` consecutive pieces, the longer ones first. */
  function ArraySplit<T>(s: seq<T>, n: int): (pieces: seq<seq<T>>)
    requires n >= 1
    ensures |pieces| == n
    ensures Flatten(pieces) == s
    ensures forall i :: 0 <= i < n ==> |pieces[i]| == |s| / n + (if i < |s| % n then 1 else 0)
  {
    var bs := seq(n + 1, i requires 0 <= i <= n => Cut(|s|, n, i));
    assert Monotone(bs) by {
      forall i, j | 0 <= i <= j < |bs|
        ensures bs[i] <= bs[j]
      {
        CutMonotone(|s|, n, i, j);
      }
    }
    CutEnds(|s|, n);
    var pieces := Slices(s, bs);
    forall i | 0 <= i < n
      ensures |pieces[i]| == |s| / n + (if i < |s| % n then 1 else 0)
    {
      CutStep(|s|, n, i);
      assert pieces[i] == s[bs[i]..bs[i + 1]];
      assert bs[i] == Cut(|s|, n, i) && bs[i + 1] == Cut(|s|, n, i + 1);
    }
    assert s[0..|s|] == s;
    pieces
  }

  /** The number of sections `ceil(L / k)` lies in `[1, L]` when `L >= 1` and `k >= 1`. */
  lemma SectionCount(len: int, k: int)
    requires len >= 1 && k >= 1
    ensures 1 <= CeilDiv(len, k) <= len
  {
    var n := CeilDiv(len, k);
    if n > len {
      MulMonotone(len, n - 1, k);
    }
  }

  /** `ceil(L / k)` is positive exactly when both `L` and `k` are. */
  lemma SectionCountSign(len: nat, k: int)
    requires k != 0
    ensures CeilDiv(len, k) >= 1 <==> k >= 1 && len >= 1
  {
    if k >= 1 && len >= 1 {
      SectionCount(len, k);
    }
    if k < 0 && CeilDiv(len, k) >= 1 {
      MulMonotone(0, CeilDiv(len, k) - 1, -k);
    }
  }

  /**
   Cutting `len` elements into `ceil(len / k)` sections leaves at most `k`
   elements in a section (and at least one).
   */
  lemma SectionLengths(len: nat, k: int)
    requires k != 0 && CeilDiv(len, k) >= 1
    ensures k >= 1 && len >= 1
    ensures 1 <= len / CeilDiv(len, k)
    ensures len / CeilDiv(len, k) + (if len % CeilDiv(len, k) > 0 then 1 else 0) <= k
  {
    var n := CeilDiv(len, k);
    SectionCountSign(len, k);
    SectionCount(len, k);
    var q, r := len / n, len % n;
    assert len == q * n + r;
    if q < 1 {
      MulMonotone(q, 0, n);
    }
    if r > 0 && q >= k {
      MulMonotone(k, q, n);
    }
    if r == 0 && q > k {
      MulMonotone(k + 1, q, n);
    }
  }

  /**
   The subproblems of one bin. With `k == -1` the bin stays whole (the code
   wraps it into a one-element tuple); otherwise it is split into
   `ceil(len / k)` sections, which fails for `k == 0` (division by zero) and
   whenever that count is not positive (`k < -1`, or an empty bin).
   */
  function SplitBin(bin: seq<int>, k: int): (r: Result<seq<seq<int>>>)
    ensures r.Ok? <==> k == Unbounded || (k >= 1 && |bin| >= 1)
    ensures k == 0 ==> r == Err(ZeroDivisionError)
    ensures r.Err? && k != 0 ==> r == Err(ValueError)
    ensures r.Ok? ==> Flatten(r.value) == bin
    ensures r.Ok? && k == Unbounded ==> r.value == [bin]
    ensures r.Ok? && k >= 1 ==>
              && (|r.value| - 1) * k < |bin| <= |r.value| * k
              && (forall i :: 0 <= i < |r.value| ==> 1 <= |r.value[i]| <= k)
              && (forall i, j :: 0 <= i < |r.value| && 0 <= j < |r.value| ==> |r.value[i]| <= |r.value[j]| + 1)
  {
    if k == Unbounded then
      assert Flatten([bin]) == bin + Flatten([]);
      Ok([bin])
    else if k == 0 then
      Err(ZeroDivisionError)
    else
      var n := CeilDiv(|bin|, k);
      SectionCountSign(|bin|, k);
      if n <= 0 then
        Err(ValueError)
      else
        SectionLengths(|bin|, k);
        Ok(ArraySplit(bin, n))
  }

  /**
   `extract_subproblems`: the subproblems of every bin, bin by bin; the first
   bin that cannot be split decides the failure.
   */
  function ExtractSubproblems(bins: seq<seq<int>>, k: int): (r: Result<seq<seq<seq<int>>>>)
    ensures r.Ok? <==> forall i :: 0 <= i < |bins| ==> SplitBin(bins[i], k).Ok?
    ensures r.Ok? ==> |r.value| == |bins| && forall i :: 0 <= i < |bins| ==> SplitBin(bins[i], k) == Ok(r.value[i])
    ensures r.Err? ==> r.error == (if k == 0 then ZeroDivisionError else ValueError)
  {
    if |bins| == 0 then Ok([])
    else
      assert forall i :: 1 <= i < |bins| ==> bins[i] == bins[1..][i - 1];
      match SplitBin(bins[0], k)
      case Err(e) => Err(e)
      case Ok(pieces) =>
        match ExtractSubproblems(bins[1..], k)
        case Err(e) =>
          assert !(forall i :: 0 <= i < |bins| - 1 ==> SplitBin(bins[1..][i], k).Ok?);
          Err(e)
        case Ok(rest) => Ok([pieces] + rest)
  }

  /** When extraction succeeds and is fed every bin: success depends on `k` and the bins' sizes only. */
  lemma ExtractSucceeds(bins: seq<seq<int>>, k: int)
    ensures ExtractSubproblems(bins, k).Ok? <==>
              |bins| == 0 || k == Unbounded || (k >= 1 && forall i :: 0 <= i < |bins| ==> |bins[i]| >= 1)
  {
    if |bins| > 0 && !ExtractSubproblems(bins, k).Ok? && (k == Unbounded || k >= 1) {
      var i :| 0 <= i < |bins| && !SplitBin(bins[i], k).Ok?;
    }
  }

  /**
   Splitting loses and duplicates nothing: the subproblems, concatenated in
   the order the generator yields them, are the bins concatenated.
   */
  lemma {:induction false} ExtractLossless(bins: seq<seq<int>>, k: int)
    requires ExtractSubproblems(bins, k).Ok?
    ensures Flatten(Flatten(ExtractSubproblems(bins, k).value)) == Flatten(bins)
  {
    var sub := ExtractSubproblems(bins, k).value;
    FlattenFlatten(sub);
    var inner := seq(|sub|, i requires 0 <= i < |sub| => Flatten(sub[i]));
    forall i | 0 <= i < |sub|
      ensures inner[i] == bins[i]
    {
      assert SplitBin(bins[i], k) == Ok(sub[i]);
    }
    assert inner == bins;
  }
}

/** The cumulative-to-incremental subtraction pass of the bar builder. Each column keeps
    its top value and every lower value becomes its increase over the value above it
    (its first difference), so the column's running sums give back the original. */
module Subtraction {
  import opened Outcomes
  import opened CategoryDataset

  /** First differences of `x`: the first entry is kept, every later entry is replaced by
      its increase over its predecessor. */
  function Delta(x: seq<real>): (d: seq<real>)
    ensures |d| == |x|
  {
    seq(|x|, k requires 0 <= k < |x| => if k == 0 then x[0] else x[k] - x[k-1])
  }

  /** Sum of the first `n` entries of `x`. */
  function Sum(x: seq<real>, n: nat): real
    requires n <= |x|
  {
    if n == 0 then 0.0 else Sum(x, n - 1) + x[n - 1]
  }

  /** Running sums: entry `k` is the sum of entries `0..k` of `d`. */
  function PrefixSums(d: seq<real>): (x: seq<real>)
    ensures |x| == |d|
  {
    seq(|d|, k requires 0 <= k < |d| => Sum(d, k + 1))
  }

  /** Summing the first `n` differences rebuilds the `n`-th original value. */
  lemma {:induction false} SumOfDelta(x: seq<real>, n: nat)
    requires 0 < n <= |x|
    ensures Sum(Delta(x), n) == x[n - 1]
  {
    if n > 1 {
      SumOfDelta(x, n - 1);
    }
  }

  /** Running sums undo first differences. */
  lemma PrefixSumsOfDelta(x: seq<real>)
    ensures PrefixSums(Delta(x)) == x
  {
    forall k | 0 <= k < |x| ensures PrefixSums(Delta(x))[k] == x[k] {
      SumOfDelta(x, k + 1);
    }
  }

  /** First differences undo running sums, so no information is lost by the pass. */
  lemma DeltaOfPrefixSums(d: seq<real>)
    ensures Delta(PrefixSums(d)) == d
  {
    forall k | 0 <= k < |d| ensures Delta(PrefixSums(d))[k] == d[k] {
      if k > 0 {
        assert PrefixSums(d)[k] == PrefixSums(d)[k - 1] + d[k];
      } else {
        assert PrefixSums(d)[0] == Sum(d, 0) + d[0];
      }
    }
  }

  /** Value of cell (`k`, `c`) once its column has been differenced. */
  function DeltaAt(ds: Dataset, k: nat, c: nat): real
    requires Valid(ds) && Full(ds) && k < |ds.rowKeys| && c < |ds.columnKeys|
  {
    if k == 0 then ValueAt(ds, 0, c) else ValueAt(ds, k, c) - ValueAt(ds, k - 1, c)
  }

  /** `r` is a full dataset with the keys, tuples and flag of `ds`. */
  predicate SameShape(r: Dataset, ds: Dataset)
  {
    && Valid(r) && Full(r) && Valid(ds) && Full(ds)
    && r.rowKeys == ds.rowKeys && r.columnKeys == ds.columnKeys
    && r.tuples == ds.tuples && r.differentStats == ds.differentStats
  }

  /** The inner loop of the pass, on column `i`. */
  method SubtractColumn(ds: Dataset, i: nat) returns (r: Dataset)
    requires Valid(ds) && Full(ds) && |ds.rowKeys| > 0 && i < |ds.columnKeys|
    ensures SameShape(r, ds)
    ensures forall k :: 0 <= k < |ds.rowKeys| ==> ValueAt(r, k, i) == DeltaAt(ds, k, i)
    ensures forall k, c :: 0 <= k < |ds.rowKeys| && 0 <= c < |ds.columnKeys| && c != i ==>
              ValueAt(r, k, c) == ValueAt(ds, k, c)
  {
    r := ds;
    // the top value primes the total and is not modified
    var total := ValueAt(r, 0, i);
    var j := 1;
    while j < |ds.rowKeys|
      invariant 1 <= j <= |ds.rowKeys|
      invariant SameShape(r, ds)
      invariant total == ValueAt(ds, j - 1, i)
      invariant forall k :: 0 <= k < |ds.rowKeys| ==>
                  ValueAt(r, k, i) == if k < j then DeltaAt(ds, k, i) else ValueAt(ds, k, i)
      invariant forall k, c :: 0 <= k < |ds.rowKeys| && 0 <= c < |ds.columnKeys| && c != i ==>
                  ValueAt(r, k, c) == ValueAt(ds, k, c)
    {
      var value := ValueAt(r, j, i) - total;
      r := SetCell(r, j, i, value);
      total := total + value;
      j := j + 1;
    }
  }

  /** The subtraction loops of `addBar`. For every column the running total starts at
      the top value; for each lower row the cell becomes the cell minus the total and the
      total grows by that difference, so it always equals the original value of the row
      just processed. The caller has checked that there is at least one row; a dataset
      with an empty cell would have thrown, so it is not accepted here. */
  method SubtractionPass(ds: Dataset) returns (r: Dataset)
    requires Valid(ds) && Full(ds) && |ds.rowKeys| > 0
    ensures SameShape(r, ds)
    ensures forall i :: 0 <= i < |ds.columnKeys| ==> ValueAt(r, 0, i) == ValueAt(ds, 0, i)
    ensures forall j, i :: 1 <= j < |ds.rowKeys| && 0 <= i < |ds.columnKeys| ==>
              ValueAt(r, j, i) == ValueAt(ds, j, i) - ValueAt(ds, j - 1, i)
    ensures forall i :: 0 <= i < |ds.columnKeys| ==> Column(r, i) == Delta(Column(ds, i))
    ensures forall j, i :: 0 <= j < |ds.rowKeys| && 0 <= i < |ds.columnKeys| ==>
              Sum(Column(r, i), j + 1) == ValueAt(ds, j, i)
  {
    r := ds;
    var i := 0;
    while i < |ds.columnKeys|
      invariant 0 <= i <= |ds.columnKeys|
      invariant SameShape(r, ds)
      invariant forall k, c :: 0 <= k < |ds.rowKeys| && 0 <= c < i ==> ValueAt(r, k, c) == DeltaAt(ds, k, c)
      invariant forall k, c :: 0 <= k < |ds.rowKeys| && i <= c < |ds.columnKeys| ==>
                  ValueAt(r, k, c) == ValueAt(ds, k, c)
    {
      ghost var before := r;
      r := SubtractColumn(r, i);
      assert forall k :: 0 <= k < |ds.rowKeys| ==> DeltaAt(before, k, i) == DeltaAt(ds, k, i);
      i := i + 1;
    }
    forall c | 0 <= c < |ds.columnKeys| ensures Column(r, c) == Delta(Column(ds, c)) {
    }
    forall j, c | 0 <= j < |ds.rowKeys| && 0 <= c < |ds.columnKeys|
      ensures Sum(Column(r, c), j + 1) == ValueAt(ds, j, c)
    {
      SumOfDelta(Column(ds, c), j + 1);
    }
  }

  /** A column 10, 15, 12 becomes 10, 5, -3, and its
      running total ends at the original last value 12. */
  lemma DeltaExample()
    ensures Delta([10.0, 15.0, 12.0]) == [10.0, 5.0, -3.0]
    ensures Sum(Delta([10.0, 15.0, 12.0]), 3) == 12.0
  {
  }

  /** The pass is not idempotent: a second `addBar` on the same dataset differences the
      already differenced columns again. */
  lemma DeltaNotIdempotent()
    ensures Delta(Delta([10.0, 15.0, 12.0])) == [10.0, -5.0, -8.0]
    ensures Delta(Delta([10.0, 15.0, 12.0])) != Delta([10.0, 15.0, 12.0])
  {
    DeltaExample();
  }

  /** Differencing twice equals differencing once only on columns whose entries before
      the last are all zero. */
  lemma DeltaFixedPoints(x: seq<real>)
    ensures Delta(Delta(x)) == Delta(x) <==> forall k :: 0 <= k < |x| - 1 ==> x[k] == 0.0
  {
    if Delta(Delta(x)) == Delta(x) {
      forall m | 0 <= m < |x| - 1 ensures x[m] == 0.0 {
        ZeroBeforeLast(x, m);
      }
    }
  }

  lemma {:induction false} ZeroBeforeLast(x: seq<real>, m: nat)
    requires Delta(Delta(x)) == Delta(x)
    requires m < |x| - 1
    ensures x[m] == 0.0
  {
    // at position m + 1 the second difference removes Delta(x)[m], which must be zero
    assert Delta(Delta(x))[m + 1] == Delta(x)[m + 1];
    if m > 0 {
      ZeroBeforeLast(x, m - 1);
    }
  }
}

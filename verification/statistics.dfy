/** The three summaries of Python's `statistics` module the aggregator uses:
    `median`, `mean`, and `pstdev` through its square, the population
    variance. */
module Statistics {
  import opened Weighted

  predicate Sorted(xs: seq<real>)
  {
    forall i, j :: 0 <= i < j < |xs| ==> xs[i] <= xs[j]
  }

  /** Inserts `x` before the first element not below it. */
  function Insert(x: real, xs: seq<real>): (r: seq<real>)
    requires Sorted(xs)
    ensures Sorted(r)
    ensures multiset(r) == multiset(xs) + multiset{x}
  {
    if |xs| == 0 then [x]
    else if x <= xs[0] then [x] + xs
    else
      var rest := Insert(x, xs[1..]);
      assert xs == [xs[0]] + xs[1..];
      HeadBelowInsert(x, xs, rest);
      [xs[0]] + rest
  }

  lemma HeadBelowInsert(x: real, xs: seq<real>, rest: seq<real>)
    requires |xs| > 0 && Sorted(xs) && xs[0] < x
    requires multiset(rest) == multiset(xs[1..]) + multiset{x}
    ensures forall k :: 0 <= k < |rest| ==> xs[0] <= rest[k]
  {
    forall k | 0 <= k < |rest| ensures xs[0] <= rest[k] {
      assert rest[k] in multiset(rest);
      if rest[k] != x {
        assert rest[k] in multiset(xs[1..]);
        var m :| 0 <= m < |xs[1..]| && xs[1..][m] == rest[k];
        assert xs[m + 1] == rest[k];
      }
    }
  }

  /** `sorted(xs)`: the same values, ascending. */
  function Sort(xs: seq<real>): (r: seq<real>)
    ensures Sorted(r)
    ensures multiset(r) == multiset(xs)
    ensures |r| == |xs|
  {
    if |xs| == 0 then []
    else
      assert xs == xs[..|xs| - 1] + [xs[|xs| - 1]];
      var r := Insert(xs[|xs| - 1], Sort(xs[..|xs| - 1]));
      assert |r| == |multiset(r)|;
      r
  }

  /** `statistics.median`: the middle of the sorted values, or the mean of the
      two middle ones for an even count. */
  function Median(xs: seq<real>): real
    requires |xs| > 0
  {
    var s := Sort(xs);
    var n := |s|;
    if n % 2 == 1 then s[n / 2] else (s[n / 2 - 1] + s[n / 2]) / 2.0
  }

  /** `statistics.mean`. */
  function Mean(xs: seq<real>): real
    requires |xs| > 0
  {
    Sum(xs) / (|xs| as real)
  }

  function SquaredDeviations(xs: seq<real>, m: real): (ds: seq<real>)
    ensures |ds| == |xs|
    ensures forall i :: 0 <= i < |xs| ==> ds[i] == (xs[i] - m) * (xs[i] - m)
  {
    seq(|xs|, i requires 0 <= i < |xs| => (xs[i] - m) * (xs[i] - m))
  }

  /** `statistics.pvariance`, the square of `pstdev`. */
  function Variance(xs: seq<real>): real
    requires |xs| > 0
  {
    Mean(SquaredDeviations(xs, Mean(xs)))
  }

  /** Every value of a sorted permutation of `xs` is a value of `xs`. */
  lemma SortedValuesWithin(xs: seq<real>, lo: real, hi: real)
    requires AllWithin(xs, lo, hi)
    ensures AllWithin(Sort(xs), lo, hi)
  {
    var s := Sort(xs);
    forall k | 0 <= k < |s| ensures lo <= s[k] <= hi {
      assert s[k] in multiset(s);
      assert s[k] in xs;
    }
  }

  /** Median and mean lie between any bounds of the values; the variance is
      never negative. */
  lemma SummariesWithin(xs: seq<real>, lo: real, hi: real)
    requires |xs| > 0
    requires AllWithin(xs, lo, hi)
    ensures lo <= Median(xs) <= hi
    ensures lo <= Mean(xs) <= hi
    ensures Variance(xs) >= 0.0
  {
    SortedValuesWithin(xs, lo, hi);
    MeanOfWithin(xs, lo, hi);
    VarianceNonNegative(xs);
  }

  lemma VarianceNonNegative(xs: seq<real>)
    requires |xs| > 0
    ensures Variance(xs) >= 0.0
  {
    MeanOfWithinLow(SquaredDeviations(xs, Mean(xs)));
  }

  lemma MeanOfWithinLow(ds: seq<real>)
    requires |ds| > 0
    requires forall i :: 0 <= i < |ds| ==> ds[i] >= 0.0
    ensures Mean(ds) >= 0.0
  {
    SumBounds(ds, 0.0, MaxOf(ds));
  }

  function MaxOf(ds: seq<real>): (m: real)
    requires |ds| > 0
    ensures forall i :: 0 <= i < |ds| ==> ds[i] <= m
  {
    if |ds| == 1 then ds[0]
    else
      var rest := MaxOf(ds[1..]);
      assert forall i :: 1 <= i < |ds| ==> ds[i] == ds[1..][i - 1];
      if ds[0] >= rest then ds[0] else rest
  }

  /** A single value is its own median and mean, with variance 0. */
  lemma SingleSample(x: real)
    ensures Median([x]) == x && Mean([x]) == x && Variance([x]) == 0.0
  {
    assert Sort([x]) == [x] by {
      assert multiset(Sort([x])) == multiset{x};
      assert Sort([x])[0] in multiset(Sort([x]));
    }
    assert [x][1..] == [];
    assert Sum([x]) == x + Sum([]);
    var ds := SquaredDeviations([x], x);
    assert ds[0] == 0.0;
    assert ds[1..] == [];
    assert Sum(ds) == 0.0;
  }

  /** Two values: the median is their mean, and the variance the square of
      half their distance. */
  lemma TwoSamples(a: real, b: real)
    ensures Median([a, b]) == (a + b) / 2.0
    ensures Mean([a, b]) == (a + b) / 2.0
    ensures Variance([a, b]) == (a - b) * (a - b) / 4.0
  {
    TwoSampleSort(a, b);
    var m := (a + b) / 2.0;
    assert [a, b][1..] == [b] && [b][1..] == [];
    assert Sum([a, b]) == a + Sum([b]) && Sum([b]) == b + Sum([]);
    TwoSampleDeviations(a, b, m);
  }

  lemma TwoSampleSort(a: real, b: real)
    ensures Sort([a, b])[0] + Sort([a, b])[1] == a + b
  {
    assert [a, b][..1] == [a] && [a, b][1] == b;
    assert [a][..0] == [] && [a][0] == a;
    assert Sort([a]) == Insert(a, []) == [a];
    assert Sort([a, b]) == Insert(b, [a]);
    if b > a {
      assert [a][1..] == [];
      assert Insert(b, [a]) == [a] + [b];
    }
  }

  lemma TwoSampleDeviations(a: real, b: real, m: real)
    requires m == (a + b) / 2.0
    ensures Mean(SquaredDeviations([a, b], m)) == (a - b) * (a - b) / 4.0
  {
    var ds := SquaredDeviations([a, b], m);
    assert ds[1..][1..] == [];
    assert Sum(ds) == ds[0] + Sum(ds[1..]) && Sum(ds[1..]) == ds[1] + Sum(ds[1..][1..]);
    var h := (a - b) / 2.0;
    assert a - m == h && b - m == -h;
    assert ds[0] == h * h && ds[1] == h * h;
    assert h * h == (a - b) * (a - b) / 4.0;
  }
}

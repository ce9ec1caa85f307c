/**
 * Descriptive statistics over a finite sequence of observations: the sum,
 * mean, median, minimum, maximum and sample variance that the weather
 * pipeline asks of pandas (mean/median/min/max/std, describe) and that the
 * gradebook computes with sum/sorted/max/min. Observations are reals, so
 * floating-point rounding is not part of the model.
 */
module Stats {
  import opened Wrappers

  /** Sum of the observations, accumulated left to right. */
  function Sum(xs: seq<real>): real
  {
    if xs == [] then 0.0 else Sum(xs[..|xs| - 1]) + xs[|xs| - 1]
  }

  /** Arithmetic mean: the sum divided by the number of observations. */
  function Mean(xs: seq<real>): real
    requires |xs| > 0
  {
    Sum(xs) / (|xs| as real)
  }

  /** The least observation. */
  function Min(xs: seq<real>): (m: real)
    requires |xs| > 0
    ensures m in xs
    ensures forall x :: x in xs ==> m <= x
  {
    if |xs| == 1 then xs[0]
    else
      var init := xs[..|xs| - 1];
      assert xs == init + [xs[|xs| - 1]];
      var m := Min(init);
      if xs[|xs| - 1] < m then xs[|xs| - 1] else m
  }

  /** The greatest observation. */
  function Max(xs: seq<real>): (m: real)
    requires |xs| > 0
    ensures m in xs
    ensures forall x :: x in xs ==> x <= m
  {
    if |xs| == 1 then xs[0]
    else
      var init := xs[..|xs| - 1];
      assert xs == init + [xs[|xs| - 1]];
      var m := Max(init);
      if m < xs[|xs| - 1] then xs[|xs| - 1] else m
  }

  /** If every observation lies in [lo, hi], the sum lies in [n * lo, n * hi]. */
  lemma {:induction false} SumBounds(xs: seq<real>, lo: real, hi: real)
    requires forall x :: x in xs ==> lo <= x <= hi
    ensures (|xs| as real) * lo <= Sum(xs) <= (|xs| as real) * hi
  {
    if xs != [] {
      var init := xs[..|xs| - 1];
      assert forall x :: x in init ==> x in xs;
      assert xs[|xs| - 1] in xs;
      SumBounds(init, lo, hi);
      assert (|xs| as real) * lo == (|init| as real) * lo + lo;
      assert (|xs| as real) * hi == (|init| as real) * hi + hi;
    }
  }

  /** The mean of a non-empty sequence lies between its minimum and maximum. */
  lemma MeanBetween(xs: seq<real>)
    requires |xs| > 0
    ensures Min(xs) <= Mean(xs) <= Max(xs)
  {
    MeanWithin(xs, Min(xs), Max(xs));
  }

  /** Observations within [lo, hi] have their mean within [lo, hi]. */
  lemma MeanWithin(xs: seq<real>, lo: real, hi: real)
    requires |xs| > 0 && forall x :: x in xs ==> lo <= x <= hi
    ensures lo <= Mean(xs) <= hi
  {
    SumBounds(xs, lo, hi);
    DivideBounds(Sum(xs), |xs|, lo, hi);
  }

  lemma DivideBounds(a: real, n: nat, lo: real, hi: real)
    requires n > 0 && (n as real) * lo <= a <= (n as real) * hi
    ensures lo <= a / (n as real) <= hi
  {
    var q := a / (n as real);
    assert a == q * (n as real);
    ScaleBack(lo, q, n as real);
    ScaleBack(q, hi, n as real);
  }

  /** Comparing two products with the same positive factor compares the
      other factors. */
  lemma ScaleBack(x: real, y: real, n: real)
    requires n > 0.0 && n * x <= y * n
    ensures x <= y
  {
  }

  predicate Sorted(s: seq<real>)
  {
    forall i, j | 0 <= i < j < |s| :: s[i] <= s[j]
  }

  /** Inserts x into an ascending sequence, keeping it ascending. */
  function Insert(x: real, s: seq<real>): (r: seq<real>)
    requires Sorted(s)
    ensures Sorted(r)
    ensures multiset(r) == multiset(s) + multiset{x}
    ensures |r| == |s| + 1
    ensures r[0] == x || (|s| > 0 && r[0] == s[0])
  {
    if s == [] then [x]
    else if x <= s[0] then
      PrependSorted(x, s);
      [x] + s
    else
      var rest := Insert(x, s[1..]);
      PrependSorted(s[0], rest);
      assert s == [s[0]] + s[1..];
      [s[0]] + rest
  }

  /** A value no greater than the first of an ascending sequence can go in
      front of it. */
  lemma PrependSorted(y: real, s: seq<real>)
    requires Sorted(s) && (|s| > 0 ==> y <= s[0])
    ensures Sorted([y] + s)
  {
    var r := [y] + s;
    forall i, j | 0 <= i < j < |r| ensures r[i] <= r[j] {
      if i > 0 {
        assert r[i] == s[i - 1] && r[j] == s[j - 1];
      } else {
        assert r[j] == s[j - 1] && s[0] <= s[j - 1];
      }
    }
  }

  /** The observations in ascending order, as Python's sorted() returns them. */
  function SortReals(xs: seq<real>): (r: seq<real>)
    ensures Sorted(r)
    ensures multiset(r) == multiset(xs)
  {
    if xs == [] then []
    else
      assert xs == [xs[0]] + xs[1..];
      Insert(xs[0], SortReals(xs[1..]))
  }

  /** The median: the middle of the sorted observations for an odd count, the
      mean of the two middle ones for an even count. */
  function Median(xs: seq<real>): (m: real)
    requires |xs| > 0
    ensures Min(xs) <= m <= Max(xs)
    ensures |xs| % 2 == 1 ==> m in xs
  {
    var s := SortReals(xs);
    var n := |s|;
    assert forall i | 0 <= i < n :: s[i] in xs by {
      forall i | 0 <= i < n ensures s[i] in xs {
        assert s[i] in multiset(s);
      }
    }
    assert |s| == |xs| by {
      assert |multiset(s)| == |multiset(xs)|;
    }
    Middle(s)
  }

  /** The middle value of a sorted sequence: the mean of the two middle
      values when the length is even. */
  function Middle(s: seq<real>): (m: real)
    requires |s| > 0
    ensures Sorted(s) ==> s[(|s| - 1) / 2] <= m <= s[|s| / 2]
  {
    var n := |s|;
    if n % 2 == 0 then (s[n / 2 - 1] + s[n / 2]) / 2.0 else s[n / 2]
  }

  /** The median depends only on the values, not on their order. */
  lemma MedianOfPermutation(xs: seq<real>, ys: seq<real>)
    requires |xs| > 0 && multiset(xs) == multiset(ys)
    ensures |ys| == |xs|
    ensures Median(xs) == Median(ys)
  {
    assert |xs| == |multiset(xs)| == |multiset(ys)| == |ys|;
    SortedUnique(SortReals(xs), SortReals(ys));
  }

  /** Two ascending sequences holding the same values are the same sequence. */
  lemma {:induction false} SortedUnique(a: seq<real>, b: seq<real>)
    requires Sorted(a) && Sorted(b)
    requires multiset(a) == multiset(b)
    ensures a == b
  {
    assert |a| == |multiset(a)| == |multiset(b)| == |b|;
    if a != [] {
      SameHead(a, b);
      DropHead(a, b);
      SortedUnique(a[1..], b[1..]);
      assert a == [a[0]] + a[1..] && b == [b[0]] + b[1..];
    }
  }

  /** Two ascending sequences with the same values start with the same one. */
  lemma SameHead(a: seq<real>, b: seq<real>)
    requires Sorted(a) && Sorted(b) && a != [] && b != []
    requires multiset(a) == multiset(b)
    ensures a[0] == b[0]
  {
    assert a[0] in multiset(b) && b[0] in multiset(a);
    var i :| 0 <= i < |b| && b[i] == a[0];
    var j :| 0 <= j < |a| && a[j] == b[0];
    assert b[0] <= b[i] && a[0] <= a[j];
  }

  /** Removing an equal first value from both leaves equal multisets. */
  lemma DropHead(a: seq<real>, b: seq<real>)
    requires a != [] && b != [] && a[0] == b[0]
    requires multiset(a) == multiset(b)
    ensures multiset(a[1..]) == multiset(b[1..])
  {
    assert a == [a[0]] + a[1..] && b == [b[0]] + b[1..];
    assert multiset(a[1..]) == multiset(a) - multiset{a[0]};
    assert multiset(b[1..]) == multiset(b) - multiset{b[0]};
  }

  /** Sum of squared deviations from mu. */
  function SquaredDeviations(xs: seq<real>, mu: real): (r: real)
    ensures r >= 0.0
  {
    if xs == [] then 0.0
    else
      var d := xs[|xs| - 1] - mu;
      assert d * d >= 0.0 by {
        if d < 0.0 { assert d * d == (-d) * (-d); }
      }
      SquaredDeviations(xs[..|xs| - 1], mu) + d * d
  }

  /** Sample variance (pandas' std with ddof = 1, squared); undefined for fewer
      than two observations. */
  function Variance(xs: seq<real>): (v: Option<real>)
    ensures v.None? <==> |xs| < 2
    ensures v.Some? ==> v.value >= 0.0
  {
    if |xs| < 2 then None
    else Some(SquaredDeviations(xs, Mean(xs)) / ((|xs| - 1) as real))
  }

  /** Statistics of one column within one group of rows. */
  datatype Summary = Summary(
    count: nat,
    mean: Option<real>,
    median: Option<real>,
    min: Option<real>,
    max: Option<real>,
    variance: Option<real>)

  /** pandas' aggregation of the non-missing values of a column: every
      statistic is undefined (NaN) for no values, and the spread for one. */
  function Describe(xs: seq<real>): (s: Summary)
    ensures s.count == |xs|
    ensures s.mean.Some? == s.median.Some? == s.min.Some? == s.max.Some? == (|xs| > 0)
    ensures |xs| > 0 ==> s.min.value <= s.mean.value <= s.max.value
    ensures |xs| > 0 ==> s.min.value <= s.median.value <= s.max.value
    ensures |xs| > 0 ==> s.min.value in xs && s.max.value in xs
    ensures |xs| > 0 ==>
      s.mean == Some(Mean(xs)) && s.median == Some(Median(xs)) &&
      s.min == Some(Min(xs)) && s.max == Some(Max(xs))
    ensures s.variance == Variance(xs)
    ensures s.variance.None? <==> |xs| < 2
  {
    if xs == [] then Summary(0, None, None, None, None, None)
    else
      MeanBetween(xs);
      Summary(|xs|, Some(Mean(xs)), Some(Median(xs)), Some(Min(xs)), Some(Max(xs)), Variance(xs))
  }
}

/**
 * compute_stats (lab4/weather_analysis.py): the date column becomes the index,
 * the records are bucketed by calendar day with resample('D') and every
 * numeric column is aggregated per bucket (mean, min, max, std); describe()
 * summarises every numeric column over all records.
 *
 * resample('D') makes one bucket for every calendar day from the day of the
 * earliest record to the day of the latest one, so days without records get
 * a bucket too, with every statistic undefined. The freq argument of
 * compute_stats is never used: the bucket width is always one day.
 */
module Resample {
  import opened Wrappers
  import opened Frame
  import opened Calendar
  import Stats
  import Cleaning

  // ---------------------------------------------------------------------------
  // Days and daily buckets
  // ---------------------------------------------------------------------------

  /** The calendar day of each record, in row order. */
  function Days(rows: seq<Row>, k: nat): (ds: seq<int>)
    requires Cleaning.Dated(rows, k)
    ensures |ds| == |rows|
    ensures forall i | 0 <= i < |rows| :: ds[i] == DayOf(rows[i][k].t)
  {
    seq(|rows|, i requires 0 <= i < |rows| => DayOf(rows[i][k].t))
  }

  /** The day of the earliest record. */
  function FirstDay(ds: seq<int>): (d: int)
    requires |ds| > 0
    ensures d in ds
    ensures forall x | x in ds :: d <= x
  {
    if |ds| == 1 then ds[0]
    else
      var init := ds[..|ds| - 1];
      assert ds == init + [ds[|ds| - 1]];
      var d := FirstDay(init);
      if ds[|ds| - 1] < d then ds[|ds| - 1] else d
  }

  /** The day of the latest record. */
  function LastDay(ds: seq<int>): (d: int)
    requires |ds| > 0
    ensures d in ds
    ensures forall x | x in ds :: x <= d
  {
    if |ds| == 1 then ds[0]
    else
      var init := ds[..|ds| - 1];
      assert ds == init + [ds[|ds| - 1]];
      var d := LastDay(init);
      if d < ds[|ds| - 1] then ds[|ds| - 1] else d
  }

  /** One bucket of resample('D'): a day and the records that fall on it. */
  datatype Bucket = Bucket(day: int, members: seq<nat>)

  /** The buckets of resample('D'): none for no records; otherwise one per
      day, consecutive and ascending, from the first record's day to the last
      one's, each holding exactly the records of its day. */
  function DailyBuckets(ds: seq<int>): (r: seq<Bucket>)
    ensures ds == [] <==> r == []
    ensures ds != [] ==> r[0].day == FirstDay(ds) && r[|r| - 1].day == LastDay(ds)
    ensures forall j | 0 < j < |r| :: r[j].day == r[j - 1].day + 1
    ensures forall j | 0 <= j < |r| ::
      forall i: nat :: i in r[j].members <==> i < |ds| && ds[i] == r[j].day
  {
    if ds == [] then []
    else
      var first := FirstDay(ds);
      var r := seq(LastDay(ds) - first + 1, j requires 0 <= j => Bucket(first + j, Positions(ds, first + j)));
      assert forall j | 0 <= j < |r| :: r[j].members == Positions(ds, r[j].day);
      r
  }

  /** Every record falls in exactly one bucket: the one of its own day. */
  lemma EachRecordInOneBucket(ds: seq<int>, i: nat)
    requires i < |ds|
    ensures var r := DailyBuckets(ds);
      exists j :: 0 <= j < |r| && r[j].day == ds[i] && i in r[j].members
    ensures var r := DailyBuckets(ds);
      forall j | 0 <= j < |r| && i in r[j].members :: r[j].day == ds[i]
  {
    var r := DailyBuckets(ds);
    var j := ds[i] - FirstDay(ds);
    assert ds[i] in ds;
    assert 0 <= j < |r| && r[j].day == ds[i] by {
      BucketDays(ds);
    }
  }

  /** Bucket j holds day FirstDay + j, so the buckets run from the first
      day to the last with no day skipped. */
  lemma {:induction false} BucketDays(ds: seq<int>)
    requires ds != []
    ensures var r := DailyBuckets(ds);
      |r| == LastDay(ds) - FirstDay(ds) + 1 &&
      forall j | 0 <= j < |r| :: r[j].day == FirstDay(ds) + j
  {
    var r := DailyBuckets(ds);
    assert r[|r| - 1].day == LastDay(ds);
  }

  /** Each bucket lists the records of its day in row order. */
  lemma BucketMembersInOrder(ds: seq<int>, j: nat)
    requires j < |DailyBuckets(ds)|
    ensures var b := DailyBuckets(ds)[j];
      b.members == Positions(ds, b.day) &&
      forall p, q | 0 <= p < q < |b.members| :: b.members[p] < b.members[q]
  {
  }

  /** Records on three consecutive days, one a day, make three buckets of one
      record each. */
  lemma OneRecordPerDay(d: int)
    ensures var r := DailyBuckets([d, d + 1, d + 2]);
      |r| == 3 && forall j | 0 <= j < 3 :: r[j].day == d + j && r[j].members == [j]
  {
    var ds := [d, d + 1, d + 2];
    var r := DailyBuckets(ds);
    BucketDays(ds);
    assert FirstDay(ds) == d && LastDay(ds) == d + 2 by {
      assert ds[0] in ds && ds[2] in ds;
    }
    forall j | 0 <= j < 3 ensures r[j].members == [j] {
      PositionsSingle(ds, d + j, j);
    }
  }

  // ---------------------------------------------------------------------------
  // Aggregation
  // ---------------------------------------------------------------------------

  /** One column of agg(['mean', 'min', 'max', 'std']); std is kept squared,
      as the sample variance. */
  datatype Agg = Agg(mean: Option<real>, min: Option<real>, max: Option<real>, variance: Option<real>)

  /** The aggregation of the numbers present in a column of one bucket:
      undefined for an empty bucket, no spread for a single number. */
  function Aggregate(xs: seq<real>): (a: Agg)
    ensures a.mean.Some? == a.min.Some? == a.max.Some? == (|xs| > 0)
    ensures |xs| > 0 ==> a.min.value <= a.mean.value <= a.max.value
    ensures |xs| > 0 ==> a.min.value in xs && a.max.value in xs
    ensures |xs| > 0 ==>
      a.mean == Some(Stats.Mean(xs)) && a.min == Some(Stats.Min(xs)) && a.max == Some(Stats.Max(xs))
    ensures a.variance == Stats.Variance(xs)
    ensures a.variance.None? <==> |xs| < 2
  {
    var s := Stats.Describe(xs);
    Agg(s.mean, s.min, s.max, s.variance)
  }

  /** One row of the daily frame: the day and one aggregation per numeric
      column, in column order. */
  datatype DayRow = DayRow(day: int, columns: seq<Agg>)

  /** What compute_stats returns: the daily frame and describe(), one summary
      per numeric column. */
  datatype Report = Report(daily: seq<DayRow>, summary: seq<Stats.Summary>)

  /** The numeric columns of the records in bucket b, aggregated. */
  function DayRowOf(rows: seq<Row>, numeric: seq<nat>, b: Bucket): (d: DayRow)
    requires forall p | 0 <= p < |b.members| :: b.members[p] < |rows|
    requires forall i, c | 0 <= i < |rows| && c in numeric :: c < |rows[i]|
    ensures d.day == b.day && |d.columns| == |numeric|
  {
    assert forall c | 0 <= c < |numeric| :: numeric[c] in numeric;
    DayRow(b.day, seq(|numeric|, c requires 0 <= c < |numeric| =>
      Aggregate(Cleaning.PresentValues(Cells(rows, numeric[c], b.members)))))
  }

  /** The daily frame: one row per bucket of resample('D'), in day order. */
  function Daily(rows: seq<Row>, k: nat, numeric: seq<nat>): (daily: seq<DayRow>)
    requires Cleaning.Dated(rows, k)
    requires forall i, c | 0 <= i < |rows| && c in numeric :: c < |rows[i]|
    ensures var buckets := DailyBuckets(Days(rows, k));
      && |daily| == |buckets|
      && forall j | 0 <= j < |buckets| ::
           daily[j].day == buckets[j].day && |daily[j].columns| == |numeric|
  {
    var buckets := DailyBuckets(Days(rows, k));
    assert forall j, p | 0 <= j < |buckets| && 0 <= p < |buckets[j].members| ::
      buckets[j].members[p] in buckets[j].members;
    seq(|buckets|, j requires 0 <= j < |buckets| => DayRowOf(rows, numeric, buckets[j]))
  }

  /** describe(): one summary per numeric column over all records. */
  function Summaries(rows: seq<Row>, numeric: seq<nat>): (s: seq<Stats.Summary>)
    requires forall i, c | 0 <= i < |rows| && c in numeric :: c < |rows[i]|
    ensures |s| == |numeric|
  {
    assert forall c | 0 <= c < |numeric| :: numeric[c] in numeric;
    seq(|numeric|, c requires 0 <= c < |numeric| =>
      Stats.Describe(Cleaning.PresentValues(Column(rows, numeric[c]))))
  }

  /** compute_stats(df, date_col, freq): KeyError when there is no date
      column, TypeError when it does not hold timestamps; otherwise one daily
      row per bucket of resample('D') and a describe() of every numeric
      column over all records. */
  function ComputeStats(t: Table, dateCol: string, freq: string): (r: Result<Report, Error>)
    requires WellFormed(t)
    ensures dateCol !in t.names ==> r == Failure(MissingColumn(dateCol))
    ensures dateCol in t.names && t.kinds[IndexOf(t.names, dateCol).value] != DateTime ==>
      r == Failure(NotDatetime(dateCol))
    ensures r.Success? <==>
      dateCol in t.names && t.kinds[IndexOf(t.names, dateCol).value] == DateTime
    ensures r.Success? ==> Cleaning.Dated(t.rows, IndexOf(t.names, dateCol).value)
    ensures r.Success? ==>
      var ds := Days(t.rows, IndexOf(t.names, dateCol).value);
      var buckets := DailyBuckets(ds);
      var numeric := NumericColumns(t.kinds);
      && |r.value.daily| == |buckets|
      && (forall j | 0 <= j < |buckets| ::
            r.value.daily[j].day == buckets[j].day && |r.value.daily[j].columns| == |numeric|)
      && |r.value.summary| == |numeric|
      && r.value.daily == Daily(t.rows, IndexOf(t.names, dateCol).value, numeric)
      && r.value.summary == Summaries(t.rows, numeric)
  {
    match IndexOf(t.names, dateCol)
    case None => Failure(MissingColumn(dateCol))
    case Some(k) =>
      if t.kinds[k] != DateTime then Failure(NotDatetime(dateCol))
      else
        var numeric := NumericColumns(t.kinds);
        Success(Report(Daily(t.rows, k, numeric), Summaries(t.rows, numeric)))
  }

  /** In a daily row, every defined mean lies between that day's minimum and
      maximum, and a day with at most one record has no spread (std is NaN). */
  lemma DailyRowBounds(t: Table, dateCol: string, freq: string, j: nat, c: nat)
    requires WellFormed(t)
    requires ComputeStats(t, dateCol, freq).Success?
    requires j < |ComputeStats(t, dateCol, freq).value.daily|
    requires c < |NumericColumns(t.kinds)|
    ensures var a := ComputeStats(t, dateCol, freq).value.daily[j].columns[c];
      a.mean.Some? ==> a.min.value <= a.mean.value <= a.max.value
    ensures var k := IndexOf(t.names, dateCol).value;
      var b := DailyBuckets(Days(t.rows, k))[j];
      |b.members| <= 1 ==> ComputeStats(t, dateCol, freq).value.daily[j].columns[c].variance.None?
  {
    var k := IndexOf(t.names, dateCol).value;
    var numeric := NumericColumns(t.kinds);
    assert ComputeStats(t, dateCol, freq).value.daily == Daily(t.rows, k, numeric);
    DayCellBounds(t.rows, k, numeric, j, c);
  }

  /** The same bounds, on the daily frame of some records. */
  lemma DayCellBounds(rows: seq<Row>, k: nat, numeric: seq<nat>, j: nat, c: nat)
    requires Cleaning.Dated(rows, k)
    requires forall i, d | 0 <= i < |rows| && d in numeric :: d < |rows[i]|
    requires j < |DailyBuckets(Days(rows, k))| && c < |numeric|
    ensures var a := Daily(rows, k, numeric)[j].columns[c];
      a.mean.Some? ==> a.min.value <= a.mean.value <= a.max.value
    ensures |DailyBuckets(Days(rows, k))[j].members| <= 1 ==>
      Daily(rows, k, numeric)[j].columns[c].variance.None?
  {
    var b := DailyBuckets(Days(rows, k))[j];
    assert forall p | 0 <= p < |b.members| :: b.members[p] in b.members;
    assert numeric[c] in numeric;
    assert Daily(rows, k, numeric)[j] == DayRowOf(rows, numeric, b);
  }

  /** Record i falls on day d and holds a number in column col. */
  predicate NumberOnDay(rows: seq<Row>, k: nat, col: nat, d: int, i: int)
  {
    0 <= i < |rows| && k < |rows[i]| && col < |rows[i]| && rows[i][k].When? &&
    DayOf(rows[i][k].t) == d && rows[i][col].Number?
  }

  /** The numbers aggregated in cell (j, c) of the daily frame are those that
      the records of day j hold in column numeric[c]. */
  lemma BucketNumbers(rows: seq<Row>, k: nat, numeric: seq<nat>, j: nat, c: nat)
    requires Cleaning.Dated(rows, k)
    requires forall i, d | 0 <= i < |rows| && d in numeric :: d < |rows[i]|
    requires j < |DailyBuckets(Days(rows, k))| && c < |numeric|
    ensures var b := DailyBuckets(Days(rows, k))[j];
      && (forall p | 0 <= p < |b.members| :: b.members[p] < |rows| && numeric[c] < |rows[b.members[p]]|)
      && Daily(rows, k, numeric)[j].columns[c] == Aggregate(Cleaning.PresentValues(Cells(rows, numeric[c], b.members)))
      && forall x :: x in Cleaning.PresentValues(Cells(rows, numeric[c], b.members)) <==>
           exists i :: NumberOnDay(rows, k, numeric[c], b.day, i) && rows[i][numeric[c]].x == x
  {
    var b := DailyBuckets(Days(rows, k))[j];
    var col := numeric[c];
    assert col in numeric;
    assert forall p | 0 <= p < |b.members| :: b.members[p] in b.members;
    assert Daily(rows, k, numeric)[j] == DayRowOf(rows, numeric, b);
    var cells := Cells(rows, col, b.members);
    Cleaning.PresentValuesMembers(cells);
    forall x
      ensures x in Cleaning.PresentValues(cells) <==>
        exists i :: NumberOnDay(rows, k, col, b.day, i) && rows[i][col].x == x
    {
      if x in Cleaning.PresentValues(cells) {
        var p :| 0 <= p < |cells| && cells[p] == Number(x);
        assert NumberOnDay(rows, k, col, b.day, b.members[p]);
      }
      if exists i :: NumberOnDay(rows, k, col, b.day, i) && rows[i][col].x == x {
        var i :| NumberOnDay(rows, k, col, b.day, i) && rows[i][col].x == x;
        assert i in b.members;
        var p :| 0 <= p < |b.members| && b.members[p] == i;
        assert cells[p] == Number(x);
      }
    }
  }

  /** Cell (j, c) of the daily frame is defined exactly when a record of day
      j has a number in column numeric[c]; its minimum and maximum are then
      the least and the greatest of those numbers, and its mean is their mean
      (taken in row order). */
  lemma DayCellValues(rows: seq<Row>, k: nat, numeric: seq<nat>, j: nat, c: nat)
    requires Cleaning.Dated(rows, k)
    requires forall i, d | 0 <= i < |rows| && d in numeric :: d < |rows[i]|
    requires j < |DailyBuckets(Days(rows, k))| && c < |numeric|
    ensures var d := DailyBuckets(Days(rows, k))[j].day;
      var a := Daily(rows, k, numeric)[j].columns[c];
      && (a.min.Some? <==> exists i :: NumberOnDay(rows, k, numeric[c], d, i))
      && (a.min.Some? ==> forall i | NumberOnDay(rows, k, numeric[c], d, i) ::
            a.min.value <= rows[i][numeric[c]].x <= a.max.value)
      && (a.min.Some? ==> exists i | NumberOnDay(rows, k, numeric[c], d, i) :: rows[i][numeric[c]].x == a.min.value)
      && (a.max.Some? ==> exists i | NumberOnDay(rows, k, numeric[c], d, i) :: rows[i][numeric[c]].x == a.max.value)
  {
    BucketNumbers(rows, k, numeric, j, c);
    var b := DailyBuckets(Days(rows, k))[j];
    var xs := Cleaning.PresentValues(Cells(rows, numeric[c], b.members));
    var a := Daily(rows, k, numeric)[j].columns[c];
    forall i | NumberOnDay(rows, k, numeric[c], b.day, i)
      ensures rows[i][numeric[c]].x in xs
    {
    }
    if a.min.Some? {
      assert a.min.value in xs && a.max.value in xs;
    }
  }

  /** describe() of column numeric[c] counts the records holding a number
      there, is defined exactly when there is one, and its minimum and
      maximum are the least and greatest of those numbers. */
  lemma SummaryValues(rows: seq<Row>, numeric: seq<nat>, c: nat)
    requires forall i, d | 0 <= i < |rows| && d in numeric :: d < |rows[i]|
    requires c < |numeric|
    ensures var s := Summaries(rows, numeric)[c];
      && (forall i | 0 <= i < |rows| :: numeric[c] < |rows[i]|)
      && s == Stats.Describe(Cleaning.PresentValues(Column(rows, numeric[c])))
      && s.count == |set i | 0 <= i < |rows| && rows[i][numeric[c]].Number?|
      && (s.min.Some? <==> exists i | 0 <= i < |rows| :: rows[i][numeric[c]].Number?)
      && (s.min.Some? ==> forall i | 0 <= i < |rows| && rows[i][numeric[c]].Number? ::
            s.min.value <= rows[i][numeric[c]].x <= s.max.value)
      && (s.min.Some? ==> exists i | 0 <= i < |rows| :: rows[i][numeric[c]] == Number(s.min.value))
      && (s.max.Some? ==> exists i | 0 <= i < |rows| :: rows[i][numeric[c]] == Number(s.max.value))
  {
    var col := numeric[c];
    assert col in numeric;
    var cells := Column(rows, col);
    var xs := Cleaning.PresentValues(cells);
    Cleaning.PresentValuesMembers(cells);
    Cleaning.PresentValuesCount(cells);
    assert Cleaning.NumberCells(cells) == set i | 0 <= i < |rows| && rows[i][col].Number?;
    forall i | 0 <= i < |rows| && rows[i][col].Number?
      ensures rows[i][col].x in xs
    {
      assert cells[i] == Number(rows[i][col].x);
    }
  }

  /** The freq argument has no effect on the result. */
  lemma FreqIgnored(t: Table, dateCol: string, f1: string, f2: string)
    requires WellFormed(t)
    ensures ComputeStats(t, dateCol, f1) == ComputeStats(t, dateCol, f2)
  {
  }
}

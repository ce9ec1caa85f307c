/**
 * grouping_aggregation (lab4/weather_analysis.py): on a copy of the frame,
 * every record gets the month of its date and, through a month-to-season
 * table, a season label; the records are then grouped by label and every
 * numeric column is aggregated per group (mean, median, std).
 *
 * Without a caller's table the default one maps December to February to
 * Winter, March to May to Spring, June to August to Summer and September to
 * November to Autumn. A caller's table replaces the default one wholesale;
 * a record whose month it does not map, or whose date is missing, gets no
 * label and is in no group. Unlike preprocess, the date conversion here does
 * not coerce: a present date that cannot be read raises ValueError. groupby sorts the labels, so the groups come
 * in alphabetical order of their labels, not in calendar order.
 */
module Seasons {
  import opened Wrappers
  import opened Frame
  import opened Calendar
  import Stats
  import Cleaning

  type SeasonMap = map<int, string>

  /** The Northern-hemisphere table used when the caller gives none. */
  function DefaultSeasonMap(): SeasonMap
  {
    map[12 := "Winter", 1 := "Winter", 2 := "Winter",
        3 := "Spring", 4 := "Spring", 5 := "Spring",
        6 := "Summer", 7 := "Summer", 8 := "Summer",
        9 := "Autumn", 10 := "Autumn", 11 := "Autumn"]
  }

  /** The default table maps exactly the months 1 to 12, each to the season
      it lies in. */
  lemma DefaultSeasonMapTotal()
    ensures forall m :: m in DefaultSeasonMap() <==> 1 <= m <= 12
    ensures forall m | m in DefaultSeasonMap() ::
      DefaultSeasonMap()[m] ==
        if m == 12 || m <= 2 then "Winter"
        else if m <= 5 then "Spring"
        else if m <= 8 then "Summer"
        else "Autumn"
  {
  }

  // ---------------------------------------------------------------------------
  // Labelling the records
  // ---------------------------------------------------------------------------

  /** The month of a date cell, as pd.to_datetime(...).dt.month reads it: a
      missing date has no month (NaN), a timestamp has its own month. */
  function MonthOfCell(c: Cell, parse: Cell -> Option<int>): (m: Option<int>)
    ensures m.Some? ==> 1 <= m.value <= 12
    ensures c.Missing? ==> m.None?
    ensures c.When? ==> m == Some(MonthOf(c.t))
  {
    match Cleaning.ToDatetime(c, parse)
    case None => None
    case Some(t) => Some(MonthOf(t))
  }

  /** A present date cell that pd.to_datetime cannot read (without
      errors='coerce' it raises ValueError). */
  predicate Unreadable(c: Cell, parse: Cell -> Option<int>)
  {
    !c.Missing? && Cleaning.ToDatetime(c, parse).None?
  }

  /** Under the default table, every instant of the date y-m-d is labelled
      with the season of month m. */
  lemma DefaultSeasonOfDate(y: int, m: int, d: int, t: int, parse: Cell -> Option<int>)
    requires 1 <= m <= 12 && 1 <= d <= DaysInMonth(y, m)
    requires DaysFromCivil(y, m, d) * NanosPerDay <= t < (DaysFromCivil(y, m, d) + 1) * NanosPerDay
    ensures SeasonOf(None, MonthOfCell(When(t), parse)) ==
      Some(if m == 12 || m <= 2 then "Winter" else if m <= 5 then "Spring" else if m <= 8 then "Summer" else "Autumn")
  {
    MonthOfDate(y, m, d, t);
    DefaultSeasonMapTotal();
  }

  /** The label df['month'].map(season_map) gives a month: the caller's table
      when there is one, the default table otherwise, and no label for a
      missing month or one the table does not map. */
  function SeasonOf(custom: Option<SeasonMap>, month: Option<int>): (s: Option<string>)
    ensures s.Some? ==> month.Some?
    ensures custom.Some? && month.Some? ==>
      (s.Some? <==> month.value in custom.value) &&
      (s.Some? ==> s.value == custom.value[month.value])
    ensures custom.None? && month.Some? ==>
      (s.Some? <==> 1 <= month.value <= 12) &&
      (s.Some? ==> s.value == DefaultSeasonMap()[month.value])
  {
    var table := if custom.Some? then custom.value else DefaultSeasonMap();
    match month
    case None => None
    case Some(m) => if m in table then Some(table[m]) else None
  }

  /** The label of every record, in row order. */
  function Labels(rows: seq<Row>, k: nat, custom: Option<SeasonMap>, parse: Cell -> Option<int>): (ls: seq<Option<string>>)
    requires forall i | 0 <= i < |rows| :: k < |rows[i]|
    ensures |ls| == |rows|
    ensures forall i | 0 <= i < |rows| :: ls[i] == SeasonOf(custom, MonthOfCell(rows[i][k], parse))
  {
    seq(|rows|, i requires 0 <= i < |rows| => SeasonOf(custom, MonthOfCell(rows[i][k], parse)))
  }

  // ---------------------------------------------------------------------------
  // The order of labels
  // ---------------------------------------------------------------------------

  /** Python's string order: character by character, a proper prefix first. */
  predicate StrLess(a: string, b: string)
    decreases |a|
  {
    if a == [] then b != []
    else if b == [] then false
    else a[0] < b[0] || (a[0] == b[0] && StrLess(a[1..], b[1..]))
  }

  lemma {:induction false} StrLessIrreflexive(a: string)
    ensures !StrLess(a, a)
  {
    if a != [] {
      StrLessIrreflexive(a[1..]);
    }
  }

  lemma {:induction false} StrLessTransitive(a: string, b: string, c: string)
    requires StrLess(a, b) && StrLess(b, c)
    ensures StrLess(a, c)
  {
    if a != [] && b != [] && c != [] && a[0] == b[0] == c[0] {
      StrLessTransitive(a[1..], b[1..], c[1..]);
    }
  }

  lemma {:induction false} StrLessTotal(a: string, b: string)
    requires a != b
    ensures StrLess(a, b) || StrLess(b, a)
  {
    if a != [] && b != [] && a[0] == b[0] {
      assert a == [a[0]] + a[1..] && b == [b[0]] + b[1..];
      StrLessTotal(a[1..], b[1..]);
    }
  }

  /** Labels in strictly ascending order, hence without repeats. */
  predicate Ascending(s: seq<string>)
  {
    forall i, j | 0 <= i < j < |s| :: StrLess(s[i], s[j])
  }

  /** Inserts a label into an ascending list of labels, unless present. */
  function InsertLabel(x: string, s: seq<string>): (r: seq<string>)
    requires Ascending(s)
    ensures Ascending(r)
    ensures forall y :: y in r <==> y in s || y == x
  {
    if s == [] then [x]
    else if x == s[0] then s
    else if StrLess(x, s[0]) then
      forall j | 0 <= j < |s| ensures StrLess(x, s[j]) {
        if j > 0 { StrLessTransitive(x, s[0], s[j]); }
      }
      [x] + s
    else
      StrLessTotal(x, s[0]);
      var rest := InsertLabel(x, s[1..]);
      forall j | 0 <= j < |rest| ensures StrLess(s[0], rest[j]) {
        assert rest[j] in rest;
        if rest[j] != x {
          var q :| 0 <= q < |s[1..]| && s[1..][q] == rest[j];
          assert s[q + 1] == rest[j];
        }
      }
      [s[0]] + rest
  }

  /** The distinct labels that occur, in ascending order: the keys groupby
      makes, with no key for unlabelled records. */
  function SortedLabels(ls: seq<Option<string>>): (r: seq<string>)
    ensures Ascending(r)
    ensures forall x :: x in r <==> Some(x) in ls
  {
    if ls == [] then []
    else
      var n := |ls| - 1;
      var init := SortedLabels(ls[..n]);
      assert ls == ls[..n] + [ls[n]];
      if ls[n].Some? then InsertLabel(ls[n].value, init) else init
  }

  /** With all four default seasons present the groups come as Autumn, Spring,
      Summer, Winter, whatever the order of the records. */
  lemma DefaultSeasonOrder(ls: seq<Option<string>>)
    requires forall i | 0 <= i < |ls| :: ls[i].Some? ==> ls[i].value in {"Winter", "Spring", "Summer", "Autumn"}
    requires Some("Winter") in ls && Some("Spring") in ls && Some("Summer") in ls && Some("Autumn") in ls
    ensures SortedLabels(ls) == ["Autumn", "Spring", "Summer", "Winter"]
  {
    var r := SortedLabels(ls);
    var want := ["Autumn", "Spring", "Summer", "Winter"];
    forall x
      ensures x in r <==> x in want
    {
      if x in r {
        var i :| 0 <= i < |ls| && ls[i] == Some(x);
      }
    }
    assert Ascending(want) by {
      assert StrLess("Autumn", "Spring") && StrLess("Autumn", "Summer") && StrLess("Autumn", "Winter");
      assert StrLess("Spring", "Summer") && StrLess("Spring", "Winter") && StrLess("Summer", "Winter");
    }
    AscendingUnique(r, want);
  }

  /** Two ascending lists with the same labels are the same list. */
  lemma {:induction false} AscendingUnique(a: seq<string>, b: seq<string>)
    requires Ascending(a) && Ascending(b)
    requires forall x :: x in a <==> x in b
    ensures a == b
  {
    if a != [] {
      assert a[0] in a;
    }
    if b != [] {
      assert b[0] in b;
    }
    if a != [] && b != [] {
      HeadIsLeast(a, b[0]);
      HeadIsLeast(b, a[0]);
      StrLessAsymmetric(a[0], b[0]);
      forall x ensures x in a[1..] <==> x in b[1..] {
        TailHoldsTheRest(a, x);
        TailHoldsTheRest(b, x);
      }
      AscendingUnique(a[1..], b[1..]);
    }
  }

  /** The first label of an ascending list comes before every other one. */
  lemma HeadIsLeast(s: seq<string>, x: string)
    requires Ascending(s) && x in s
    ensures x == s[0] || StrLess(s[0], x)
  {
    var j :| 0 <= j < |s| && s[j] == x;
  }

  /** The tail of an ascending list holds every label but its first one. */
  lemma TailHoldsTheRest(s: seq<string>, x: string)
    requires Ascending(s) && s != []
    ensures x in s[1..] <==> x in s && x != s[0]
  {
    StrLessIrreflexive(s[0]);
    if x in s[1..] {
      var j :| 0 <= j < |s[1..]| && s[1..][j] == x;
      assert StrLess(s[0], s[j + 1]);
    }
    if x in s && x != s[0] {
      var j :| 0 <= j < |s| && s[j] == x;
      assert s[1..][j - 1] == x;
    }
  }

  lemma {:induction false} StrLessAsymmetric(a: string, b: string)
    ensures !(StrLess(a, b) && StrLess(b, a))
  {
    if a != [] && b != [] && a[0] == b[0] {
      StrLessAsymmetric(a[1..], b[1..]);
    }
  }

  // ---------------------------------------------------------------------------
  // Groups
  // ---------------------------------------------------------------------------

  /** One group of groupby('season'): its label and the records that bear it. */
  datatype Group = Group(season: string, members: seq<nat>)

  /** The groups, one per label that occurs, in label order, each holding
      exactly the records with its label. */
  function SeasonGroups(ls: seq<Option<string>>): (r: seq<Group>)
    ensures forall x :: (exists j :: 0 <= j < |r| && r[j].season == x) <==> Some(x) in ls
    ensures forall i, j | 0 <= i < j < |r| :: StrLess(r[i].season, r[j].season)
    ensures forall j | 0 <= j < |r| ::
      forall i: nat :: i in r[j].members <==> i < |ls| && ls[i] == Some(r[j].season)
  {
    var labels := SortedLabels(ls);
    var r := seq(|labels|, j requires 0 <= j < |labels| => Group(labels[j], Positions(ls, Some(labels[j]))));
    assert forall j | 0 <= j < |r| :: r[j].season == labels[j] && r[j].members == Positions(ls, Some(r[j].season));
    forall x | x in labels
      ensures exists j :: 0 <= j < |r| && r[j].season == x
    {
      var j :| 0 <= j < |labels| && labels[j] == x;
      assert r[j].season == x;
    }
    r
  }

  /** A labelled record is in exactly one group, the one of its label; a
      record without a label is in no group. */
  lemma RecordInOneGroup(ls: seq<Option<string>>, i: nat)
    requires i < |ls|
    ensures var r := SeasonGroups(ls);
      ls[i].Some? ==> exists j :: 0 <= j < |r| && r[j].season == ls[i].value && i in r[j].members
    ensures var r := SeasonGroups(ls);
      forall j | 0 <= j < |r| && i in r[j].members :: ls[i] == Some(r[j].season)
    ensures var r := SeasonGroups(ls);
      ls[i].None? ==> forall j | 0 <= j < |r| :: i !in r[j].members
  {
    var r := SeasonGroups(ls);
    if ls[i].Some? {
      assert Some(ls[i].value) in ls;
      var j :| 0 <= j < |r| && r[j].season == ls[i].value;
      assert i in r[j].members;
    }
  }

  /** Each group lists the records of its label in row order. */
  lemma GroupMembersInOrder(ls: seq<Option<string>>, j: nat)
    requires j < |SeasonGroups(ls)|
    ensures var g := SeasonGroups(ls)[j];
      g.members == Positions(ls, Some(g.season)) &&
      forall p, q | 0 <= p < q < |g.members| :: g.members[p] < g.members[q]
  {
  }

  // ---------------------------------------------------------------------------
  // Aggregation
  // ---------------------------------------------------------------------------

  /** One column of agg(['mean', 'median', 'std']) for one group; std is kept
      squared, as the sample variance. */
  datatype GroupAgg = GroupAgg(mean: Option<real>, median: Option<real>, variance: Option<real>)

  /** The aggregation of the numbers present in a column of one group. */
  function AggregateGroup(xs: seq<real>): (a: GroupAgg)
    ensures a.mean.Some? == a.median.Some? == (|xs| > 0)
    ensures |xs| > 0 ==>
      Stats.Min(xs) <= a.mean.value <= Stats.Max(xs) &&
      Stats.Min(xs) <= a.median.value <= Stats.Max(xs)
    ensures |xs| > 0 ==> a.mean == Some(Stats.Mean(xs)) && a.median == Some(Stats.Median(xs))
    ensures a.variance == Stats.Variance(xs)
    ensures a.variance.None? <==> |xs| < 2
  {
    var s := Stats.Describe(xs);
    GroupAgg(s.mean, s.median, s.variance)
  }

  /** One row of the result: a season and one aggregation per numeric column,
      in column order. */
  datatype SeasonRow = SeasonRow(season: string, columns: seq<GroupAgg>)

  /** The numeric columns of the records in group g, aggregated. */
  function SeasonRowOf(rows: seq<Row>, numeric: seq<nat>, g: Group): (s: SeasonRow)
    requires forall p | 0 <= p < |g.members| :: g.members[p] < |rows|
    requires forall i, c | 0 <= i < |rows| && c in numeric :: c < |rows[i]|
    ensures s.season == g.season && |s.columns| == |numeric|
  {
    assert forall c | 0 <= c < |numeric| :: numeric[c] in numeric;
    SeasonRow(g.season, seq(|numeric|, c requires 0 <= c < |numeric| =>
      AggregateGroup(Cleaning.PresentValues(Cells(rows, numeric[c], g.members)))))
  }

  /** The grouped frame: one row per group, in label order. */
  function SeasonRows(rows: seq<Row>, numeric: seq<nat>, ls: seq<Option<string>>): (r: seq<SeasonRow>)
    requires |ls| == |rows|
    requires forall i, c | 0 <= i < |rows| && c in numeric :: c < |rows[i]|
    ensures var groups := SeasonGroups(ls);
      && |r| == |groups|
      && forall j | 0 <= j < |groups| ::
           r[j].season == groups[j].season && |r[j].columns| == |numeric|
  {
    var groups := SeasonGroups(ls);
    assert forall j, p | 0 <= j < |groups| && 0 <= p < |groups[j].members| ::
      groups[j].members[p] in groups[j].members;
    seq(|groups|, j requires 0 <= j < |groups| => SeasonRowOf(rows, numeric, groups[j]))
  }

  /** Record i bears label s and holds a number in column col. */
  predicate NumberInSeason(rows: seq<Row>, ls: seq<Option<string>>, col: nat, s: string, i: int)
  {
    0 <= i < |rows| && i < |ls| && col < |rows[i]| && ls[i] == Some(s) && rows[i][col].Number?
  }

  /** The numbers present in column col among the members of a group are
      those that the records bearing its label hold there. */
  lemma MemberNumbers(rows: seq<Row>, ls: seq<Option<string>>, col: nat, g: Group)
    requires |ls| == |rows|
    requires forall i | 0 <= i < |rows| :: col < |rows[i]|
    requires forall i: nat :: i in g.members <==> i < |ls| && ls[i] == Some(g.season)
    ensures forall p | 0 <= p < |g.members| :: g.members[p] < |rows|
    ensures forall x :: x in Cleaning.PresentValues(Cells(rows, col, g.members)) <==>
      exists i :: NumberInSeason(rows, ls, col, g.season, i) && rows[i][col].x == x
  {
    assert forall p | 0 <= p < |g.members| :: g.members[p] in g.members;
    var cells := Cells(rows, col, g.members);
    Cleaning.PresentValuesMembers(cells);
    forall x
      ensures x in Cleaning.PresentValues(cells) <==>
        exists i :: NumberInSeason(rows, ls, col, g.season, i) && rows[i][col].x == x
    {
      if x in Cleaning.PresentValues(cells) {
        var p :| 0 <= p < |cells| && cells[p] == Number(x);
        assert NumberInSeason(rows, ls, col, g.season, g.members[p]);
      }
      if exists i :: NumberInSeason(rows, ls, col, g.season, i) && rows[i][col].x == x {
        var i :| NumberInSeason(rows, ls, col, g.season, i) && rows[i][col].x == x;
        assert i in g.members;
        var p :| 0 <= p < |g.members| && g.members[p] == i;
        assert cells[p] == Number(x);
      }
    }
  }

  /** The numbers aggregated in cell (j, c) of the grouped frame are those
      that the records of season j hold in column numeric[c]. */
  lemma SeasonNumbers(rows: seq<Row>, numeric: seq<nat>, ls: seq<Option<string>>, j: nat, c: nat)
    requires |ls| == |rows|
    requires forall i, d | 0 <= i < |rows| && d in numeric :: d < |rows[i]|
    requires j < |SeasonGroups(ls)| && c < |numeric|
    ensures var g := SeasonGroups(ls)[j];
      && (forall p | 0 <= p < |g.members| :: g.members[p] < |rows| && numeric[c] < |rows[g.members[p]]|)
      && SeasonRows(rows, numeric, ls)[j].columns[c] ==
           AggregateGroup(Cleaning.PresentValues(Cells(rows, numeric[c], g.members)))
      && forall x :: x in Cleaning.PresentValues(Cells(rows, numeric[c], g.members)) <==>
           exists i :: NumberInSeason(rows, ls, numeric[c], g.season, i) && rows[i][numeric[c]].x == x
  {
    var g := SeasonGroups(ls)[j];
    assert numeric[c] in numeric;
    MemberNumbers(rows, ls, numeric[c], g);
    assert SeasonRows(rows, numeric, ls)[j] == SeasonRowOf(rows, numeric, g);
  }

  /** The aggregate of the numbers that the records labelled s hold in column
      col (as SeasonNumbers shows every cell of the grouped frame to be) is
      defined exactly when there is one, and its mean and median lie between
      two of them. */
  lemma AggregateWithin(a: GroupAgg, xs: seq<real>, rows: seq<Row>, ls: seq<Option<string>>, col: nat, s: string)
    requires a == AggregateGroup(xs)
    requires forall x :: x in xs <==> exists i :: NumberInSeason(rows, ls, col, s, i) && rows[i][col].x == x
    ensures a.mean.Some? <==> exists i :: NumberInSeason(rows, ls, col, s, i)
    ensures a.mean.Some? ==> exists i | NumberInSeason(rows, ls, col, s, i) ::
      rows[i][col].x <= a.mean.value && rows[i][col].x <= a.median.value
    ensures a.mean.Some? ==> exists i | NumberInSeason(rows, ls, col, s, i) ::
      a.mean.value <= rows[i][col].x && a.median.value <= rows[i][col].x
  {
    forall i | NumberInSeason(rows, ls, col, s, i)
      ensures rows[i][col].x in xs
    {
    }
    if |xs| > 0 {
      var lo, hi := Stats.Min(xs), Stats.Max(xs);
      assert lo in xs && hi in xs;
      var i :| NumberInSeason(rows, ls, col, s, i) && rows[i][col].x == lo;
      var i' :| NumberInSeason(rows, ls, col, s, i') && rows[i'][col].x == hi;
      assert rows[i][col].x <= a.mean.value && rows[i][col].x <= a.median.value;
      assert a.mean.value <= rows[i'][col].x && a.median.value <= rows[i'][col].x;
    }
  }

  /** grouping_aggregation(df, date_col, season_map): KeyError when there is
      no date column, ValueError when a present date cannot be read;
      otherwise one row per season label that occurs, in label order,
      aggregating the numeric columns of that season's records. The caller's
      frame is a value and is not changed. */
  function GroupingAggregation(t: Table, dateCol: string, custom: Option<SeasonMap>, parse: Cell -> Option<int>)
    : (r: Result<seq<SeasonRow>, Error>)
    requires WellFormed(t)
    ensures dateCol !in t.names ==> r == Failure(MissingColumn(dateCol))
    ensures dateCol in t.names ==>
      var k := IndexOf(t.names, dateCol).value;
      && (r.Failure? <==> exists i | 0 <= i < |t.rows| :: Unreadable(t.rows[i][k], parse))
      && (r.Failure? ==> r.error == UnreadableDate(dateCol))
    ensures r.Success? ==>
      r.value == SeasonRows(t.rows, NumericColumns(t.kinds), Labels(t.rows, IndexOf(t.names, dateCol).value, custom, parse))
  {
    match IndexOf(t.names, dateCol)
    case None => Failure(MissingColumn(dateCol))
    case Some(k) =>
      if exists i | 0 <= i < |t.rows| :: Unreadable(t.rows[i][k], parse) then Failure(UnreadableDate(dateCol))
      else Success(SeasonRows(t.rows, NumericColumns(t.kinds), Labels(t.rows, k, custom, parse)))
  }
}

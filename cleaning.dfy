/**
 * preprocess (lab4/weather_analysis.py): parse the date column, drop the rows
 * whose date does not parse, sort by date, and fill the gaps of every numeric
 * column that has any by carrying the last present value forward and then
 * putting the column's mean into the gaps still left at the top.
 *
 * Parsing (pd.to_datetime with errors='coerce') is a foreign library call and
 * is a parameter here: it maps a raw cell to a timestamp, or to None when the
 * cell is missing or does not parse.
 */
module Cleaning {
  import opened Wrappers
  import opened Frame
  import Stats

  // ---------------------------------------------------------------------------
  // Parsing the date column and dropping the rows whose date is missing
  // ---------------------------------------------------------------------------

  /** Every row holds a parsed timestamp in column k. */
  predicate Dated(rows: seq<Row>, k: nat)
  {
    forall i | 0 <= i < |rows| :: k < |rows[i]| && rows[i][k].When?
  }

  /** pd.to_datetime on one cell: a missing cell is NaT, a timestamp is kept
      as it is, and any other value goes through the parser, which gives None
      for a value it cannot read. */
  function ToDatetime(c: Cell, parse: Cell -> Option<int>): (r: Option<int>)
    ensures c.Missing? ==> r.None?
    ensures c.When? ==> r == Some(c.t)
  {
    match c
    case Missing => None
    case When(t) => Some(t)
    case _ => parse(c)
  }

  /** Positions of the rows whose date cell converts, in row order: every row
      is kept exactly when its date converts, so no row is invented and only
      rows with a missing or unreadable date are lost. */
  function KeptIndices(rows: seq<Row>, k: nat, parse: Cell -> Option<int>): (r: seq<nat>)
    requires forall i | 0 <= i < |rows| :: k < |rows[i]|
    ensures forall i: nat :: i in r <==> i < |rows| && ToDatetime(rows[i][k], parse).Some?
    ensures forall p, q | 0 <= p < q < |r| :: r[p] < r[q]
    ensures |r| <= |rows|
    ensures (forall i | 0 <= i < |rows| :: ToDatetime(rows[i][k], parse).Some?) ==> |r| == |rows|
  {
    if rows == [] then []
    else
      var n := |rows| - 1;
      var init := KeptIndices(rows[..n], k, parse);
      assert forall p | 0 <= p < |init| :: init[p] < n by {
        forall p | 0 <= p < |init| ensures init[p] < n {
          assert init[p] in init;
        }
      }
      if ToDatetime(rows[n][k], parse).Some? then init + [n] else init
  }

  /** The frame after to_datetime(errors='coerce') and dropna(subset=[date]):
      the rows whose date converts, in their original order, each with its
      date cell replaced by the timestamp. */
  function Kept(rows: seq<Row>, k: nat, parse: Cell -> Option<int>): (r: seq<Row>)
    requires forall i | 0 <= i < |rows| :: k < |rows[i]|
    ensures |r| == |KeptIndices(rows, k, parse)| <= |rows|
    ensures forall j | 0 <= j < |r| ::
      var i := KeptIndices(rows, k, parse)[j];
      i < |rows| && r[j] == rows[i][k := When(ToDatetime(rows[i][k], parse).value)]
    ensures Dated(r, k)
  {
    var idx := KeptIndices(rows, k, parse);
    assert forall j | 0 <= j < |idx| :: idx[j] in idx;
    seq(|idx|, j requires 0 <= j < |idx| => rows[idx[j]][k := When(ToDatetime(rows[idx[j]][k], parse).value)])
  }

  // ---------------------------------------------------------------------------
  // Sorting by date
  // ---------------------------------------------------------------------------

  /** Rows in non-decreasing order of their timestamp in column k. */
  predicate SortedByDate(rows: seq<Row>, k: nat)
  {
    Dated(rows, k) && forall i, j | 0 <= i < j < |rows| :: rows[i][k].t <= rows[j][k].t
  }

  /** sort_values(date): the rows end up in non-decreasing date order and are
      a permutation of the rows before. The default sort of pandas is not
      stable, so nothing is promised about the order of rows with equal dates. */
  method SortByDate(a: array<Row>, k: nat)
    requires Dated(a[..], k)
    modifies a
    ensures SortedByDate(a[..], k)
    ensures multiset(a[..]) == old(multiset(a[..]))
  {
    var i := 0;
    while i < a.Length
      invariant 0 <= i <= a.Length
      invariant Dated(a[..], k)
      invariant forall p, q | 0 <= p < q < i :: a[p][k].t <= a[q][k].t
      invariant multiset(a[..]) == old(multiset(a[..]))
    {
      InsertDown(a, k, i);
      i := i + 1;
    }
  }

  /** One pass of the insertion sort: row i sinks past the rows above it
      with a later date, so the first i + 1 rows end up sorted. */
  method InsertDown(a: array<Row>, k: nat, i: nat)
    requires i < a.Length && Dated(a[..], k)
    requires forall p, q | 0 <= p < q < i :: a[p][k].t <= a[q][k].t
    modifies a
    ensures Dated(a[..], k)
    ensures forall p, q | 0 <= p < q <= i :: a[p][k].t <= a[q][k].t
    ensures multiset(a[..]) == old(multiset(a[..]))
  {
    var j: nat := i;
    while j > 0 && a[j - 1][k].t > a[j][k].t
      invariant Sinking(a[..], k, i, j)
      invariant multiset(a[..]) == old(multiset(a[..]))
    {
      ghost var b := a[..];
      a[j - 1], a[j] := a[j], a[j - 1];
      assert a[..] == b[j - 1 := b[j]][j := b[j - 1]];
      SinkStep(b, k, i, j);
      j := j - 1;
    }
    SinkDone(a[..], k, i, j);
  }

  /** Row j is on its way up through the first i + 1 rows: those rows other
      than row j are sorted, and row j is earlier than every row below it. */
  predicate Sinking(s: seq<Row>, k: nat, i: nat, j: nat)
  {
    && j <= i < |s|
    && Dated(s, k)
    && (forall p, q | 0 <= p < q <= i && p != j && q != j :: s[p][k].t <= s[q][k].t)
    && (forall q | j < q <= i :: s[j][k].t < s[q][k].t)
  }

  /** Swapping row j with a later-dated row above it moves row j up one. */
  lemma SinkStep(s: seq<Row>, k: nat, i: nat, j: nat)
    requires Sinking(s, k, i, j) && 0 < j && s[j - 1][k].t > s[j][k].t
    ensures Sinking(s[j - 1 := s[j]][j := s[j - 1]], k, i, j - 1)
    ensures multiset(s[j - 1 := s[j]][j := s[j - 1]]) == multiset(s)
  {
    var r: seq<Row> := s[j - 1 := s[j]][j := s[j - 1]];
    forall p, q | 0 <= p < q <= i && p != j - 1 && q != j - 1
      ensures r[p][k].t <= r[q][k].t
    {
      if p == j {
        assert r[p] == s[j - 1];
        if q > j {
          assert s[j - 1][k].t > s[j][k].t && s[j][k].t < s[q][k].t;
        }
      } else if q == j {
        assert r[q] == s[j - 1];
      }
    }
  }

  /** Once row j is no earlier than the row above it, the first i + 1 rows
      are sorted. */
  lemma SinkDone(s: seq<Row>, k: nat, i: nat, j: nat)
    requires Sinking(s, k, i, j)
    requires j == 0 || s[j - 1][k].t <= s[j][k].t
    ensures forall p, q | 0 <= p < q <= i :: s[p][k].t <= s[q][k].t
  {
    forall p, q | 0 <= p < q <= i
      ensures s[p][k].t <= s[q][k].t
    {
      if q == j && p < j - 1 {
        assert s[p][k].t <= s[j - 1][k].t;
      }
    }
  }

  // ---------------------------------------------------------------------------
  // Filling the gaps of one numeric column
  // ---------------------------------------------------------------------------

  /** The nearest number strictly above position i of the column, if any
      (LastPresentIsNearest and LastPresentNone below state exactly that). */
  function LastPresent(col: seq<Cell>, i: nat): Option<real>
    requires i <= |col|
  {
    if i == 0 then None
    else if col[i - 1].Number? then Some(col[i - 1].x)
    else LastPresent(col, i - 1)
  }

  /** Cell i after fillna(method='ffill'): a present cell is kept, and a gap
      becomes a number or stays a gap. */
  function ForwardFilled(col: seq<Cell>, i: nat): (f: Cell)
    requires i < |col|
    ensures !col[i].Missing? ==> f == col[i]
    ensures col[i].Missing? ==> f.Missing? || f.Number?
  {
    if col[i].Missing? then
      match LastPresent(col, i)
      case Some(v) => Number(v)
      case None => Missing
    else col[i]
  }

  /** The numbers present in a column, top to bottom, never more than the
      cells (PresentValuesMembers and PresentValuesCount below state which
      numbers and how many). */
  function PresentValues(col: seq<Cell>): (r: seq<real>)
    ensures |r| <= |col|
  {
    if col == [] then []
    else
      var last := col[|col| - 1];
      PresentValues(col[..|col| - 1]) + if last.Number? then [last.x] else []
  }

  /** The present numbers are exactly the values of the number cells. */
  lemma {:induction false} PresentValuesMembers(col: seq<Cell>)
    ensures forall x :: x in PresentValues(col) <==> Number(x) in col
  {
    if col != [] {
      var init := col[..|col| - 1];
      PresentValuesMembers(init);
      assert col == init + [col[|col| - 1]];
    }
  }

  /** Positions of the cells holding a number. */
  function NumberCells(col: seq<Cell>): set<int>
  {
    set i | 0 <= i < |col| && col[i].Number?
  }

  /** There are as many present numbers as cells holding a number. */
  lemma {:induction false} PresentValuesCount(col: seq<Cell>)
    ensures |PresentValues(col)| == |NumberCells(col)|
  {
    if col != [] {
      var n := |col| - 1;
      PresentValuesCount(col[..n]);
      NumberCellsStep(col);
    }
  }

  /** The last cell adds its position when it holds a number. */
  lemma NumberCellsStep(col: seq<Cell>)
    requires col != []
    ensures var n := |col| - 1;
      |NumberCells(col)| == |NumberCells(col[..n])| + if col[n].Number? then 1 else 0
  {
    var n := |col| - 1;
    var init := col[..n];
    var before := NumberCells(init);
    assert n !in before;
    if col[n].Number? {
      assert NumberCells(col) == before + {n} by {
        forall i ensures i in NumberCells(col) <==> i in before + {n} {
          if 0 <= i < n { assert col[i] == init[i]; }
        }
      }
    } else {
      assert NumberCells(col) == before by {
        forall i ensures i in NumberCells(col) <==> i in before {
          if 0 <= i < n { assert col[i] == init[i]; }
        }
      }
    }
  }

  /** df[c].mean(): the mean of the numbers present in the column, undefined
      (NaN) when it has none. */
  function ColumnMean(col: seq<Cell>): (m: Option<real>)
    ensures m.Some? <==> |PresentValues(col)| > 0
    ensures m.Some? ==>
      Stats.Min(PresentValues(col)) <= m.value <= Stats.Max(PresentValues(col))
  {
    var xs := PresentValues(col);
    if |xs| == 0 then None
    else
      Stats.MeanBetween(xs);
      Some(Stats.Mean(xs))
  }

  /** Cell i after .fillna(method='ffill').fillna(mean), where mean is the mean
      of the column taken before the forward fill: a present cell is kept,
      and a gap is filled whenever the column has a mean. */
  function FilledCell(col: seq<Cell>, i: nat, mean: Option<real>): (f: Cell)
    requires i < |col|
    ensures !col[i].Missing? ==> f == col[i]
    ensures f.Missing? ==> col[i].Missing? && mean.None?
    ensures col[i].Missing? && mean.Some? ==> f.Number?
  {
    var f := ForwardFilled(col, i);
    if f.Missing? && mean.Some? then Number(mean.value) else f
  }

  /** The column after forward fill then mean fill. Cells that are not
      missing are never changed. */
  function FilledColumn(col: seq<Cell>): (r: seq<Cell>)
    ensures |r| == |col|
    ensures forall i | 0 <= i < |col| && !col[i].Missing? :: r[i] == col[i]
  {
    seq(|col|, i requires 0 <= i < |col| => FilledCell(col, i, ColumnMean(col)))
  }

  /** The frame with column c forward filled then mean filled: column c
      becomes its filled self and every other cell stays where it was. */
  function FillColumn(rows: seq<Row>, c: nat): (r: seq<Row>)
    requires forall i | 0 <= i < |rows| :: c < |rows[i]|
    ensures |r| == |rows|
    ensures forall i | 0 <= i < |rows| :: |r[i]| == |rows[i]| && r[i][c] == FilledColumn(Column(rows, c))[i]
    ensures forall i, d | 0 <= i < |rows| && 0 <= d < |rows[i]| && d != c :: r[i][d] == rows[i][d]
  {
    SetColumn(rows, c, FilledColumn(Column(rows, c)))
  }

  /** Line 40 of preprocess, done in place on the rows of the copied frame:
      the mean of the column as it stands, then a forward scan carrying the
      last number seen, then the mean put into the gaps the scan left. */
  method FillColumnInPlace(a: array<Row>, c: nat)
    requires forall i | 0 <= i < a.Length :: c < |a[i]|
    modifies a
    ensures a[..] == FillColumn(old(a[..]), c)
  {
    ghost var rows := a[..];
    ghost var col := Column(rows, c);
    var sum, count := SumAndCount(a, c);
    var mean := if count == 0 then None else Some(sum / count as real);
    assert mean == ColumnMean(col);
    ForwardFillInPlace(a, c);
    MeanFillInPlace(a, c, mean);
    forall j | 0 <= j < a.Length
      ensures a[j] == rows[j][c := FilledColumn(col)[j]]
    {
      assert a[j] == rows[j][c := ForwardFilled(col, j)][c := FilledCell(col, j, mean)];
    }
  }

  /** The running sum and count of the numbers in column c: the inputs of
      df[c].mean(). */
  method SumAndCount(a: array<Row>, c: nat) returns (sum: real, count: nat)
    requires forall i | 0 <= i < a.Length :: c < |a[i]|
    ensures sum == Stats.Sum(PresentValues(Column(a[..], c)))
    ensures count == |PresentValues(Column(a[..], c))|
  {
    ghost var col := Column(a[..], c);
    sum, count := 0.0, 0;
    var i := 0;
    while i < a.Length
      invariant 0 <= i <= a.Length
      invariant sum == Stats.Sum(PresentValues(col[..i]))
      invariant count == |PresentValues(col[..i])|
    {
      PresentValuesStep(col, i);
      assert a[i][c] == col[i];
      ghost var p := PresentValues(col[..i]);
      if a[i][c].Number? {
        SumAppend(p, col[i].x);
        sum, count := sum + a[i][c].x, count + 1;
      } else {
        assert p + [] == p;
      }
      i := i + 1;
    }
    assert col[..a.Length] == col;
  }

  /** fillna(method='ffill') on column c, in place: a scan from the top
      carrying the last number seen into the gaps below it. */
  method ForwardFillInPlace(a: array<Row>, c: nat)
    requires forall i | 0 <= i < a.Length :: c < |a[i]|
    modifies a
    ensures forall j | 0 <= j < a.Length ::
      a[j] == old(a[..])[j][c := ForwardFilled(Column(old(a[..]), c), j)]
  {
    ghost var rows := a[..];
    ghost var col := Column(rows, c);
    ghost var target := seq(a.Length, j requires 0 <= j < a.Length => rows[j][c := ForwardFilled(col, j)]);
    var last: Option<real> := None;
    var i := 0;
    while i < a.Length
      invariant 0 <= i <= a.Length
      invariant last == LastPresent(col, i)
      invariant forall j | 0 <= j < i :: a[j] == target[j]
      invariant forall j | i <= j < a.Length :: a[j] == rows[j]
    {
      var cell := a[i][c];
      assert cell == col[i];
      if cell.Number? {
        last := Some(cell.x);
        assert a[i] == rows[i][c := cell];
      } else if cell.Missing? && last.Some? {
        a[i] := a[i][c := Number(last.value)];
      } else {
        assert a[i] == rows[i][c := cell];
      }
      assert a[i] == target[i];
      i := i + 1;
    }
  }

  /** fillna(mean) on column c, in place: every gap left gets the mean, when
      the column has one. */
  method MeanFillInPlace(a: array<Row>, c: nat, mean: Option<real>)
    requires forall i | 0 <= i < a.Length :: c < |a[i]|
    modifies a
    ensures forall j | 0 <= j < a.Length ::
      a[j] == old(a[j])[c := if old(a[j])[c].Missing? && mean.Some? then Number(mean.value) else old(a[j])[c]]
  {
    var i := 0;
    while i < a.Length
      invariant 0 <= i <= a.Length
      invariant forall j | 0 <= j < i ::
        a[j] == old(a[j])[c := if old(a[j])[c].Missing? && mean.Some? then Number(mean.value) else old(a[j])[c]]
      invariant forall j | i <= j < a.Length :: a[j] == old(a[j])
    {
      if a[i][c].Missing? && mean.Some? {
        a[i] := a[i][c := Number(mean.value)];
      } else {
        assert a[i] == a[i][c := a[i][c]];
      }
      i := i + 1;
    }
  }

  /** One more cell of the prefix adds its number, if it holds one. */
  lemma PresentValuesStep(col: seq<Cell>, i: nat)
    requires i < |col|
    ensures PresentValues(col[..i + 1])
         == PresentValues(col[..i]) + if col[i].Number? then [col[i].x] else []
  {
    assert col[..i + 1][..i] == col[..i];
  }

  lemma SumAppend(xs: seq<real>, x: real)
    ensures Stats.Sum(xs + [x]) == Stats.Sum(xs) + x
  {
    assert (xs + [x])[..|xs|] == xs;
  }

  // ---------------------------------------------------------------------------
  // What the fill guarantees
  // ---------------------------------------------------------------------------

  /** LastPresent finds the nearest number above position i. */
  lemma {:induction false} LastPresentIsNearest(col: seq<Cell>, i: nat, j: nat)
    requires j < i <= |col|
    requires col[j].Number?
    requires forall m | j < m < i :: !col[m].Number?
    ensures LastPresent(col, i) == Some(col[j].x)
  {
    if i - 1 != j {
      LastPresentIsNearest(col, i - 1, j);
    }
  }

  /** With no number above position i, LastPresent has nothing to carry. */
  lemma {:induction false} LastPresentNone(col: seq<Cell>, i: nat)
    requires i <= |col|
    requires forall m | 0 <= m < i :: !col[m].Number?
    ensures LastPresent(col, i) == None
  {
    if i > 0 {
      LastPresentNone(col, i - 1);
    }
  }

  /** A missing cell takes the nearest number above it. */
  lemma FilledFromNearestEarlier(col: seq<Cell>, i: nat, j: nat)
    requires j < i < |col|
    requires col[i].Missing? && col[j].Number?
    requires forall m | j < m < i :: !col[m].Number?
    ensures FilledColumn(col)[i] == col[j]
  {
    LastPresentIsNearest(col, i, j);
  }

  /** A missing cell with no number above it takes the mean of the numbers
      present before the fill, and stays missing when the column has none. */
  lemma LeadingGapTakesMean(col: seq<Cell>, i: nat)
    requires i < |col| && col[i].Missing?
    requires forall m | 0 <= m < i :: !col[m].Number?
    ensures ColumnMean(col).Some? ==> FilledColumn(col)[i] == Number(ColumnMean(col).value)
    ensures ColumnMean(col).None? ==> FilledColumn(col)[i] == Missing
  {
    LastPresentNone(col, i);
  }

  /** A number at position j makes the list of present numbers non-empty. */
  lemma {:induction false} PresentValuesNonEmpty(col: seq<Cell>, j: nat)
    requires j < |col| && col[j].Number?
    ensures |PresentValues(col)| > 0
  {
    var n := |col| - 1;
    if j < n {
      assert col[..n][j] == col[j];
      PresentValuesNonEmpty(col[..n], j);
    }
  }

  /** A column with at least one number has no gap once filled. */
  lemma NoGapsWhenSomePresent(col: seq<Cell>, j: nat)
    requires j < |col| && col[j].Number?
    requires forall i | 0 <= i < |col| :: Fits(Numeric, col[i])
    ensures forall i | 0 <= i < |col| :: FilledColumn(col)[i].Number?
  {
    PresentValuesNonEmpty(col, j);
    forall i | 0 <= i < |col| ensures FilledColumn(col)[i].Number? {
      if col[i].Missing? && LastPresent(col, i).None? {
        assert FilledColumn(col)[i] == Number(ColumnMean(col).value);
      }
    }
  }

  /** Filling keeps a numeric column numeric. */
  lemma FilledStaysNumeric(col: seq<Cell>)
    requires forall i | 0 <= i < |col| :: Fits(Numeric, col[i])
    ensures forall i | 0 <= i < |col| :: Fits(Numeric, FilledColumn(col)[i])
  {
  }

  /** A column without gaps is left as it is (the isna().any() guard). */
  lemma FilledWithoutGaps(col: seq<Cell>)
    requires Missing !in col
    ensures FilledColumn(col) == col
  {
  }

  /** The fill mean is taken before the forward fill: in
      [NaN, 1, NaN, 4] the mean is 2.5 (of 1 and 4), not 2 (of 1, 1 and 4). */
  lemma MeanIsTakenBeforeForwardFill()
    ensures FilledColumn([Missing, Number(1.0), Missing, Number(4.0)])
         == [Number(2.5), Number(1.0), Number(1.0), Number(4.0)]
  {
    var col := [Missing, Number(1.0), Missing, Number(4.0)];
    ExampleMean();
    assert ForwardFilled(col, 0) == Missing;
    assert ForwardFilled(col, 2) == Number(1.0) by {
      LastPresentIsNearest(col, 2, 1);
    }
    var r := FilledColumn(col);
    assert r[0] == Number(2.5);
    assert r[2] == Number(1.0);
    assert r == [Number(2.5), Number(1.0), Number(1.0), Number(4.0)];
  }

  lemma ExampleMean()
    ensures ColumnMean([Missing, Number(1.0), Missing, Number(4.0)]) == Some(2.5)
  {
    var col := [Missing, Number(1.0), Missing, Number(4.0)];
    assert PresentValues(col) == [1.0, 4.0] by {
      PresentValuesStep(col, 0);
      PresentValuesStep(col, 1);
      PresentValuesStep(col, 2);
      PresentValuesStep(col, 3);
      assert col[..0] == [] && col[..4] == col;
    }
    assert Stats.Sum([1.0, 4.0]) == 5.0 by {
      SumAppend([], 1.0);
      SumAppend([1.0], 4.0);
    }
  }

  // ---------------------------------------------------------------------------
  // The loop over the numeric columns
  // ---------------------------------------------------------------------------

  /** The frame after the first c iterations of the loop over the columns:
      every numeric column among them that has a gap is filled. */
  function FillNumeric(rows: seq<Row>, kinds: seq<Kind>, c: nat): (r: seq<Row>)
    requires c <= |kinds| && Shaped(rows, |kinds|)
    ensures |r| == |rows| && Shaped(r, |kinds|)
  {
    if c == 0 then rows else FillStep(FillNumeric(rows, kinds, c - 1), kinds, c - 1)
  }

  /** Iteration c of the loop over the columns: column c is filled when it is
      numeric and has a gap. */
  function FillStep(rows: seq<Row>, kinds: seq<Kind>, c: nat): (r: seq<Row>)
    requires c < |kinds| && Shaped(rows, |kinds|)
    ensures |r| == |rows| && Shaped(r, |kinds|)
  {
    if kinds[c] == Numeric && Missing in Column(rows, c) then FillColumn(rows, c) else rows
  }

  /** After the loop, each numeric column among the first c is the filled
      original column and every other column is untouched. */
  lemma {:induction false} FillNumericColumn(rows: seq<Row>, kinds: seq<Kind>, c: nat, d: nat)
    requires c <= |kinds| && Shaped(rows, |kinds|) && d < |kinds|
    ensures Column(FillNumeric(rows, kinds, c), d)
         == if d < c && kinds[d] == Numeric then FilledColumn(Column(rows, d)) else Column(rows, d)
  {
    if c > 0 {
      FillNumericColumn(rows, kinds, c - 1, d);
      FillStepColumn(FillNumeric(rows, kinds, c - 1), kinds, c - 1, d);
    }
  }

  /** One iteration changes column c only, and only when it is numeric: the
      column is then its filled self (unchanged when it has no gap). */
  lemma FillStepColumn(rows: seq<Row>, kinds: seq<Kind>, c: nat, d: nat)
    requires c < |kinds| && Shaped(rows, |kinds|) && d < |kinds|
    ensures Column(FillStep(rows, kinds, c), d)
         == if d == c && kinds[d] == Numeric then FilledColumn(Column(rows, d)) else Column(rows, d)
  {
    if kinds[c] == Numeric && Missing in Column(rows, c) {
      ColumnsAfterSet(rows, c, FilledColumn(Column(rows, c)), d);
    } else if d == c && kinds[d] == Numeric {
      FilledWithoutGaps(Column(rows, d));
    }
  }

  // ---------------------------------------------------------------------------
  // preprocess
  // ---------------------------------------------------------------------------

  /** A permutation of the kept rows has rows of the frame's width whose cells
      fit the dtypes, with the date column now a datetime column. */
  lemma SortedRowsFit(t: Table, k: nat, parse: Cell -> Option<int>, sorted: seq<Row>)
    requires WellFormed(t) && k < |t.names|
    requires multiset(sorted) == multiset(Kept(t.rows, k, parse))
    ensures Shaped(sorted, |t.names|)
    ensures forall i, c | 0 <= i < |sorted| && 0 <= c < |t.names| ::
      Fits(t.kinds[k := DateTime][c], sorted[i][c])
  {
    var kept := Kept(t.rows, k, parse);
    var idx := KeptIndices(t.rows, k, parse);
    forall i | 0 <= i < |sorted|
      ensures |sorted[i]| == |t.names|
      ensures forall c | 0 <= c < |t.names| :: Fits(t.kinds[k := DateTime][c], sorted[i][c])
    {
      assert sorted[i] in multiset(kept);
      var j :| 0 <= j < |kept| && kept[j] == sorted[i];
      assert idx[j] in idx;
    }
  }

  /** Filling the numeric columns keeps every cell of column d fitting its
      dtype. */
  lemma FilledColumnFits(sorted: seq<Row>, kinds: seq<Kind>, d: nat)
    requires Shaped(sorted, |kinds|) && d < |kinds|
    requires forall i | 0 <= i < |sorted| :: Fits(kinds[d], sorted[i][d])
    ensures forall i | 0 <= i < |sorted| :: Fits(kinds[d], FillNumeric(sorted, kinds, |kinds|)[i][d])
  {
    var rows := FillNumeric(sorted, kinds, |kinds|);
    var col := Column(sorted, d);
    FillNumericColumn(sorted, kinds, |kinds|, d);
    assert Column(rows, d) == if kinds[d] == Numeric then FilledColumn(col) else col;
    ColumnStillFits(col, kinds[d]);
    ColumnFitsRows(rows, d, kinds[d]);
  }

  /** A column whose cells fit its dtype still fits it once filled, when the
      column is numeric, or left alone otherwise. */
  lemma ColumnStillFits(col: seq<Cell>, k: Kind)
    requires forall i | 0 <= i < |col| :: Fits(k, col[i])
    ensures var r := if k == Numeric then FilledColumn(col) else col;
      forall i | 0 <= i < |r| :: Fits(k, r[i])
  {
    if k == Numeric {
      FilledStaysNumeric(col);
    }
  }

  /** What holds of every cell of column d holds of cell d of every row. */
  lemma ColumnFitsRows(rows: seq<Row>, d: nat, k: Kind)
    requires forall i | 0 <= i < |rows| :: d < |rows[i]|
    requires forall i | 0 <= i < |rows| :: Fits(k, Column(rows, d)[i])
    ensures forall i | 0 <= i < |rows| :: Fits(k, rows[i][d])
  {
    var col := Column(rows, d);
    forall i | 0 <= i < |rows|
      ensures Fits(k, rows[i][d])
    {
      assert col[i] == rows[i][d];
    }
  }

  /** Filling the numeric columns of the sorted rows keeps the frame well
      formed and keeps it sorted, since the date column is not numeric. */
  lemma FilledFrameFits(names: seq<string>, kinds: seq<Kind>, k: nat, sorted: seq<Row>)
    requires |kinds| == |names| && Distinct(names) && k < |kinds| && kinds[k] == DateTime
    requires Shaped(sorted, |kinds|) && SortedByDate(sorted, k)
    requires forall i, c | 0 <= i < |sorted| && 0 <= c < |kinds| :: Fits(kinds[c], sorted[i][c])
    ensures WellFormed(Table(names, kinds, FillNumeric(sorted, kinds, |kinds|)))
    ensures SortedByDate(FillNumeric(sorted, kinds, |kinds|), k)
  {
    var rows := FillNumeric(sorted, kinds, |kinds|);
    forall d | 0 <= d < |kinds|
      ensures forall i | 0 <= i < |rows| :: Fits(kinds[d], rows[i][d])
    {
      FilledColumnFits(sorted, kinds, d);
    }
    FillNumericColumn(sorted, kinds, |kinds|, k);
  }

  /** Lines 37-40 of preprocess: for each numeric column in column order, if
      it has a gap (isna().any()), fill it in place. */
  method FillNumericInPlace(a: array<Row>, kinds: seq<Kind>)
    requires Shaped(a[..], |kinds|)
    modifies a
    ensures a[..] == FillNumeric(old(a[..]), kinds, |kinds|)
  {
    ghost var rows := a[..];
    var c := 0;
    while c < |kinds|
      invariant 0 <= c <= |kinds|
      invariant a[..] == FillNumeric(rows, kinds, c)
    {
      FillIfGap(a, kinds, c);
      c := c + 1;
    }
  }

  /** One iteration of the loop over the columns: column c is filled in
      place when it is numeric and has a gap, and the rows are left as they
      are otherwise. */
  method FillIfGap(a: array<Row>, kinds: seq<Kind>, c: nat)
    requires c < |kinds| && Shaped(a[..], |kinds|)
    modifies a
    ensures a[..] == FillStep(old(a[..]), kinds, c)
  {
    ghost var prev := a[..];
    assert forall i | 0 <= i < a.Length :: c < |a[i]| by {
      assert forall i | 0 <= i < a.Length :: a[i] == prev[i];
    }
    if kinds[c] == Numeric && Missing in Column(a[..], c) {
      FillColumnInPlace(a, c);
    }
  }

  /** preprocess(df, date_col): KeyError when the frame has no date column;
      otherwise the rows whose date parses, sorted by date (sorted is that
      sorted permutation, before any fill), with every numeric column filled.
      The date column becomes a datetime column and the others keep their
      dtype. */
  method Preprocess(t: Table, dateCol: string, parse: Cell -> Option<int>)
    returns (r: Result<Table, Error>, ghost sorted: seq<Row>)
    requires WellFormed(t)
    ensures r.Failure? <==> dateCol !in t.names
    ensures r.Failure? ==> r.error == MissingColumn(dateCol)
    ensures r.Success? ==>
      var k := IndexOf(t.names, dateCol).value;
      && WellFormed(r.value)
      && r.value.names == t.names
      && r.value.kinds == t.kinds[k := DateTime]
      && multiset(sorted) == multiset(Kept(t.rows, k, parse))
      && SortedByDate(sorted, k)
      && Shaped(sorted, |t.names|)
      && r.value.rows == FillNumeric(sorted, r.value.kinds, |t.names|)
      && SortedByDate(r.value.rows, k)
  {
    var found := IndexOf(t.names, dateCol);
    if found.None? {
      return Failure(MissingColumn(dateCol)), [];
    }
    var k := found.value;
    var kept := Kept(t.rows, k, parse);
    var a := new Row[|kept|](i requires 0 <= i < |kept| => kept[i]);
    assert a[..] == kept;
    SortByDate(a, k);
    sorted := a[..];
    var kinds := t.kinds[k := DateTime];
    SortedRowsFit(t, k, parse, sorted);

    FillNumericInPlace(a, kinds);
    FilledFrameFits(t.names, kinds, k, sorted);
    r := Success(Table(t.names, kinds, a[..]));
  }
}

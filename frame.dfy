/**
 * The data frame of the weather pipeline: named columns, each with the dtype
 * pandas gave it when the file was read, and rows of cells. A table is a
 * value, so every operation of the pipeline works on its own copy, as
 * preprocess and grouping_aggregation do with df.copy().
 */
module Frame {
  import opened Wrappers

  /** One cell: missing (NaN/NaT), a number, a text, or a parsed timestamp
      (nanoseconds since 1970-01-01). */
  datatype Cell = Missing | Number(x: real) | Text(s: string) | When(t: int)

  /** The dtype of a column: numeric (select_dtypes(include=[np.number])),
      datetime64, or anything else (object). */
  datatype Kind = Numeric | DateTime | Other

  type Row = seq<Cell>

  datatype Table = Table(names: seq<string>, kinds: seq<Kind>, rows: seq<Row>)

  /** Why a pipeline stage raises instead of returning a frame. */
  datatype Error =
    | MissingColumn(name: string)   // KeyError: no column of that name
    | NotDatetime(name: string)     // TypeError: resampling needs a datetime index
    | UnreadableDate(name: string)  // ValueError: to_datetime cannot read a date

  predicate Distinct<T(==)>(s: seq<T>)
  {
    forall i, j | 0 <= i < j < |s| :: s[i] != s[j]
  }

  /** Every row has exactly n cells. */
  predicate Shaped(rows: seq<Row>, n: nat)
  {
    forall i | 0 <= i < |rows| :: |rows[i]| == n
  }

  /** A cell that a column of the given dtype can hold. */
  predicate Fits(k: Kind, c: Cell)
  {
    match k
    case Numeric => c.Missing? || c.Number?
    case DateTime => c.When?
    case Other => true
  }

  /** A frame as read_csv produces it: distinct column names (read_csv renames
      duplicates), one dtype and one cell per column in every row, and every
      cell fitting its column's dtype. */
  predicate WellFormed(t: Table)
  {
    && |t.kinds| == |t.names|
    && Distinct(t.names)
    && Shaped(t.rows, |t.names|)
    && forall i, c | 0 <= i < |t.rows| && 0 <= c < |t.names| :: Fits(t.kinds[c], t.rows[i][c])
  }

  /** Position of a column name, or None when the frame has no such column. */
  function IndexOf(names: seq<string>, x: string): (r: Option<nat>)
    ensures r.None? <==> x !in names
    ensures r.Some? ==> r.value < |names| && names[r.value] == x
    ensures r.Some? ==> forall j | 0 <= j < r.value :: names[j] != x
  {
    if names == [] then None
    else if names[0] == x then Some(0)
    else match IndexOf(names[1..], x)
      case None => None
      case Some(i) => Some(i + 1)
  }

  /** Positions of the numeric columns, in column order (num_cols). */
  function NumericColumns(kinds: seq<Kind>): (r: seq<nat>)
    ensures forall c: nat :: c in r <==> c < |kinds| && kinds[c] == Numeric
    ensures forall i, j | 0 <= i < j < |r| :: r[i] < r[j]
  {
    if kinds == [] then []
    else
      var init := NumericColumns(kinds[..|kinds| - 1]);
      assert forall i | 0 <= i < |init| :: init[i] in init && init[i] < |kinds| - 1;
      if kinds[|kinds| - 1] == Numeric then init + [|kinds| - 1] else init
  }

  /** Positions at which s holds v, in order. */
  function Positions<T(==)>(s: seq<T>, v: T): (r: seq<nat>)
    ensures forall i: nat :: i in r <==> i < |s| && s[i] == v
    ensures forall p, q | 0 <= p < q < |r| :: r[p] < r[q]
  {
    if s == [] then []
    else
      var n := |s| - 1;
      var init := Positions(s[..n], v);
      assert forall p | 0 <= p < |init| :: init[p] < n by {
        forall p | 0 <= p < |init| ensures init[p] < n {
          assert init[p] in init;
        }
      }
      if s[n] == v then init + [n] else init
  }

  /** A value that occurs nowhere has no positions. */
  lemma {:induction false} PositionsNone<T>(s: seq<T>, v: T)
    requires forall k | 0 <= k < |s| :: s[k] != v
    ensures Positions(s, v) == []
  {
    if s != [] {
      PositionsNone(s[..|s| - 1], v);
    }
  }

  /** A value that occurs once has exactly that position. */
  lemma {:induction false} PositionsSingle<T>(s: seq<T>, v: T, i: nat)
    requires i < |s| && s[i] == v
    requires forall k | 0 <= k < |s| && k != i :: s[k] != v
    ensures Positions(s, v) == [i]
  {
    var n := |s| - 1;
    if i == n {
      PositionsNone(s[..n], v);
    } else {
      PositionsSingle(s[..n], v, i);
    }
  }

  /** Column c read top to bottom (df[c]). */
  function Column(rows: seq<Row>, c: nat): (col: seq<Cell>)
    requires forall i | 0 <= i < |rows| :: c < |rows[i]|
    ensures |col| == |rows|
    ensures forall i | 0 <= i < |rows| :: col[i] == rows[i][c]
  {
    seq(|rows|, i requires 0 <= i < |rows| => rows[i][c])
  }

  /** The rows with column c replaced by col (df[c] = col). */
  function SetColumn(rows: seq<Row>, c: nat, col: seq<Cell>): (r: seq<Row>)
    requires forall i | 0 <= i < |rows| :: c < |rows[i]|
    requires |col| == |rows|
    ensures |r| == |rows|
    ensures forall i | 0 <= i < |rows| :: r[i] == rows[i][c := col[i]]
  {
    seq(|rows|, i requires 0 <= i < |rows| => rows[i][c := col[i]])
  }

  /** The cells of column c of the rows at positions idx (df.loc[idx, c]). */
  function Cells(rows: seq<Row>, c: nat, idx: seq<nat>): (r: seq<Cell>)
    requires forall p | 0 <= p < |idx| :: idx[p] < |rows| && c < |rows[idx[p]]|
    ensures |r| == |idx|
    ensures forall p | 0 <= p < |idx| :: r[p] == rows[idx[p]][c]
  {
    seq(|idx|, p requires 0 <= p < |idx| => rows[idx[p]][c])
  }

  /** Replacing column c changes column c into col and no other column. */
  lemma ColumnsAfterSet(rows: seq<Row>, c: nat, col: seq<Cell>, d: nat)
    requires forall i | 0 <= i < |rows| :: c < |rows[i]| && d < |rows[i]|
    requires |col| == |rows|
    ensures Column(SetColumn(rows, c, col), d) == if d == c then col else Column(rows, d)
  {
  }
}

/**
 * The grade statistics of gradebook.py over a table of marks: the average,
 * the median, the first student with the highest and with the lowest mark,
 * a letter grade per student, how many students got each letter, and the
 * students who passed (40 or more) and failed.
 *
 * The table is a dictionary from student name to mark in the program; here it
 * is the sequence of its (name, mark) entries in insertion order, with
 * distinct names, since that order decides ties in max() and min() and the
 * order of the passed and failed lists. Where the program raises on an empty
 * table (division by zero, index or max() of an empty sequence), the model
 * returns None.
 */
module Gradebook {
  import opened Wrappers
  import Stats

  type Marks = seq<(string, real)>

  /** Every student appears once, as in a dictionary. */
  predicate DistinctNames(m: Marks)
  {
    forall i, j | 0 <= i < j < |m| :: m[i].0 != m[j].0
  }

  /** The names, in table order. */
  function Names<V>(m: seq<(string, V)>): (ns: seq<string>)
    ensures |ns| == |m|
    ensures forall i | 0 <= i < |m| :: ns[i] == m[i].0
  {
    seq(|m|, i requires 0 <= i < |m| => m[i].0)
  }

  /** The marks, in table order (marks_dict.values()). */
  function Scores(m: Marks): (xs: seq<real>)
    ensures |xs| == |m|
    ensures forall i | 0 <= i < |m| :: xs[i] == m[i].1
  {
    seq(|m|, i requires 0 <= i < |m| => m[i].1)
  }

  // ---------------------------------------------------------------------------
  // Average and median
  // ---------------------------------------------------------------------------

  /** calculate_average: the sum of the marks over the number of students,
      which lies between the lowest and the highest mark; undefined for an
      empty table. */
  function Average(m: Marks): (r: Option<real>)
    ensures r.None? <==> |m| == 0
    ensures r.Some? ==> Stats.Min(Scores(m)) <= r.value <= Stats.Max(Scores(m))
  {
    if |m| == 0 then None
    else
      Stats.MeanBetween(Scores(m));
      Some(Stats.Mean(Scores(m)))
  }

  /** calculate_median: the middle of the sorted marks, or the mean of the two
      middle ones for an even count; undefined for an empty table. */
  function Median(m: Marks): (r: Option<real>)
    ensures r.None? <==> |m| == 0
    ensures r.Some? ==> Stats.Min(Scores(m)) <= r.value <= Stats.Max(Scores(m))
    ensures r.Some? && |m| % 2 == 1 ==> r.value in Scores(m)
  {
    if |m| == 0 then None else Some(Stats.Median(Scores(m)))
  }

  /** The median does not depend on the order in which students were entered. */
  lemma MedianIgnoresOrder(m: Marks, n: Marks)
    requires multiset(Scores(m)) == multiset(Scores(n))
    ensures Median(m) == Median(n)
  {
    var xs, ys := Scores(m), Scores(n);
    assert |m| == |n| by {
      assert |xs| == |multiset(xs)| == |multiset(ys)| == |ys|;
    }
    if |m| > 0 {
      Stats.MedianOfPermutation(xs, ys);
    }
  }

  // ---------------------------------------------------------------------------
  // Highest and lowest mark
  // ---------------------------------------------------------------------------

  /** Where max(marks, key=marks.get) stops: a highest mark, and the first
      one in table order, since max() only moves on a strictly greater mark. */
  function FirstMaxIndex(m: Marks): (i: nat)
    requires |m| > 0
    ensures i < |m|
    ensures forall j | 0 <= j < |m| :: m[j].1 <= m[i].1
    ensures forall j | 0 <= j < i :: m[j].1 < m[i].1
  {
    if |m| == 1 then 0
    else
      var i := FirstMaxIndex(m[..|m| - 1]);
      if m[i].1 < m[|m| - 1].1 then |m| - 1 else i
  }

  /** Where min(marks, key=marks.get) stops: a lowest mark, the first one in
      table order. */
  function FirstMinIndex(m: Marks): (i: nat)
    requires |m| > 0
    ensures i < |m|
    ensures forall j | 0 <= j < |m| :: m[i].1 <= m[j].1
    ensures forall j | 0 <= j < i :: m[i].1 < m[j].1
  {
    if |m| == 1 then 0
    else
      var i := FirstMinIndex(m[..|m| - 1]);
      if m[|m| - 1].1 < m[i].1 then |m| - 1 else i
  }

  /** find_max_score: the first student in table order with the highest
      mark, and that mark; max() of an empty table raises. */
  function FindMaxScore(m: Marks): (r: Option<(string, real)>)
    ensures r.None? <==> |m| == 0
    ensures r.Some? ==> exists i | 0 <= i < |m| ::
      (m[i] == r.value &&
       (forall j | 0 <= j < |m| :: m[j].1 <= m[i].1) &&
       (forall j | 0 <= j < i :: m[j].1 < m[i].1))
  {
    if |m| == 0 then None else Some(m[FirstMaxIndex(m)])
  }

  /** find_min_score: the first student in table order with the lowest mark,
      and that mark; min() of an empty table raises. */
  function FindMinScore(m: Marks): (r: Option<(string, real)>)
    ensures r.None? <==> |m| == 0
    ensures r.Some? ==> exists i | 0 <= i < |m| ::
      (m[i] == r.value &&
       (forall j | 0 <= j < |m| :: m[i].1 <= m[j].1) &&
       (forall j | 0 <= j < i :: m[i].1 < m[j].1))
  {
    if |m| == 0 then None else Some(m[FirstMinIndex(m)])
  }

  /** The highest and lowest marks found are the maximum and minimum of the
      marks, and the average and median lie between them. */
  lemma ExtremesBoundStatistics(m: Marks)
    requires |m| > 0
    ensures FindMaxScore(m).value.1 == Stats.Max(Scores(m))
    ensures FindMinScore(m).value.1 == Stats.Min(Scores(m))
    ensures FindMinScore(m).value.1 <= Average(m).value <= FindMaxScore(m).value.1
    ensures FindMinScore(m).value.1 <= Median(m).value <= FindMaxScore(m).value.1
  {
    var xs := Scores(m);
    var hi, lo := FirstMaxIndex(m), FirstMinIndex(m);
    assert xs[hi] in xs && xs[lo] in xs;
    var mx, mn := Stats.Max(xs), Stats.Min(xs);
    var p :| 0 <= p < |xs| && xs[p] == mx;
    var q :| 0 <= q < |xs| && xs[q] == mn;
  }

  // ---------------------------------------------------------------------------
  // Letter grades
  // ---------------------------------------------------------------------------

  datatype Grade = A | B | C | D | F

  /** The letter for a mark: A from 90, B from 80, C from 70, D from 60, F
      below. */
  function GradeOf(mark: real): (g: Grade)
    ensures g == A <==> mark >= 90.0
    ensures g == B <==> 80.0 <= mark < 90.0
    ensures g == C <==> 70.0 <= mark < 80.0
    ensures g == D <==> 60.0 <= mark < 70.0
    ensures g == F <==> mark < 60.0
  {
    if mark >= 90.0 then A
    else if mark >= 80.0 then B
    else if mark >= 70.0 then C
    else if mark >= 60.0 then D
    else F
  }

  /** The letters from worst (F, 0) to best (A, 4). */
  function Rank(g: Grade): nat
  {
    match g
    case F => 0
    case D => 1
    case C => 2
    case B => 3
    case A => 4
  }

  /** A higher mark never gets a worse letter. */
  lemma GradeMonotone(x: real, y: real)
    requires x <= y
    ensures Rank(GradeOf(x)) <= Rank(GradeOf(y))
  {
  }

  /** assign_grades: each student of the table, in table order, with the
      letter for their mark. */
  method AssignGrades(m: Marks) returns (grades: seq<(string, Grade)>)
    ensures |grades| == |m|
    ensures forall i | 0 <= i < |m| :: grades[i] == (m[i].0, GradeOf(m[i].1))
  {
    grades := [];
    var i := 0;
    while i < |m|
      invariant 0 <= i <= |m|
      invariant |grades| == i
      invariant forall p | 0 <= p < i :: grades[p] == (m[p].0, GradeOf(m[p].1))
    {
      var (name, mark) := m[i];
      var g: Grade;
      if mark >= 90.0 {
        g := A;
      } else if mark >= 80.0 {
        g := B;
      } else if mark >= 70.0 {
        g := C;
      } else if mark >= 60.0 {
        g := D;
      } else {
        g := F;
      }
      grades := grades + [(name, g)];
      i := i + 1;
    }
  }

  /** The graded table names exactly the students of the marks table, once
      each, so no student is lost or added by grading. */
  lemma GradesKeepNames(m: Marks, grades: seq<(string, Grade)>)
    requires |grades| == |m|
    requires forall i | 0 <= i < |m| :: grades[i] == (m[i].0, GradeOf(m[i].1))
    ensures Names(grades) == Names(m)
  {
  }

  // ---------------------------------------------------------------------------
  // Grade distribution
  // ---------------------------------------------------------------------------

  /** How many entries of the graded table have letter g. */
  function CountOf(grades: seq<(string, Grade)>, g: Grade): (n: nat)
    ensures n <= |grades|
    ensures n > 0 <==> exists i | 0 <= i < |grades| :: grades[i].1 == g
  {
    if grades == [] then 0
    else
      var init := grades[..|grades| - 1];
      var n := CountOf(init, g);
      assert forall i | 0 <= i < |init| :: init[i] == grades[i];
      n + if grades[|grades| - 1].1 == g then 1 else 0
  }

  /** The count a dictionary gives for g, 0 when g is not a key. */
  function Get(counts: map<Grade, nat>, g: Grade): nat
  {
    if g in counts then counts[g] else 0
  }

  /** count_grades: a key for exactly the letters that occur, each with the
      number of students who got it. */
  method CountGrades(grades: seq<(string, Grade)>) returns (counts: map<Grade, nat>)
    ensures forall g :: g in counts <==> exists i | 0 <= i < |grades| :: grades[i].1 == g
    ensures forall g :: Get(counts, g) == CountOf(grades, g)
  {
    counts := map[];
    var i := 0;
    while i < |grades|
      invariant 0 <= i <= |grades|
      invariant forall g :: g in counts <==> CountOf(grades[..i], g) > 0
      invariant forall g :: Get(counts, g) == CountOf(grades[..i], g)
    {
      var g := grades[i].1;
      assert grades[..i + 1][..i] == grades[..i];
      counts := counts[g := Get(counts, g) + 1];
      i := i + 1;
    }
    assert grades[..i] == grades;
  }

  /** The counts add up to the number of students. */
  lemma {:induction false} CountsAddUp(grades: seq<(string, Grade)>)
    ensures CountOf(grades, A) + CountOf(grades, B) + CountOf(grades, C)
      + CountOf(grades, D) + CountOf(grades, F) == |grades|
  {
    if grades != [] {
      CountsAddUp(grades[..|grades| - 1]);
    }
  }

  // ---------------------------------------------------------------------------
  // Passed and failed
  // ---------------------------------------------------------------------------

  const PassMark: real := 40.0

  /** Positions of the students whose mark passes (pass) or fails (!pass),
      in table order. */
  function Where(m: Marks, pass: bool): (r: seq<nat>)
    ensures forall i: nat :: i in r <==> i < |m| && (m[i].1 >= PassMark) == pass
    ensures forall p | 0 <= p < |r| :: r[p] < |m|
    ensures forall p, q | 0 <= p < q < |r| :: r[p] < r[q]
  {
    if m == [] then []
    else
      var n := |m| - 1;
      var init := Where(m[..n], pass);
      assert forall p | 0 <= p < |init| :: init[p] < n by {
        forall p | 0 <= p < |init| ensures init[p] < n {
          assert init[p] in init;
        }
      }
      if (m[n].1 >= PassMark) == pass then init + [n] else init
  }

  /** The names at the given positions. */
  function NamesAt(m: Marks, idx: seq<nat>): (r: seq<string>)
    requires forall p | 0 <= p < |idx| :: idx[p] < |m|
    ensures |r| == |idx|
    ensures forall p | 0 <= p < |idx| :: r[p] == m[idx[p]].0
  {
    seq(|idx|, p requires 0 <= p < |idx| => m[idx[p]].0)
  }

  /** The passed list: the students with a mark of 40 or more, in table
      order (Where's positions are increasing). */
  function Passed(m: Marks): (r: seq<string>)
    ensures forall x :: x in r <==> exists i | 0 <= i < |m| :: m[i].0 == x && m[i].1 >= PassMark
    ensures |r| == |Where(m, true)|
    ensures forall p | 0 <= p < |r| :: r[p] == m[Where(m, true)[p]].0
  {
    var idx := Where(m, true);
    var r := NamesAt(m, idx);
    assert forall i | 0 <= i < |m| && m[i].1 >= PassMark :: (i as nat) in idx;
    r
  }

  /** The failed list: the students with a mark below 40, in table order. */
  function Failed(m: Marks): (r: seq<string>)
    ensures forall x :: x in r <==> exists i | 0 <= i < |m| :: m[i].0 == x && m[i].1 < PassMark
    ensures |r| == |Where(m, false)|
    ensures forall p | 0 <= p < |r| :: r[p] == m[Where(m, false)[p]].0
  {
    var idx := Where(m, false);
    var r := NamesAt(m, idx);
    assert forall i | 0 <= i < |m| && m[i].1 < PassMark :: (i as nat) in idx;
    r
  }

  /** Passed and failed split the students: every student is in exactly one
      of the two lists, and together they are as long as the table. */
  lemma PassFailPartition(m: Marks)
    requires DistinctNames(m)
    ensures |Passed(m)| + |Failed(m)| == |m|
    ensures forall x :: x in Names(m) <==> x in Passed(m) || x in Failed(m)
    ensures forall x :: !(x in Passed(m) && x in Failed(m))
  {
    WhereSplits(m);
    forall x ensures x in Names(m) <==> x in Passed(m) || x in Failed(m) {
      if x in Names(m) {
        var i :| 0 <= i < |m| && Names(m)[i] == x;
      }
    }
  }

  /** The passing and the failing positions together cover the table once. */
  lemma {:induction false} WhereSplits(m: Marks)
    ensures |Where(m, true)| + |Where(m, false)| == |m|
  {
    if m != [] {
      WhereSplits(m[..|m| - 1]);
    }
  }
}

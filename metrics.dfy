/** The summary and per-cohort aggregates over a loaded table. Each statistic is computed as
    pandas computes it: reductions skip missing cells, a comparison with a missing cell is
    false, and an average of nothing is NaN. */
module Metrics {
  import opened Results
  import opened Sorting
  import opened Strings
  import opened Stats
  import opened Frames

  /** The grade at or above which a student passes. */
  const PassingThreshold: real := 60.0

  /** A float result: a finite number, or not one (NaN for the mean of no values, an infinity
      or NaN for a division by a zero maximum). */
  datatype Stat = Finite(value: real) | NotFinite

  /** Why pandas raises: a column that is not in the table, text where numbers are needed, or a
      column inserted under a name the table already has. */
  datatype MetricError = KeyError(column: string) | TypeError(column: string) | ValueError(column: string)

  /** The dictionary `compute_summary_metrics` returns; the last two keys are optional. */
  datatype Summary = Summary(
    count: real,
    avgGrade: Stat,
    medianGrade: Stat,
    passRate: Stat,
    avgAttendance: Stat,
    avgAbsences: Stat,
    completionRate: Stat,
    atRiskShare: Option<Stat>,
    gradeAttendanceCorr: Option<real>)

  /** One row of the table `cohort_metrics` returns. */
  datatype Cohort = Cohort(
    key: Cell,
    count: nat,
    avgGrade: Stat,
    passRate: real,
    avgAttendance: Stat,
    riskRate: Stat)

  // ---------------------------------------------------------------------------------------
  // Column statistics

  /** `.mean()`: the mean of the present values, NaN when there are none. */
  function MeanOf(xs: seq<real>): (r: Stat)
    ensures r.Finite? <==> |xs| > 0
    ensures r.Finite? ==> Min(xs) <= r.value <= Max(xs)
  {
    if |xs| == 0 then NotFinite
    else
      MeanBetweenMinMax(xs);
      Finite(Mean(xs))
  }

  /** `.median()`: the median of the present values, NaN when there are none. */
  function MedianOf(xs: seq<real>): (r: Stat)
    ensures r.Finite? <==> |xs| > 0
    ensures r.Finite? ==> Min(xs) <= r.value <= Max(xs)
  {
    if |xs| == 0 then NotFinite
    else
      MedianBetweenMinMax(xs);
      Finite(Median(xs))
  }

  /** `.mean()` of a boolean mask: the share of true entries, NaN for an empty mask. */
  function ShareOf(bs: seq<bool>): (r: Stat)
    ensures r.Finite? <==> |bs| > 0
    ensures r.Finite? ==> r.value == (CountTrue(bs) as real) / (|bs| as real)
    ensures r.Finite? ==> 0.0 <= r.value <= 1.0
  {
    if |bs| == 0 then NotFinite
    else
      IndicatorMeanIsShare(bs);
      Finite(Mean(Indicator(bs)))
  }

  /** `std(ddof=0) > 0`: false when there are no values (NaN compares false), otherwise
      whether the population variance is positive. */
  function Varies(xs: seq<real>): (b: bool)
    ensures b <==> |xs| > 0 && !AllEqual(xs)
  {
    if |xs| == 0 then false
    else
      VariancePositiveIffNotAllEqual(xs);
      PopVariance(xs) > 0.0
  }

  /** `(xs / xs.max()).mean()`: finite exactly when there is a value and the maximum is not 0. */
  function CompletionRate(xs: seq<real>): (r: Stat)
    ensures r.Finite? <==> |xs| > 0 && Max(xs) != 0.0
  {
    if |xs| == 0 || Max(xs) == 0.0 then NotFinite
    else Finite(Mean(Scaled(xs, Max(xs))))
  }

  /** The mask `s >= PASSING_THRESHOLD`; a missing grade compares false. */
  function Passing(cells: seq<Cell>): (bs: seq<bool>)
    ensures |bs| == |cells|
    ensures forall k :: 0 <= k < |cells| ==> (bs[k] <==> cells[k].Num? && cells[k].v >= PassingThreshold)
  {
    seq(|cells|, k requires 0 <= k < |cells| => cells[k].Num? && cells[k].v >= PassingThreshold)
  }

  predicate HasText(recs: seq<Record>, c: string) {
    exists k :: 0 <= k < |recs| && Get(recs[k].cells, c).Text?
  }

  // ---------------------------------------------------------------------------------------
  // compute_summary_metrics

  /** The columns the summary reduces, in the order it reads them. */
  const SummaryColumns: seq<string> := ["grade", "attendance_rate", "absences", "assignments_completed"]

  /** The first of `cols`, in order, that is absent (a `KeyError`) or holds text (a `TypeError`
      from the arithmetic). */
  function SummaryProblem(f: Frame, cols: seq<string>): (r: Option<MetricError>)
    ensures r.None? <==> forall c :: c in cols ==> c in f.columns && !HasText(f.records, c)
    ensures r.Some? ==> r.value.column in cols
    ensures r.Some? && r.value.KeyError? ==> r.value.column !in f.columns
    ensures r.Some? && r.value.TypeError? ==> HasText(f.records, r.value.column)
  {
    if |cols| == 0 then None
    else if cols[0] !in f.columns then Some(KeyError(cols[0]))
    else if HasText(f.records, cols[0]) then Some(TypeError(cols[0]))
    else
      var r := SummaryProblem(f, cols[1..]);
      assert forall c :: c in cols <==> c == cols[0] || c in cols[1..];
      r
  }

  /** `compute_summary_metrics`. The correlation coefficient is the parameter `corr`, applied to
      the grade and attendance columns. */
  function ComputeSummaryMetrics(f: Frame, corr: (seq<Cell>, seq<Cell>) -> real): (r: Result<Summary, MetricError>)
    ensures r.Ok? <==>
      && (forall c :: c in SummaryColumns ==> c in f.columns && !HasText(f.records, c))
      && ("risk_label" in f.columns ==> !HasText(f.records, "risk_label"))
  {
    match SummaryProblem(f, SummaryColumns)
    case Some(e) => Err(e)
    case None =>
      if "risk_label" in f.columns && HasText(f.records, "risk_label") then Err(TypeError("risk_label"))
      else Ok(SummaryOf(f, corr))
  }

  /** The dictionary built once every column the summary reads can be reduced. */
  function SummaryOf(f: Frame, corr: (seq<Cell>, seq<Cell>) -> real): Summary {
    var grades := Cells(f.records, "grade");
    var attendance := Cells(f.records, "attendance_rate");
    var assignments := Present(Cells(f.records, "assignments_completed"));
    Summary(
      count := |f.records| as real,
      avgGrade := MeanOf(Present(grades)),
      medianGrade := MedianOf(Present(grades)),
      passRate := ShareOf(Passing(grades)),
      avgAttendance := MeanOf(Present(attendance)),
      avgAbsences := MeanOf(Present(Cells(f.records, "absences"))),
      completionRate := CompletionRate(assignments),
      atRiskShare :=
        if "risk_label" in f.columns then Some(MeanOf(Present(Cells(f.records, "risk_label")))) else None,
      gradeAttendanceCorr :=
        if Varies(Present(grades)) && Varies(Present(attendance)) then Some(corr(grades, attendance))
        else None)
  }

  /** `count` is the number of rows; `pass_rate` is the share of rows whose grade is at least
      the threshold, a fraction in [0, 1], and NaN only for an empty table. */
  lemma PassRateIsShareOfPassingRows(f: Frame, corr: (seq<Cell>, seq<Cell>) -> real, s: Summary)
    requires ComputeSummaryMetrics(f, corr) == Ok(s)
    ensures s.count == |f.records| as real
    ensures s.passRate.Finite? <==> |f.records| > 0
    ensures s.passRate.Finite? ==>
      && s.passRate.value == (CountTrue(Passing(Cells(f.records, "grade"))) as real) / (|f.records| as real)
      && 0.0 <= s.passRate.value <= 1.0
  {
  }

  /** The average and the median grade lie between the smallest and the largest grade. */
  lemma GradeStatisticsWithinRange(f: Frame, corr: (seq<Cell>, seq<Cell>) -> real, s: Summary)
    requires ComputeSummaryMetrics(f, corr) == Ok(s)
    requires exists k :: 0 <= k < |f.records| && Get(f.records[k].cells, "grade").Num?
    ensures s.avgGrade.Finite? && s.medianGrade.Finite?
    ensures Min(Present(Cells(f.records, "grade"))) <= s.avgGrade.value <= Max(Present(Cells(f.records, "grade")))
    ensures Min(Present(Cells(f.records, "grade"))) <= s.medianGrade.value <= Max(Present(Cells(f.records, "grade")))
  {
    var k :| 0 <= k < |f.records| && Get(f.records[k].cells, "grade").Num?;
    var grades := Cells(f.records, "grade");
    assert Num(grades[k].v) in grades;
  }

  /** The mean of a column's present values is finite exactly when a value is present, and it
      then lies between their minimum and maximum and within any bounds every value keeps. */
  lemma MeanOfColumnWithin(cells: seq<Cell>, lo: real, hi: real)
    requires forall k :: 0 <= k < |cells| && cells[k].Num? ==> lo <= cells[k].v <= hi
    ensures MeanOf(Present(cells)).Finite? <==> exists k :: 0 <= k < |cells| && cells[k].Num?
    ensures MeanOf(Present(cells)).Finite? ==>
      && Min(Present(cells)) <= MeanOf(Present(cells)).value <= Max(Present(cells))
      && lo <= MeanOf(Present(cells)).value <= hi
  {
    var xs := Present(cells);
    if |xs| > 0 {
      var m := Min(xs);
      assert Num(m) in cells;
      var n := Max(xs);
      assert Num(n) in cells;
    } else {
      forall k | 0 <= k < |cells| ensures !cells[k].Num? {
        assert cells[k] in cells;
      }
    }
  }

  /** The average attendance lies between the smallest and the largest attendance, so within
      any bounds every attendance value keeps, [0, 1] in particular. */
  lemma AttendanceWithinRange(f: Frame, corr: (seq<Cell>, seq<Cell>) -> real, s: Summary, lo: real, hi: real)
    requires ComputeSummaryMetrics(f, corr) == Ok(s)
    requires forall k :: 0 <= k < |f.records| && Get(f.records[k].cells, "attendance_rate").Num? ==>
      lo <= Get(f.records[k].cells, "attendance_rate").v <= hi
    ensures s.avgAttendance.Finite? <==> exists k :: 0 <= k < |f.records| && Get(f.records[k].cells, "attendance_rate").Num?
    ensures s.avgAttendance.Finite? ==>
      && Min(Present(Cells(f.records, "attendance_rate"))) <= s.avgAttendance.value
      && s.avgAttendance.value <= Max(Present(Cells(f.records, "attendance_rate")))
      && lo <= s.avgAttendance.value <= hi
  {
    assert s.avgAttendance == MeanOf(Present(Cells(f.records, "attendance_rate")));
    MeanOfRecordsWithin(f.records, "attendance_rate", lo, hi);
  }

  /** `MeanOfColumnWithin` stated over the rows of a table rather than over one column. */
  lemma MeanOfRecordsWithin(recs: seq<Record>, c: string, lo: real, hi: real)
    requires forall k :: 0 <= k < |recs| && Get(recs[k].cells, c).Num? ==> lo <= Get(recs[k].cells, c).v <= hi
    ensures MeanOf(Present(Cells(recs, c))).Finite? <==> exists k :: 0 <= k < |recs| && Get(recs[k].cells, c).Num?
    ensures MeanOf(Present(Cells(recs, c))).Finite? ==>
      && Min(Present(Cells(recs, c))) <= MeanOf(Present(Cells(recs, c))).value <= Max(Present(Cells(recs, c)))
      && lo <= MeanOf(Present(Cells(recs, c))).value <= hi
  {
    MeanOfColumnWithin(Cells(recs, c), lo, hi);
  }

  /** `(xs / xs.max()).mean()` over a column of non-negative values with a positive one is a
      fraction in [0, 1]. */
  lemma CompletionRateOfColumn(cells: seq<Cell>)
    requires forall k :: 0 <= k < |cells| && cells[k].Num? ==> cells[k].v >= 0.0
    requires exists k :: 0 <= k < |cells| && cells[k].Num? && cells[k].v > 0.0
    ensures CompletionRate(Present(cells)).Finite?
    ensures 0.0 <= CompletionRate(Present(cells)).value <= 1.0
  {
    var xs := Present(cells);
    var k :| 0 <= k < |cells| && cells[k].Num? && cells[k].v > 0.0;
    assert cells[k] in cells;
    assert cells[k].v in xs;
    forall i | 0 <= i < |xs| ensures 0.0 <= xs[i] {
      assert Num(xs[i]) in cells;
    }
    ScaledWithinUnit(xs);
  }

  /** With non-negative assignment counts and a positive maximum, `completion_rate` is a
      fraction in [0, 1]. */
  lemma CompletionRateWithinUnit(f: Frame, corr: (seq<Cell>, seq<Cell>) -> real, s: Summary)
    requires ComputeSummaryMetrics(f, corr) == Ok(s)
    requires forall k :: 0 <= k < |f.records| && Get(f.records[k].cells, "assignments_completed").Num? ==>
      Get(f.records[k].cells, "assignments_completed").v >= 0.0
    requires exists k :: 0 <= k < |f.records| && Get(f.records[k].cells, "assignments_completed").Num?
                         && Get(f.records[k].cells, "assignments_completed").v > 0.0
    ensures s.completionRate.Finite?
    ensures 0.0 <= s.completionRate.value <= 1.0
  {
    assert s == SummaryOf(f, corr);
    CompletionRateOfRecords(f.records, "assignments_completed");
  }

  /** `CompletionRateOfColumn` stated over the rows of a table rather than over one column. */
  lemma CompletionRateOfRecords(recs: seq<Record>, c: string)
    requires forall k :: 0 <= k < |recs| && Get(recs[k].cells, c).Num? ==> Get(recs[k].cells, c).v >= 0.0
    requires exists k :: 0 <= k < |recs| && Get(recs[k].cells, c).Num? && Get(recs[k].cells, c).v > 0.0
    ensures CompletionRate(Present(Cells(recs, c))).Finite?
    ensures 0.0 <= CompletionRate(Present(Cells(recs, c))).value <= 1.0
  {
    var k :| 0 <= k < |recs| && Get(recs[k].cells, c).Num? && Get(recs[k].cells, c).v > 0.0;
    assert Cells(recs, c)[k] == Get(recs[k].cells, c);
    CompletionRateOfColumn(Cells(recs, c));
  }

  /** Dividing non-negative values by their positive maximum gives values in [0, 1]. */
  lemma ScaledWithinUnit(xs: seq<real>)
    requires |xs| > 0 && Max(xs) > 0.0
    requires forall i :: 0 <= i < |xs| ==> 0.0 <= xs[i]
    ensures 0.0 <= Mean(Scaled(xs, Max(xs))) <= 1.0
  {
    var m := Max(xs);
    var ys := Scaled(xs, m);
    forall i | 0 <= i < |ys| ensures 0.0 <= ys[i] <= 1.0 {
      ScaledAt(xs, m, i);
      FractionOfMaximum(xs[i], m);
    }
    MeanWithin(ys, 0.0, 1.0);
  }

  lemma FractionOfMaximum(x: real, m: real)
    requires 0.0 <= x <= m && m > 0.0
    ensures 0.0 <= x / m <= 1.0
  {
    QuotientWithin(x, m, 0.0, 1.0);
  }

  /** `at_risk_share` is present exactly when the table has a `risk_label` column; it is then the
      mean label, a fraction in [0, 1] when the labels are 0 or 1. */
  lemma AtRiskSharePresentIffRiskColumn(f: Frame, corr: (seq<Cell>, seq<Cell>) -> real, s: Summary)
    requires ComputeSummaryMetrics(f, corr) == Ok(s)
    ensures s.atRiskShare.Some? <==> "risk_label" in f.columns
    ensures s.atRiskShare.Some? ==> s.atRiskShare.value == MeanOf(Present(Cells(f.records, "risk_label")))
    ensures s.atRiskShare.Some? && s.atRiskShare.value.Finite?
            && (forall k :: 0 <= k < |f.records| && Get(f.records[k].cells, "risk_label").Num? ==>
                  Get(f.records[k].cells, "risk_label").v in {0.0, 1.0})
            ==> 0.0 <= s.atRiskShare.value.value <= 1.0
  {
    assert s == SummaryOf(f, corr);
    LabelMeanWithinUnit(f.records, "risk_label");
  }

  /** The mean of a column whose labels are all 0 or 1 is a fraction in [0, 1]. */
  lemma LabelMeanWithinUnit(recs: seq<Record>, c: string)
    ensures MeanOf(Present(Cells(recs, c))).Finite?
            && (forall k :: 0 <= k < |recs| && Get(recs[k].cells, c).Num? ==> Get(recs[k].cells, c).v in {0.0, 1.0})
            ==> 0.0 <= MeanOf(Present(Cells(recs, c))).value <= 1.0
  {
    var cells := Cells(recs, c);
    if forall k :: 0 <= k < |cells| && cells[k].Num? ==> cells[k].v in {0.0, 1.0} {
      MeanOfColumnWithin(cells, 0.0, 1.0);
    }
  }

  /** `grade_attendance_corr` is present exactly when neither the grades nor the attendance
      values are all equal (and each column has a value). */
  lemma CorrelationPresentIffVaried(f: Frame, corr: (seq<Cell>, seq<Cell>) -> real, s: Summary)
    requires ComputeSummaryMetrics(f, corr) == Ok(s)
    ensures s.gradeAttendanceCorr.Some? <==>
      && |Present(Cells(f.records, "grade"))| > 0 && !AllEqual(Present(Cells(f.records, "grade")))
      && |Present(Cells(f.records, "attendance_rate"))| > 0 && !AllEqual(Present(Cells(f.records, "attendance_rate")))
  {
    BothVary(Present(Cells(f.records, "grade")), Present(Cells(f.records, "attendance_rate")));
  }

  lemma BothVary(xs: seq<real>, ys: seq<real>)
    ensures Varies(xs) && Varies(ys) <==> |xs| > 0 && !AllEqual(xs) && |ys| > 0 && !AllEqual(ys)
  {
  }

  // ---------------------------------------------------------------------------------------
  // cohort_metrics

  /** The order `groupby` sorts its keys in: numbers by value, text by code points, and numbers
      before text, the order pandas falls back to for keys that do not compare with each other. */
  predicate KeyLe(a: Cell, b: Cell) {
    match a
    case Missing => true
    case Num(x) => b.Text? || (b.Num? && x <= b.v)
    case Text(t) => b.Text? && LexLe(t, b.s)
  }

  lemma KeyLeIsTotalOrder()
    ensures Total(KeyLe) && Transitive(KeyLe) && Antisymmetric(KeyLe)
  {
    forall a: Cell, b: Cell ensures KeyLe(a, b) || KeyLe(b, a) {
      if a.Text? && b.Text? {
        LexLeTotal(a.s, b.s);
      }
    }
    forall a: Cell, b: Cell, c: Cell | KeyLe(a, b) && KeyLe(b, c) ensures KeyLe(a, c) {
      if a.Text? && b.Text? && c.Text? {
        LexLeTransitive(a.s, b.s, c.s);
      }
    }
    forall a: Cell, b: Cell | KeyLe(a, b) && KeyLe(b, a) ensures a == b {
      if a.Text? && b.Text? {
        LexLeAntisymmetric(a.s, b.s);
      }
    }
  }

  predicate NoDuplicates<T(==)>(xs: seq<T>) {
    forall i, j :: 0 <= i < j < |xs| ==> xs[i] != xs[j]
  }

  /** Each value of `xs` once. */
  function Distinct(xs: seq<Cell>): (r: seq<Cell>)
    ensures forall x :: x in r <==> x in xs
    ensures NoDuplicates(r)
  {
    if |xs| == 0 then []
    else
      assert forall x :: x in xs <==> x == xs[0] || x in xs[1..];
      if xs[0] in xs[1..] then Distinct(xs[1..]) else [xs[0]] + Distinct(xs[1..])
  }

  lemma {:induction false} NoDuplicatesCountsOnce<T>(xs: seq<T>, x: T)
    requires NoDuplicates(xs)
    ensures multiset(xs)[x] <= 1
  {
    if |xs| > 0 {
      assert xs == [xs[0]] + xs[1..];
      NoDuplicatesCountsOnce(xs[1..], x);
      if xs[0] == x {
        assert x !in xs[1..];
      }
    }
  }

  /** A sequence whose values each occur at most once has no duplicates. */
  lemma CountsOnceNoDuplicates<T>(xs: seq<T>)
    requires forall x :: multiset(xs)[x] <= 1
    ensures NoDuplicates(xs)
  {
    forall i, j | 0 <= i < j < |xs| ensures xs[i] != xs[j] {
      RepeatCountsTwice(xs, i, j);
    }
  }

  lemma RepeatCountsTwice<T>(xs: seq<T>, i: nat, j: nat)
    requires i < j < |xs|
    ensures xs[i] == xs[j] ==> multiset(xs)[xs[i]] >= 2
  {
    assert xs == xs[..j] + xs[j..];
    assert xs[..j][i] == xs[i];
    assert xs[j..][0] == xs[j];
    assert multiset(xs) == multiset(xs[..j]) + multiset(xs[j..]);
  }

  /** The distinct non-missing values of the grouping column, sorted as `groupby` sorts them. */
  function GroupKeys(recs: seq<Record>, keyColumn: string): (ks: seq<Cell>)
    ensures forall x :: x in ks <==> x != Missing && exists k :: 0 <= k < |recs| && Get(recs[k].cells, keyColumn) == x
    ensures SortedBy(ks, KeyLe) && NoDuplicates(ks)
  {
    var keyed := DropNA(recs, {keyColumn});
    var present := Distinct(Cells(keyed, keyColumn));
    var ks := Sort(present, KeyLe);
    KeyLeIsTotalOrder();
    SortIsSorted(present, KeyLe);
    forall x ensures multiset(ks)[x] <= 1 {
      NoDuplicatesCountsOnce(present, x);
    }
    CountsOnceNoDuplicates(ks);
    forall x ensures x in ks <==> x != Missing && exists k :: 0 <= k < |recs| && Get(recs[k].cells, keyColumn) == x {
      assert x in ks <==> x in multiset(present);
      if x in present {
        var j :| 0 <= j < |keyed| && Cells(keyed, keyColumn)[j] == x;
        assert keyed[j] in keyed;
        var k :| 0 <= k < |recs| && recs[k] == keyed[j];
      }
      if x != Missing && exists k :: 0 <= k < |recs| && Get(recs[k].cells, keyColumn) == x {
        var k :| 0 <= k < |recs| && Get(recs[k].cells, keyColumn) == x;
        assert recs[k] in recs && Complete(recs[k].cells, {keyColumn});
        var j :| 0 <= j < |keyed| && keyed[j] == recs[k];
        assert Cells(keyed, keyColumn)[j] == x;
      }
    }
    ks
  }

  /** The records of one group: those whose grouping cell is `key`, in order. */
  function Members(recs: seq<Record>, keyColumn: string, key: Cell): (r: seq<Record>)
    ensures |r| <= |recs|
    ensures forall rec :: rec in r <==> rec in recs && Get(rec.cells, keyColumn) == key
    ensures forall rec :: Occurrences(r, rec) == if Get(rec.cells, keyColumn) == key then Occurrences(recs, rec) else 0
  {
    if |recs| == 0 then []
    else
      assert forall rec :: rec in recs <==> rec == recs[0] || rec in recs[1..];
      var rest := Members(recs[1..], keyColumn, key);
      var r := (if Get(recs[0].cells, keyColumn) == key then [recs[0]] else []) + rest;
      OccurrencesAppend((if Get(recs[0].cells, keyColumn) == key then [recs[0]] else []), rest);
      r
  }

  /** `("student_id", "count")`: the records whose `student_id` is not missing. */
  function IdCount(recs: seq<Record>): (n: nat)
    ensures n <= |recs|
  {
    if |recs| == 0 then 0
    else (if Get(recs[0].cells, "student_id") != Missing then 1 else 0) + IdCount(recs[1..])
  }

  /** The aggregates of one group. */
  function Aggregate(members: seq<Record>, key: Cell): (c: Cohort)
    requires |members| > 0
    ensures c.key == key && c.count <= |members|
    ensures c.passRate == (CountTrue(Passing(Cells(members, "grade"))) as real) / (|members| as real)
    ensures 0.0 <= c.passRate <= 1.0
  {
    var passing := ShareOf(Passing(Cells(members, "grade")));
    Cohort(
      key := key,
      count := IdCount(members),
      avgGrade := MeanOf(Present(Cells(members, "grade"))),
      passRate := passing.value,
      avgAttendance := MeanOf(Present(Cells(members, "attendance_rate"))),
      riskRate := MeanOf(Present(Cells(members, "risk_label"))))
  }

  /** One cohort per key of `ks`, in the order of `ks`. */
  function Cohorts(recs: seq<Record>, keyColumn: string, ks: seq<Cell>): (cs: seq<Cohort>)
    requires forall i :: 0 <= i < |ks| ==> |Members(recs, keyColumn, ks[i])| > 0
    ensures |cs| == |ks|
    ensures forall i :: 0 <= i < |ks| ==> cs[i] == Aggregate(Members(recs, keyColumn, ks[i]), ks[i])
  {
    seq(|ks|, i requires 0 <= i < |ks| => Aggregate(Members(recs, keyColumn, ks[i]), ks[i]))
  }

  /** The columns the aggregation reads, those it averages, and the columns it names. */
  const AggregatedColumns: seq<string> := ["student_id", "grade", "attendance_rate", "risk_label"]
  const AveragedColumns: seq<string> := ["grade", "attendance_rate", "risk_label"]
  const CohortColumns: seq<string> := ["count", "avg_grade", "pass_rate", "avg_attendance", "risk_rate"]

  function FirstAbsent(columns: seq<string>, cols: seq<string>): (r: Option<string>)
    ensures r.None? <==> forall c :: c in cols ==> c in columns
    ensures r.Some? ==> r.value in cols && r.value !in columns
  {
    if |cols| == 0 then None
    else if cols[0] !in columns then Some(cols[0])
    else
      assert forall c :: c in cols <==> c == cols[0] || c in cols[1..];
      FirstAbsent(columns, cols[1..])
  }

  function FirstWithText(recs: seq<Record>, cols: seq<string>): (r: Option<string>)
    ensures r.None? <==> forall c :: c in cols ==> !HasText(recs, c)
    ensures r.Some? ==> r.value in cols && HasText(recs, r.value)
  {
    if |cols| == 0 then None
    else if HasText(recs, cols[0]) then Some(cols[0])
    else
      assert forall c :: c in cols <==> c == cols[0] || c in cols[1..];
      FirstWithText(recs, cols[1..])
  }

  /** `cohort_metrics`: a `KeyError` for an absent grouping or aggregated column, a `TypeError`
      for text in an averaged column of a grouped row, a `ValueError` when `reset_index` moves
      the grouping column back beside an aggregate of the same name, otherwise one row per group. */
  function CohortMetrics(f: Frame, keyColumn: string): (r: Result<seq<Cohort>, MetricError>)
    ensures r.Ok? <==>
      && keyColumn in f.columns
      && (forall c :: c in AggregatedColumns ==> c in f.columns)
      && (forall c :: c in AveragedColumns ==> !HasText(DropNA(f.records, {keyColumn}), c))
      && keyColumn !in CohortColumns
    ensures r.Err? && keyColumn !in f.columns ==> r.error == KeyError(keyColumn)
    ensures r.Err? && r.error.ValueError? <==>
      && keyColumn in f.columns
      && (forall c :: c in AggregatedColumns ==> c in f.columns)
      && (forall c :: c in AveragedColumns ==> !HasText(DropNA(f.records, {keyColumn}), c))
      && keyColumn in CohortColumns
    ensures r.Err? && r.error.ValueError? ==> r.error.column == keyColumn
  {
    if keyColumn !in f.columns then Err(KeyError(keyColumn))
    else
      match FirstAbsent(f.columns, AggregatedColumns)
      case Some(c) => Err(KeyError(c))
      case None =>
        match FirstWithText(DropNA(f.records, {keyColumn}), AveragedColumns)
        case Some(c) => Err(TypeError(c))
        case None =>
          if keyColumn in CohortColumns then Err(ValueError(keyColumn))
          else
            var ks := GroupKeys(f.records, keyColumn);
            GroupsAreInhabited(f.records, keyColumn, ks);
            Ok(Cohorts(f.records, keyColumn, ks))
  }

  lemma GroupsAreInhabited(recs: seq<Record>, keyColumn: string, ks: seq<Cell>)
    requires ks == GroupKeys(recs, keyColumn)
    ensures forall i :: 0 <= i < |ks| ==> |Members(recs, keyColumn, ks[i])| > 0
  {
    forall i | 0 <= i < |ks| ensures |Members(recs, keyColumn, ks[i])| > 0 {
      assert ks[i] in ks;
      var k :| 0 <= k < |recs| && Get(recs[k].cells, keyColumn) == ks[i];
      assert recs[k] in Members(recs, keyColumn, ks[i]);
    }
  }

  /** A successful `cohort_metrics` is one aggregate per group key, in key order. */
  lemma CohortMetricsAreGroupAggregates(f: Frame, keyColumn: string, cohorts: seq<Cohort>)
    requires CohortMetrics(f, keyColumn) == Ok(cohorts)
    ensures forall i :: 0 <= i < |GroupKeys(f.records, keyColumn)| ==>
      |Members(f.records, keyColumn, GroupKeys(f.records, keyColumn)[i])| > 0
    ensures cohorts == Cohorts(f.records, keyColumn, GroupKeys(f.records, keyColumn))
  {
    GroupsAreInhabited(f.records, keyColumn, GroupKeys(f.records, keyColumn));
  }

  /** One row per distinct non-missing value of the grouping column: every such value has a
      row, no row has another key, no two rows share a key, and the rows are in key order. */
  lemma OneCohortPerDistinctKey(f: Frame, keyColumn: string, cohorts: seq<Cohort>)
    requires CohortMetrics(f, keyColumn) == Ok(cohorts)
    ensures forall i :: 0 <= i < |cohorts| ==>
      cohorts[i].key != Missing && exists k :: 0 <= k < |f.records| && Get(f.records[k].cells, keyColumn) == cohorts[i].key
    ensures forall k :: 0 <= k < |f.records| && Get(f.records[k].cells, keyColumn) != Missing ==>
      exists i :: 0 <= i < |cohorts| && cohorts[i].key == Get(f.records[k].cells, keyColumn)
    ensures forall i, j :: 0 <= i < j < |cohorts| ==> cohorts[i].key != cohorts[j].key
    ensures forall i, j :: 0 <= i < j < |cohorts| ==> KeyLe(cohorts[i].key, cohorts[j].key)
  {
    CohortMetricsAreGroupAggregates(f, keyColumn, cohorts);
    GroupsFollowKeys(f.records, keyColumn, cohorts);
  }

  lemma GroupsFollowKeys(recs: seq<Record>, keyColumn: string, cohorts: seq<Cohort>)
    requires forall i :: 0 <= i < |GroupKeys(recs, keyColumn)| ==> |Members(recs, keyColumn, GroupKeys(recs, keyColumn)[i])| > 0
    requires cohorts == Cohorts(recs, keyColumn, GroupKeys(recs, keyColumn))
    ensures forall i :: 0 <= i < |cohorts| ==>
      cohorts[i].key != Missing && exists k :: 0 <= k < |recs| && Get(recs[k].cells, keyColumn) == cohorts[i].key
    ensures forall k :: 0 <= k < |recs| && Get(recs[k].cells, keyColumn) != Missing ==>
      exists i :: 0 <= i < |cohorts| && cohorts[i].key == Get(recs[k].cells, keyColumn)
    ensures forall i, j :: 0 <= i < j < |cohorts| ==> cohorts[i].key != cohorts[j].key
    ensures forall i, j :: 0 <= i < j < |cohorts| ==> KeyLe(cohorts[i].key, cohorts[j].key)
  {
    var ks := GroupKeys(recs, keyColumn);
    CohortKeys(recs, keyColumn, ks);
    KeyedRowsFollowKeys(recs, keyColumn, ks, cohorts);
  }

  /** The cohorts of `ks` carry the keys of `ks`, in order. */
  lemma CohortKeys(recs: seq<Record>, keyColumn: string, ks: seq<Cell>)
    requires forall i :: 0 <= i < |ks| ==> |Members(recs, keyColumn, ks[i])| > 0
    ensures |Cohorts(recs, keyColumn, ks)| == |ks|
    ensures forall i :: 0 <= i < |ks| ==> Cohorts(recs, keyColumn, ks)[i].key == ks[i]
  {
    var cs := Cohorts(recs, keyColumn, ks);
    forall i | 0 <= i < |ks| ensures cs[i].key == ks[i] {
      assert cs[i] == Aggregate(Members(recs, keyColumn, ks[i]), ks[i]);
    }
  }

  lemma KeyedRowsFollowKeys(recs: seq<Record>, keyColumn: string, ks: seq<Cell>, cohorts: seq<Cohort>)
    requires forall x :: x in ks <==> x != Missing && exists k :: 0 <= k < |recs| && Get(recs[k].cells, keyColumn) == x
    requires SortedBy(ks, KeyLe) && NoDuplicates(ks)
    requires |cohorts| == |ks| && forall i :: 0 <= i < |cohorts| ==> cohorts[i].key == ks[i]
    ensures forall i :: 0 <= i < |cohorts| ==>
      cohorts[i].key != Missing && exists k :: 0 <= k < |recs| && Get(recs[k].cells, keyColumn) == cohorts[i].key
    ensures forall k :: 0 <= k < |recs| && Get(recs[k].cells, keyColumn) != Missing ==>
      exists i :: 0 <= i < |cohorts| && cohorts[i].key == Get(recs[k].cells, keyColumn)
    ensures forall i, j :: 0 <= i < j < |cohorts| ==> cohorts[i].key != cohorts[j].key
    ensures forall i, j :: 0 <= i < j < |cohorts| ==> KeyLe(cohorts[i].key, cohorts[j].key)
  {
    forall i | 0 <= i < |cohorts|
      ensures cohorts[i].key != Missing && exists k :: 0 <= k < |recs| && Get(recs[k].cells, keyColumn) == cohorts[i].key
    {
      assert ks[i] in ks;
    }
    forall k | 0 <= k < |recs| && Get(recs[k].cells, keyColumn) != Missing
      ensures exists i :: 0 <= i < |cohorts| && cohorts[i].key == Get(recs[k].cells, keyColumn)
    {
      var x := Get(recs[k].cells, keyColumn);
      assert x in ks;
      var i :| 0 <= i < |ks| && ks[i] == x;
      assert cohorts[i].key == x;
    }
    forall i, j | 0 <= i < j < |cohorts|
      ensures cohorts[i].key != cohorts[j].key && KeyLe(cohorts[i].key, cohorts[j].key)
    {
      assert cohorts[i].key == ks[i] && cohorts[j].key == ks[j];
    }
  }

  /** Each cohort's `pass_rate` is the share of its rows that pass, a fraction in [0, 1]. */
  lemma CohortPassRatesWithinUnit(f: Frame, keyColumn: string, cohorts: seq<Cohort>)
    requires CohortMetrics(f, keyColumn) == Ok(cohorts)
    ensures forall i :: 0 <= i < |cohorts| ==> |Members(f.records, keyColumn, cohorts[i].key)| > 0
    ensures forall i :: 0 <= i < |cohorts| ==>
      && 0.0 <= cohorts[i].passRate <= 1.0
      && cohorts[i].passRate ==
         (CountTrue(Passing(Cells(Members(f.records, keyColumn, cohorts[i].key), "grade"))) as real)
         / (|Members(f.records, keyColumn, cohorts[i].key)| as real)
  {
    CohortMetricsAreGroupAggregates(f, keyColumn, cohorts);
    GroupPassRates(f.records, keyColumn, GroupKeys(f.records, keyColumn), cohorts);
  }

  lemma GroupPassRates(recs: seq<Record>, keyColumn: string, ks: seq<Cell>, cohorts: seq<Cohort>)
    requires forall i :: 0 <= i < |ks| ==> |Members(recs, keyColumn, ks[i])| > 0
    requires cohorts == Cohorts(recs, keyColumn, ks)
    ensures forall i :: 0 <= i < |cohorts| ==> |Members(recs, keyColumn, cohorts[i].key)| > 0
    ensures forall i :: 0 <= i < |cohorts| ==>
      && 0.0 <= cohorts[i].passRate <= 1.0
      && cohorts[i].passRate ==
         (CountTrue(Passing(Cells(Members(recs, keyColumn, cohorts[i].key), "grade"))) as real)
         / (|Members(recs, keyColumn, cohorts[i].key)| as real)
  {
    forall i | 0 <= i < |cohorts|
      ensures 0.0 <= cohorts[i].passRate <= 1.0
      ensures cohorts[i].passRate ==
         (CountTrue(Passing(Cells(Members(recs, keyColumn, cohorts[i].key), "grade"))) as real)
         / (|Members(recs, keyColumn, cohorts[i].key)| as real)
    {
      var members := Members(recs, keyColumn, ks[i]);
      assert cohorts[i] == Aggregate(members, ks[i]);
    }
    forall i | 0 <= i < |cohorts| ensures |Members(recs, keyColumn, cohorts[i].key)| > 0 {
      assert cohorts[i].key == ks[i];
    }
  }

  // The counts of all cohorts add up to the rows that have both a key and a student id.

  function CountSum(cohorts: seq<Cohort>): nat {
    if |cohorts| == 0 then 0 else cohorts[0].count + CountSum(cohorts[1..])
  }

  /** Records whose key is in `keys` and whose `student_id` is present. */
  function IdCountWhere(recs: seq<Record>, keyColumn: string, keys: set<Cell>): nat {
    if |recs| == 0 then 0
    else
      (if Get(recs[0].cells, keyColumn) in keys && Get(recs[0].cells, "student_id") != Missing then 1 else 0)
      + IdCountWhere(recs[1..], keyColumn, keys)
  }

  lemma {:induction false} IdCountOfMembers(recs: seq<Record>, keyColumn: string, key: Cell)
    ensures IdCount(Members(recs, keyColumn, key)) == IdCountWhere(recs, keyColumn, {key})
  {
    if |recs| > 0 {
      IdCountOfMembers(recs[1..], keyColumn, key);
      var head := if Get(recs[0].cells, keyColumn) == key then [recs[0]] else [];
      IdCountAppend(head, Members(recs[1..], keyColumn, key));
    }
  }

  lemma {:induction false} IdCountAppend(a: seq<Record>, b: seq<Record>)
    ensures IdCount(a + b) == IdCount(a) + IdCount(b)
  {
    if |a| == 0 {
      assert a + b == b;
    } else {
      assert (a + b)[1..] == a[1..] + b;
      IdCountAppend(a[1..], b);
    }
  }

  lemma {:induction false} IdCountWhereSplit(recs: seq<Record>, keyColumn: string, key: Cell, keys: set<Cell>)
    requires key !in keys
    ensures IdCountWhere(recs, keyColumn, {key} + keys) == IdCountWhere(recs, keyColumn, {key}) + IdCountWhere(recs, keyColumn, keys)
  {
    if |recs| > 0 {
      IdCountWhereSplit(recs[1..], keyColumn, key, keys);
    }
  }

  lemma {:induction false} CountSumOverKeys(recs: seq<Record>, keyColumn: string, ks: seq<Cell>)
    requires forall i :: 0 <= i < |ks| ==> |Members(recs, keyColumn, ks[i])| > 0
    requires NoDuplicates(ks)
    ensures CountSum(Cohorts(recs, keyColumn, ks)) == IdCountWhere(recs, keyColumn, KeySet(ks))
  {
    if |ks| == 0 {
      assert KeySet(ks) == {};
      IdCountWhereNone(recs, keyColumn);
    } else {
      var key, rest := ks[0], ks[1..];
      CountSumHead(recs, keyColumn, ks);
      assert NoDuplicates(rest) by {
        forall i, j | 0 <= i < j < |rest| ensures rest[i] != rest[j] {
          assert rest[i] == ks[i + 1] && rest[j] == ks[j + 1];
        }
      }
      CountSumOverKeys(recs, keyColumn, rest);
      IdCountOfMembers(recs, keyColumn, key);
      KeySetSplit(ks);
      IdCountWhereSplit(recs, keyColumn, key, KeySet(rest));
      calc {
        CountSum(Cohorts(recs, keyColumn, ks));
      ==  // the head cohort counts the members of the first key
        IdCount(Members(recs, keyColumn, key)) + CountSum(Cohorts(recs, keyColumn, rest));
      ==
        IdCountWhere(recs, keyColumn, {key}) + IdCountWhere(recs, keyColumn, KeySet(rest));
      ==  // the first key is not among the others
        IdCountWhere(recs, keyColumn, {key} + KeySet(rest));
      ==
        IdCountWhere(recs, keyColumn, KeySet(ks));
      }
    }
  }

  lemma CountSumHead(recs: seq<Record>, keyColumn: string, ks: seq<Cell>)
    requires |ks| > 0
    requires forall i :: 0 <= i < |ks| ==> |Members(recs, keyColumn, ks[i])| > 0
    ensures forall i :: 0 <= i < |ks[1..]| ==> |Members(recs, keyColumn, ks[1..][i])| > 0
    ensures CountSum(Cohorts(recs, keyColumn, ks))
            == IdCount(Members(recs, keyColumn, ks[0])) + CountSum(Cohorts(recs, keyColumn, ks[1..]))
  {
    var cs := Cohorts(recs, keyColumn, ks);
    assert cs[1..] == Cohorts(recs, keyColumn, ks[1..]);
  }

  function KeySet(ks: seq<Cell>): set<Cell> {
    set x | x in ks
  }

  lemma KeySetSplit(ks: seq<Cell>)
    requires |ks| > 0 && NoDuplicates(ks)
    ensures ks[0] !in KeySet(ks[1..])
    ensures KeySet(ks) == {ks[0]} + KeySet(ks[1..])
  {
    assert forall x :: x in ks <==> x == ks[0] || x in ks[1..];
  }

  lemma {:induction false} IdCountWhereNone(recs: seq<Record>, keyColumn: string)
    ensures IdCountWhere(recs, keyColumn, {}) == 0
  {
    if |recs| > 0 {
      IdCountWhereNone(recs[1..], keyColumn);
    }
  }

  lemma {:induction false} IdCountWherePresent(recs: seq<Record>, keyColumn: string, keys: set<Cell>)
    requires Missing !in keys
    requires forall k :: 0 <= k < |recs| && Get(recs[k].cells, keyColumn) != Missing ==> Get(recs[k].cells, keyColumn) in keys
    ensures IdCountWhere(recs, keyColumn, keys) == IdCount(DropNA(recs, {keyColumn}))
  {
    if |recs| > 0 {
      IdCountWherePresent(recs[1..], keyColumn, keys);
      var head := if Complete(recs[0].cells, {keyColumn}) then [recs[0]] else [];
      IdCountAppend(head, DropNA(recs[1..], {keyColumn}));
    }
  }

  lemma {:induction false} IdCountAll(recs: seq<Record>, keyColumn: string)
    requires forall k :: 0 <= k < |recs| ==>
      Get(recs[k].cells, keyColumn) != Missing && Get(recs[k].cells, "student_id") != Missing
    ensures IdCount(DropNA(recs, {keyColumn})) == |recs|
  {
    if |recs| > 0 {
      IdCountAll(recs[1..], keyColumn);
      assert Complete(recs[0].cells, {keyColumn});
      IdCountAppend([recs[0]], DropNA(recs[1..], {keyColumn}));
    }
  }

  /** The cohort counts add up to the rows with a key and a student id, which is every row
      when neither is ever missing. */
  lemma CohortCountsSumToRows(f: Frame, keyColumn: string, cohorts: seq<Cohort>)
    requires CohortMetrics(f, keyColumn) == Ok(cohorts)
    ensures CountSum(cohorts) == IdCount(DropNA(f.records, {keyColumn}))
    ensures (forall k :: 0 <= k < |f.records| ==>
               Get(f.records[k].cells, keyColumn) != Missing && Get(f.records[k].cells, "student_id") != Missing)
            ==> CountSum(cohorts) == |f.records|
  {
    var ks := GroupKeys(f.records, keyColumn);
    CohortMetricsAreGroupAggregates(f, keyColumn, cohorts);
    CountSumOverKeys(f.records, keyColumn, ks);
    IdCountWherePresent(f.records, keyColumn, KeySet(ks));
    if forall k :: 0 <= k < |f.records| ==>
         Get(f.records[k].cells, keyColumn) != Missing && Get(f.records[k].cells, "student_id") != Missing {
      IdCountAll(f.records, keyColumn);
    }
  }
}

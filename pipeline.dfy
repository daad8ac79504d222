/** The loader feeding the metrics, as the report builder chains them: a table loaded with
    `dropna` never makes the metrics raise. */
module Pipeline {
  import opened Results
  import opened Frames
  import opened DataLoader
  import opened Metrics

  /** No record of `recs` holds text in column `c` when every record of a frame holds a number there. */
  lemma NumbersAreNotText(f: Frame, recs: seq<Record>, c: string)
    requires NumericColumn(f, c)
    requires forall rec :: rec in recs ==> rec in f.records
    ensures !HasText(recs, c)
  {
    forall k | 0 <= k < |recs| ensures !Get(recs[k].cells, c).Text? {
      assert recs[k] in recs;
      var j :| 0 <= j < |f.records| && f.records[j] == recs[k];
    }
  }

  lemma SummarySucceedsOnNumbers(f: Frame, corr: (seq<Cell>, seq<Cell>) -> real)
    requires NumericColumn(f, "grade") && NumericColumn(f, "attendance_rate")
    requires NumericColumn(f, "absences") && NumericColumn(f, "assignments_completed")
    requires NumericColumn(f, "risk_label")
    ensures ComputeSummaryMetrics(f, corr).Ok?
    ensures |f.records| > 0 ==> ComputeSummaryMetrics(f, corr).value.passRate.Finite?
  {
    NumbersAreNotText(f, f.records, "grade");
    NumbersAreNotText(f, f.records, "attendance_rate");
    NumbersAreNotText(f, f.records, "absences");
    NumbersAreNotText(f, f.records, "assignments_completed");
    NumbersAreNotText(f, f.records, "risk_label");
    PassRateIsShareOfPassingRows(f, corr, ComputeSummaryMetrics(f, corr).value);
  }

  lemma CohortsSucceedOnNumbers(f: Frame)
    requires NumericColumn(f, "grade") && NumericColumn(f, "attendance_rate") && NumericColumn(f, "risk_label")
    requires "student_id" in f.columns && "program" in f.columns
    ensures CohortMetrics(f, "program").Ok?
  {
    var keyed := DropNA(f.records, {"program"});
    NumbersAreNotText(f, keyed, "grade");
    NumbersAreNotText(f, keyed, "attendance_rate");
    NumbersAreNotText(f, keyed, "risk_label");
  }

  /** A table loaded with `dropna` has the columns both metrics read, numbers in the numeric ones. */
  lemma LoadedColumnsFeedMetrics(columns: seq<string>, rows: seq<Row>,
                                 parse: string -> Option<real>, format: real -> string, f: Frame)
    requires RequiredColumns <= ColumnSet(columns)
    requires LoadSpec(columns, rows, true, parse, format) == Ok(f)
    ensures NumericColumn(f, "grade") && NumericColumn(f, "attendance_rate")
    ensures NumericColumn(f, "absences") && NumericColumn(f, "assignments_completed")
    ensures NumericColumn(f, "risk_label")
    ensures "student_id" in f.columns && "program" in f.columns
  {
    MetricColumnsAreLoaded();
    LoadedFrameIsNumeric(columns, rows, parse, format);
  }

  /** The columns the metrics read are among those the loader requires and coerces. */
  lemma MetricColumnsAreLoaded()
    ensures "grade" in NumericColumnSet && "attendance_rate" in NumericColumnSet
    ensures "absences" in NumericColumnSet && "assignments_completed" in NumericColumnSet
    ensures "risk_label" in NumericColumnSet
    ensures "student_id" in RequiredColumns && "program" in RequiredColumns
  {
    assert NumericColumns[0] == "grade" && NumericColumns[1] == "attendance_rate";
    assert NumericColumns[2] == "assignments_completed" && NumericColumns[3] == "absences";
    assert NumericColumns[4] == "risk_label";
    assert RequiredColumnNames[0] == "student_id" && RequiredColumnNames[1] == "program";
  }

  /** On a table loaded with `dropna`, the summary and the per-program cohorts both succeed, and
      the summary's pass rate is a finite share whenever a row is left, in particular once the
      report's size guardrail has passed. */
  lemma LoadedTableHasMetrics(columns: seq<string>, rows: seq<Row>,
                              parse: string -> Option<real>, format: real -> string,
                              corr: (seq<Cell>, seq<Cell>) -> real)
    requires RequiredColumns <= ColumnSet(columns)
    ensures LoadSpec(columns, rows, true, parse, format).Ok?
    ensures var f := LoadSpec(columns, rows, true, parse, format).value;
            && ComputeSummaryMetrics(f, corr).Ok?
            && CohortMetrics(f, "program").Ok?
            && (|f.records| > 0 ==> ComputeSummaryMetrics(f, corr).value.passRate.Finite?)
            && (EnsureMinimumRows(f, DefaultMinimumRows).Pass? ==> ComputeSummaryMetrics(f, corr).value.passRate.Finite?)
  {
    var f := LoadSpec(columns, rows, true, parse, format).value;
    LoadedColumnsFeedMetrics(columns, rows, parse, format, f);
    SummarySucceedsOnNumbers(f, corr);
    CohortsSucceedOnNumbers(f);
  }
}

/** Loading a student dataset: schema validation, row cleaning and the minimum-size guardrail
    (src/edudataanalyzer/data_loader.py). The model starts from the table the CSV reader
    produced; parsing text as a number and rendering a number as text are parameters. */
module DataLoader {
  import opened Results
  import opened Sorting
  import opened Strings
  import opened Frames

  /** The seven columns every dataset must have, in the order the source lists them. */
  const RequiredColumnNames: seq<string> :=
    ["student_id", "program", "grade", "attendance_rate", "assignments_completed", "absences", "risk_label"]

  const RequiredColumns: set<string> := set c | c in RequiredColumnNames

  /** The columns coerced to numbers, in the order the loader visits them. */
  const NumericColumns: seq<string> :=
    ["grade", "attendance_rate", "assignments_completed", "absences", "risk_label"]

  const NumericColumnSet: set<string> := set c | c in NumericColumns

  /** The columns cast to text. */
  const IdentifierColumns: set<string> := {"student_id", "program"}

  /** `ensure_minimum_rows`' default `minimum`, the value the report builder passes
      (src/edudataanalyzer/report.py:26). */
  const DefaultMinimumRows: int := 20

  datatype LoadError =
    | SchemaError(missing: seq<string>)
    | SizeError(found: nat, need: int)

  function ColumnSet(columns: seq<string>): set<string> {
    set c | c in columns
  }

  const SchemaPrefix: string := "Dataset is missing required columns: "

  /** The text of the `ValueError` the source raises: the schema error starts with its fixed
      prefix and names every missing column; the size error names both counts. */
  function Message(e: LoadError): (m: string)
    ensures e.SchemaError? ==> SchemaPrefix <= m
    ensures e.SchemaError? ==> forall k :: 0 <= k < |e.missing| ==> Contains(m, e.missing[k])
    ensures e.SizeError? ==> Contains(m, Decimal(e.found)) && Contains(m, Decimal(e.need))
  {
    match e
    case SchemaError(missing) =>
      ListedNamesOccur(SchemaPrefix, missing);
      SchemaPrefix + ListRepr(missing)
    case SizeError(found, need) =>
      var pre := "Dataset too small for robust analysis (found ";
      var mid := " rows, need ";
      var post := "+).";
      OccursWhole(pre, Decimal(found), mid + Decimal(need) + post);
      OccursWhole(pre + Decimal(found) + mid, Decimal(need), post);
      assert pre + Decimal(found) + (mid + Decimal(need) + post) == pre + Decimal(found) + mid + Decimal(need) + post;
      pre + Decimal(found) + mid + Decimal(need) + post
  }

  lemma ListedNamesOccur(pre: string, names: seq<string>)
    ensures forall k :: 0 <= k < |names| ==> Contains(pre + ListRepr(names), names[k])
  {
    forall k | 0 <= k < |names| ensures Contains(pre + ListRepr(names), names[k]) {
      ListReprContains(names, k);
      ContainsInContext(pre, ListRepr(names), "", names[k]);
      assert pre + ListRepr(names) + "" == pre + ListRepr(names);
    }
  }

  /** The names in `names` that are not in `present`, in their order. */
  function Absent(names: seq<string>, present: set<string>): (r: seq<string>)
    ensures forall c :: multiset(r)[c] == if c in present then 0 else multiset(names)[c]
  {
    if |names| == 0 then []
    else
      assert names == [names[0]] + names[1..];
      (if names[0] in present then [] else [names[0]]) + Absent(names[1..], present)
  }

  /** Each required column is listed once. */
  lemma RequiredNamesOnce()
    ensures forall c :: multiset(RequiredColumnNames)[c] == if c in RequiredColumns then 1 else 0
  {
  }

  lemma AbsentOnce(names: seq<string>, all: set<string>, present: set<string>)
    requires forall c :: multiset(names)[c] == if c in all then 1 else 0
    ensures multiset(Absent(names, present)) == multiset(all - present)
  {
    forall c ensures multiset(Absent(names, present))[c] == multiset(all - present)[c] {
    }
  }

  /** `sorted(REQUIRED_COLUMNS.difference(set(columns)))`: the missing required columns, each
      once, in Python's string order. */
  function MissingColumns(columns: seq<string>): (r: seq<string>)
    ensures SortedBy(r, LexLe)
    ensures multiset(r) == multiset(RequiredColumns - ColumnSet(columns))
  {
    var absent := Absent(RequiredColumnNames, ColumnSet(columns));
    LexLeIsTotalOrder();
    SortIsSorted(absent, LexLe);
    RequiredNamesOnce();
    AbsentOnce(RequiredColumnNames, RequiredColumns, ColumnSet(columns));
    Sort(absent, LexLe)
  }

  /** `_validate_columns`: passes exactly when every required column is present; otherwise the
      error lists each missing required column once, in Python's string order. */
  function ValidateColumns(columns: seq<string>): (r: Outcome<LoadError>)
    ensures r.Pass? <==> RequiredColumns <= ColumnSet(columns)
    ensures r.Fail? ==> r.error.SchemaError?
    ensures r.Fail? ==> SortedBy(r.error.missing, LexLe)
    ensures r.Fail? ==> multiset(r.error.missing) == multiset(RequiredColumns - ColumnSet(columns))
  {
    if RequiredColumns - ColumnSet(columns) == {} then
      assert forall c :: c in RequiredColumns ==> c !in RequiredColumns - ColumnSet(columns);
      Pass
    else
      Fail(SchemaError(MissingColumns(columns)))
  }

  /** The list is exactly Python's `sorted` of the missing set: any sorted list holding each
      missing column once is this one. */
  lemma MissingColumnsIsSortedDifference(columns: seq<string>, listed: seq<string>)
    requires SortedBy(listed, LexLe)
    requires multiset(listed) == multiset(RequiredColumns - ColumnSet(columns))
    ensures listed == MissingColumns(columns)
  {
    LexLeIsTotalOrder();
    SortedUnique(listed, MissingColumns(columns), LexLe);
  }

  /** The schema error's text names every missing required column. */
  lemma SchemaMessageNamesMissingColumns(columns: seq<string>, c: string)
    requires c in RequiredColumns && c !in columns
    ensures ValidateColumns(columns).Fail?
    ensures Contains(Message(ValidateColumns(columns).error), c)
  {
    var missing := MissingColumns(columns);
    RejectsWhenMissing(columns, c);
    MissingColumnListed(columns, c);
    var k :| 0 <= k < |missing| && missing[k] == c;
  }

  lemma RejectsWhenMissing(columns: seq<string>, c: string)
    requires c in RequiredColumns && c !in columns
    ensures ValidateColumns(columns) == Fail(SchemaError(MissingColumns(columns)))
  {
    assert c in RequiredColumns - ColumnSet(columns);
  }

  lemma MissingColumnListed(columns: seq<string>, c: string)
    requires c in RequiredColumns && c !in columns
    ensures c in MissingColumns(columns)
  {
    InDifference(RequiredColumns, ColumnSet(columns), c);
    assert c in multiset(MissingColumns(columns));
  }

  lemma InDifference(all: set<string>, present: set<string>, c: string)
    requires c in all && c !in present
    ensures multiset(all - present)[c] == 1
  {
  }

  /** `ensure_minimum_rows`: fails exactly when the frame has fewer than `minimum` rows,
      reporting both counts; otherwise it has no effect. */
  function EnsureMinimumRows(f: Frame, minimum: int): (r: Outcome<LoadError>)
    ensures r.Fail? <==> |f.records| < minimum
    ensures r.Fail? ==> r.error == SizeError(|f.records|, minimum)
  {
    if |f.records| < minimum then Fail(SizeError(|f.records|, minimum)) else Pass
  }

  // ---------------------------------------------------------------------------------------
  // Row cleaning, defined once for a whole row (the reference for `LoadDataset`)

  /** A numeric cell's value came from the input: it was that number, or text parsing to it. */
  predicate ParsedFrom(input: Cell, v: real, parse: string -> Option<real>) {
    input == Num(v) || (input.Text? && parse(input.s) == Some(v))
  }

  /** The row after all numeric columns are coerced at once. */
  function CoerceRow(row: Row, parse: string -> Option<real>): Row {
    map c | c in row.Keys + NumericColumnSet ::
      if c in NumericColumnSet then ToNumeric(Get(row, c), parse) else row[c]
  }

  /** A loaded row: numeric columns coerced, identifier columns as text, other columns as read. */
  function CleanRow(row: Row, parse: string -> Option<real>, format: real -> string): (r: Row)
    ensures r.Keys == row.Keys + RequiredColumns
    ensures Get(r, "student_id").Text? && Get(r, "program").Text?
    ensures forall c :: c in NumericColumnSet ==> Get(r, c) == ToNumeric(Get(row, c), parse)
    ensures forall c :: c in row && c !in RequiredColumns ==> r[c] == row[c]
  {
    map c | c in row.Keys + RequiredColumns ::
      if c in NumericColumnSet then ToNumeric(Get(row, c), parse)
      else if c in IdentifierColumns then AsStr(Get(row, c), format)
      else Get(row, c)
  }

  /** The row passes both `dropna` calls: no required cell is missing before coercion, and
      every numeric cell holds a number after it. */
  predicate Survives(row: Row, parse: string -> Option<real>) {
    && Complete(row, RequiredColumns)
    && forall c :: c in NumericColumnSet ==> ToNumeric(Get(row, c), parse).Num?
  }

  /** Whether the load keeps a row: always without `dropna`, otherwise when it survives. */
  predicate Kept(row: Row, dropna: bool, parse: string -> Option<real>) {
    !dropna || Survives(row, parse)
  }

  /** The kept records, cleaned, under their original labels. */
  function Clean(recs: seq<Record>, dropna: bool, parse: string -> Option<real>, format: real -> string)
    : (r: seq<Record>)
    ensures |r| <= |recs|
    ensures !dropna ==> |r| == |recs|
  {
    var keep := row => Kept(row, dropna, parse);
    var fix := row => CleanRow(row, parse, format);
    if dropna then Select(recs, keep, fix)
    else
      SelectEverything(recs, keep, fix);
      Select(recs, keep, fix)
  }

  /** What loading the parsed table yields: the schema error, or the surviving rows cleaned,
      in their order, renumbered from 0. */
  function LoadSpec(columns: seq<string>, rows: seq<Row>, dropna: bool,
                    parse: string -> Option<real>, format: real -> string): (r: Result<Frame, LoadError>)
    ensures r.Err? <==> !(RequiredColumns <= ColumnSet(columns))
    ensures r.Err? ==> r.error.SchemaError?
    ensures r.Ok? ==> r.value.columns == columns && |r.value.records| <= |rows|
    ensures r.Ok? && !dropna ==> |r.value.records| == |rows|
  {
    var check := ValidateColumns(columns);
    if check.Fail? then Err(check.error)
    else Ok(Frame(columns, ResetIndex(Clean(FromRows(columns, rows).records, dropna, parse, format))))
  }

  /** The indices of the input rows the load keeps, in output order. */
  ghost function Origin(rows: seq<Row>, dropna: bool, parse: string -> Option<real>, format: real -> string)
    : seq<nat>
  {
    Labels(Clean(Indexed(rows), dropna, parse, format))
  }

  // ---------------------------------------------------------------------------------------
  // The loader as the source runs it

  /** `load_dataset` after `read_csv`: validate the header, drop incomplete rows, coerce the
      numeric columns one by one, drop rows whose coercion failed, cast the identifier
      columns to text and renumber the rows. */
  method LoadDataset(columns: seq<string>, rows: seq<Row>, dropna: bool,
                     parse: string -> Option<real>, format: real -> string)
    returns (r: Result<Frame, LoadError>)
    ensures r == LoadSpec(columns, rows, dropna, parse, format)
  {
    var df := FromRows(columns, rows);
    var check := ValidateColumns(df.columns);
    if check.Fail? {
      return Err(check.error);
    }
    if dropna {
      df := df.(records := DropNA(df.records, RequiredColumns));
    }
    ghost var read := df.records;
    for i := 0 to |NumericColumns|
      invariant df.columns == columns
      invariant df.records == CoercedSoFar(read, NumericColumns, i, parse)
    {
      CoercedSoFarStep(read, NumericColumns, i, parse);
      df := df.(records := CoerceColumn(df.records, NumericColumns[i], parse));
    }
    CoercedSoFarAll(read, parse);
    if dropna {
      df := df.(records := DropNA(df.records, NumericColumnSet));
    }
    df := df.(records := AsStrColumn(df.records, "student_id", format));
    df := df.(records := AsStrColumn(df.records, "program", format));
    StepsMatchClean(Indexed(rows), dropna, parse, format);
    r := Ok(df.(records := ResetIndex(df.records)));
  }

  /** The rows once the loop has coerced the first `i` of `cols`. */
  ghost function CoercedSoFar(read: seq<Record>, cols: seq<string>, i: nat, parse: string -> Option<real>)
    : seq<Record>
    requires i <= |cols|
  {
    seq(|read|, k requires 0 <= k < |read| => Record(read[k].index, CoerceColumns(read[k].cells, cols[..i], parse)))
  }

  lemma CoercedSoFarStep(read: seq<Record>, cols: seq<string>, i: nat, parse: string -> Option<real>)
    requires i < |cols|
    ensures CoerceColumn(CoercedSoFar(read, cols, i, parse), cols[i], parse) == CoercedSoFar(read, cols, i + 1, parse)
  {
    assert cols[..i + 1][..i] == cols[..i];
  }

  lemma CoercedSoFarAll(read: seq<Record>, parse: string -> Option<real>)
    ensures CoercedSoFar(read, NumericColumns, |NumericColumns|, parse) == CoerceRows(read, parse)
  {
    assert NumericColumns[..|NumericColumns|] == NumericColumns;
    forall k | 0 <= k < |read|
      ensures CoerceColumns(read[k].cells, NumericColumns, parse) == CoerceRow(read[k].cells, parse)
    {
      CoerceColumnsAtOnce(read[k].cells, NumericColumns, parse);
    }
  }

  /** The row after the loader's loop has coerced `cols`, one column after another. */
  function CoerceColumns(row: Row, cols: seq<string>, parse: string -> Option<real>): Row {
    if |cols| == 0 then row
    else CoerceCell(CoerceColumns(row, cols[..|cols| - 1], parse), cols[|cols| - 1], parse)
  }

  function CoerceRows(recs: seq<Record>, parse: string -> Option<real>): (r: seq<Record>)
    ensures |r| == |recs|
    ensures forall k :: 0 <= k < |recs| ==> r[k] == Record(recs[k].index, CoerceRow(recs[k].cells, parse))
  {
    if |recs| == 0 then []
    else [Record(recs[0].index, CoerceRow(recs[0].cells, parse))] + CoerceRows(recs[1..], parse)
  }

  lemma ToNumericIdempotent(c: Cell, parse: string -> Option<real>)
    ensures ToNumeric(ToNumeric(c, parse), parse) == ToNumeric(c, parse)
  {
  }

  /** Coercing column after column is coercing all of them at once (a column named twice is
      coerced twice, which changes nothing the second time). */
  lemma {:induction false} CoerceColumnsAtOnce(row: Row, cols: seq<string>, parse: string -> Option<real>)
    ensures CoerceColumns(row, cols, parse) ==
      map c | c in row.Keys + (set x | x in cols) ::
        if c in cols then ToNumeric(Get(row, c), parse) else row[c]
  {
    if |cols| > 0 {
      var init := cols[..|cols| - 1];
      var last := cols[|cols| - 1];
      assert cols == init + [last];
      CoerceColumnsAtOnce(row, init, parse);
      ToNumericIdempotent(Get(row, last), parse);
    }
  }

  lemma ColumnGroups()
    ensures RequiredColumns == NumericColumnSet + IdentifierColumns
    ensures "student_id" !in NumericColumnSet && "program" !in NumericColumnSet
  {
  }

  /** The three per-row steps of the loader give the reference row. */
  lemma CleanRowInSteps(row: Row, parse: string -> Option<real>, format: real -> string)
    ensures AsStrCell(AsStrCell(CoerceRow(row, parse), "student_id", format), "program", format)
            == CleanRow(row, parse, format)
  {
    ColumnGroups();
    var steps := AsStrCell(AsStrCell(CoerceRow(row, parse), "student_id", format), "program", format);
    var clean := CleanRow(row, parse, format);
    assert steps.Keys == clean.Keys;
    forall c | c in steps.Keys ensures steps[c] == clean[c] {
    }
  }

  /** Surviving both `dropna` calls is surviving the reference filter. */
  lemma SurvivesInSteps(row: Row, parse: string -> Option<real>)
    ensures Survives(row, parse) <==>
            Complete(row, RequiredColumns) && Complete(CoerceRow(row, parse), NumericColumnSet)
  {
    forall c | c in NumericColumnSet ensures Get(CoerceRow(row, parse), c) == ToNumeric(Get(row, c), parse) {
    }
  }

  lemma CoerceRowsAppend(a: seq<Record>, b: seq<Record>, parse: string -> Option<real>)
    ensures CoerceRows(a + b, parse) == CoerceRows(a, parse) + CoerceRows(b, parse)
  {
  }

  /** The loader's steps after the header check, in the source's order, on value frames. */
  ghost function Steps(recs: seq<Record>, dropna: bool, parse: string -> Option<real>, format: real -> string)
    : seq<Record>
  {
    var read := if dropna then DropNA(recs, RequiredColumns) else recs;
    var coerced := CoerceRows(read, parse);
    var kept := if dropna then DropNA(coerced, NumericColumnSet) else coerced;
    AsStrColumn(AsStrColumn(kept, "student_id", format), "program", format)
  }

  lemma StepsAppend(a: seq<Record>, b: seq<Record>, dropna: bool,
                    parse: string -> Option<real>, format: real -> string)
    ensures Steps(a + b, dropna, parse, format) == Steps(a, dropna, parse, format) + Steps(b, dropna, parse, format)
  {
    var readA := if dropna then DropNA(a, RequiredColumns) else a;
    var readB := if dropna then DropNA(b, RequiredColumns) else b;
    if dropna {
      DropNAAppend(a, b, RequiredColumns);
    }
    CoerceRowsAppend(readA, readB, parse);
    var coercedA := CoerceRows(readA, parse);
    var coercedB := CoerceRows(readB, parse);
    var keptA := if dropna then DropNA(coercedA, NumericColumnSet) else coercedA;
    var keptB := if dropna then DropNA(coercedB, NumericColumnSet) else coercedB;
    if dropna {
      DropNAAppend(coercedA, coercedB, NumericColumnSet);
    }
    AsStrColumnAppend(keptA, keptB, "student_id", format);
    AsStrColumnAppend(AsStrColumn(keptA, "student_id", format), AsStrColumn(keptB, "student_id", format),
                      "program", format);
  }

  lemma StepsOfOne(rec: Record, dropna: bool, parse: string -> Option<real>, format: real -> string)
    ensures Steps([rec], dropna, parse, format) ==
      if !dropna || Survives(rec.cells, parse) then [Record(rec.index, CleanRow(rec.cells, parse, format))] else []
  {
    CleanRowInSteps(rec.cells, parse, format);
    SurvivesInSteps(rec.cells, parse);
    assert [rec][1..] == [];
    var coerced := Record(rec.index, CoerceRow(rec.cells, parse));
    assert [coerced][1..] == [];
    if dropna && Complete(rec.cells, RequiredColumns) {
      assert DropNA([rec], RequiredColumns) == [rec];
      assert CoerceRows([rec], parse) == [coerced];
    }
  }

  /** The pandas steps, applied as the source applies them, yield the reference rows. */
  lemma {:induction false} StepsMatchClean(recs: seq<Record>, dropna: bool,
                                           parse: string -> Option<real>, format: real -> string)
    ensures Steps(recs, dropna, parse, format) == Clean(recs, dropna, parse, format)
  {
    if |recs| > 0 {
      assert recs == [recs[0]] + recs[1..];
      StepsAppend([recs[0]], recs[1..], dropna, parse, format);
      StepsOfOne(recs[0], dropna, parse, format);
      StepsMatchClean(recs[1..], dropna, parse, format);
    }
  }

  // ---------------------------------------------------------------------------------------
  // Which rows survive, and in what order

  /** The cleaned records are the kept input rows, cleaned, in input order: `Origin` lists
      where each came from. */
  lemma CleanTracksOrigin(rows: seq<Row>, dropna: bool, parse: string -> Option<real>, format: real -> string)
    ensures |Clean(Indexed(rows), dropna, parse, format)| == |Origin(rows, dropna, parse, format)|
    ensures forall j :: 0 <= j < |Origin(rows, dropna, parse, format)| ==>
      && Origin(rows, dropna, parse, format)[j] < |rows|
      && Clean(Indexed(rows), dropna, parse, format)[j].cells
         == CleanRow(rows[Origin(rows, dropna, parse, format)[j]], parse, format)
    ensures forall j1, j2 :: 0 <= j1 < j2 < |Origin(rows, dropna, parse, format)| ==>
      Origin(rows, dropna, parse, format)[j1] < Origin(rows, dropna, parse, format)[j2]
    ensures forall i :: 0 <= i < |rows| ==>
      (i in Origin(rows, dropna, parse, format) <==> Kept(rows[i], dropna, parse))
  {
    var keep := row => Kept(row, dropna, parse);
    var fix := row => CleanRow(row, parse, format);
    assert Clean(Indexed(rows), dropna, parse, format) == Select(Indexed(rows), keep, fix);
    SelectTracksRows(rows, keep, fix);
  }

  /** A successful load is the cleaned rows, renumbered. */
  lemma LoadIsRenumberedClean(columns: seq<string>, rows: seq<Row>, dropna: bool,
                              parse: string -> Option<real>, format: real -> string)
    requires RequiredColumns <= ColumnSet(columns)
    ensures LoadSpec(columns, rows, dropna, parse, format)
            == Ok(Frame(columns, ResetIndex(Clean(Indexed(rows), dropna, parse, format))))
  {
  }

  /** A loaded frame lists exactly the rows that survive cleaning, in their original order,
      each cleaned and renumbered by its position. */
  lemma LoadKeepsSurvivorsInOrder(columns: seq<string>, rows: seq<Row>, dropna: bool,
                                  parse: string -> Option<real>, format: real -> string)
    requires RequiredColumns <= ColumnSet(columns)
    ensures LoadSpec(columns, rows, dropna, parse, format).Ok?
    ensures var loaded := LoadSpec(columns, rows, dropna, parse, format).value.records;
            var origin := Origin(rows, dropna, parse, format);
            && |loaded| == |origin|
            && (forall j :: 0 <= j < |origin| ==>
                  origin[j] < |rows| && loaded[j] == Record(j, CleanRow(rows[origin[j]], parse, format)))
            && (forall j1, j2 :: 0 <= j1 < j2 < |origin| ==> origin[j1] < origin[j2])
            && (forall i :: 0 <= i < |rows| ==> (i in origin <==> Kept(rows[i], dropna, parse)))
  {
    LoadIsRenumberedClean(columns, rows, dropna, parse, format);
    CleanTracksOrigin(rows, dropna, parse, format);
  }

  // ---------------------------------------------------------------------------------------
  // What the loaded cells hold

  /** A surviving row cleans to a complete row whose numeric cells are numbers read from the
      input cell (a number already, or text that parses to it). */
  lemma SurvivorCleansToNumbers(row: Row, parse: string -> Option<real>, format: real -> string)
    requires Survives(row, parse)
    ensures Complete(CleanRow(row, parse, format), RequiredColumns)
    ensures forall c :: c in NumericColumnSet ==>
      && Get(CleanRow(row, parse, format), c).Num?
      && ParsedFrom(Get(row, c), Get(CleanRow(row, parse, format), c).v, parse)
  {
    ColumnGroups();
  }

  /** With `dropna`, a row holding text that does not parse in a numeric column is never loaded. */
  lemma UnparsableCellNeverSurvives(rows: seq<Row>, i: nat, c: string,
                                    parse: string -> Option<real>, format: real -> string)
    requires i < |rows| && c in NumericColumnSet
    requires Get(rows[i], c).Text? && parse(Get(rows[i], c).s).None?
    ensures i !in Origin(rows, true, parse, format)
  {
    CleanTracksOrigin(rows, true, parse, format);
  }

  /** With `dropna`, every loaded row is complete and every numeric column holds numbers. */
  lemma LoadedFrameIsNumeric(columns: seq<string>, rows: seq<Row>,
                             parse: string -> Option<real>, format: real -> string)
    requires RequiredColumns <= ColumnSet(columns)
    ensures LoadSpec(columns, rows, true, parse, format).Ok?
    ensures var f := LoadSpec(columns, rows, true, parse, format).value;
            && (forall j :: 0 <= j < |f.records| ==> Complete(f.records[j].cells, RequiredColumns))
            && (forall c :: c in NumericColumnSet ==> NumericColumn(f, c))
  {
    LoadKeepsSurvivorsInOrder(columns, rows, true, parse, format);
    var f := LoadSpec(columns, rows, true, parse, format).value;
    var origin := Origin(rows, true, parse, format);
    forall j | 0 <= j < |f.records|
      ensures Complete(f.records[j].cells, RequiredColumns)
      ensures forall c :: c in NumericColumnSet ==> Get(f.records[j].cells, c).Num?
    {
      assert origin[j] in origin;
      SurvivorCleansToNumbers(rows[origin[j]], parse, format);
    }
    forall c | c in NumericColumnSet ensures NumericColumn(f, c) {
      assert c in RequiredColumns;
      assert c in ColumnSet(columns);
    }
  }

  /** With `dropna`, each numeric cell of a loaded row is the number read from the same column
      of the input row it came from. */
  lemma LoadedNumbersWereParsed(columns: seq<string>, rows: seq<Row>,
                                parse: string -> Option<real>, format: real -> string)
    requires RequiredColumns <= ColumnSet(columns)
    ensures LoadSpec(columns, rows, true, parse, format).Ok?
    ensures var loaded := LoadSpec(columns, rows, true, parse, format).value.records;
            var origin := Origin(rows, true, parse, format);
            && |loaded| == |origin|
            && forall j, c :: 0 <= j < |origin| && c in NumericColumnSet ==>
                 && origin[j] < |rows|
                 && Get(loaded[j].cells, c).Num?
                 && ParsedFrom(Get(rows[origin[j]], c), Get(loaded[j].cells, c).v, parse)
  {
    LoadKeepsSurvivorsInOrder(columns, rows, true, parse, format);
    var origin := Origin(rows, true, parse, format);
    forall j | 0 <= j < |origin| ensures Survives(rows[origin[j]], parse) {
      assert origin[j] in origin;
    }
    forall j | 0 <= j < |origin| {
      SurvivorCleansToNumbers(rows[origin[j]], parse, format);
    }
  }

  /** Every loaded row holds text in `student_id` and `program`, with or without `dropna`. */
  lemma LoadedIdentifiersAreText(columns: seq<string>, rows: seq<Row>, dropna: bool,
                                 parse: string -> Option<real>, format: real -> string)
    requires RequiredColumns <= ColumnSet(columns)
    ensures LoadSpec(columns, rows, dropna, parse, format).Ok?
    ensures var loaded := LoadSpec(columns, rows, dropna, parse, format).value.records;
            forall j :: 0 <= j < |loaded| ==>
              Get(loaded[j].cells, "student_id").Text? && Get(loaded[j].cells, "program").Text?
  {
    LoadKeepsSurvivorsInOrder(columns, rows, dropna, parse, format);
  }
}

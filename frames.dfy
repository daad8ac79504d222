/** The part of a pandas DataFrame the loader and the metrics touch: a list of column names
    and a sequence of records, each record an index label and a map from column name to cell.
    The operations are the pandas calls the loader makes, applied record by record. */
module Frames {
  import opened Results

  /** A cell after CSV parsing: missing (NaN), text, or a number. */
  datatype Cell = Missing | Text(s: string) | Num(v: real)

  type Row = map<string, Cell>

  /** One row of a frame under its index label. */
  datatype Record = Record(index: nat, cells: Row)

  datatype Frame = Frame(columns: seq<string>, records: seq<Record>)

  /** The cell of column `c`; a column the row lacks reads as missing. */
  function Get(row: Row, c: string): Cell {
    if c in row then row[c] else Missing
  }

  /** No cell of the columns in `subset` is missing. */
  predicate Complete(row: Row, subset: set<string>) {
    forall c :: c in subset ==> Get(row, c) != Missing
  }

  /** The parsed rows under the default index 0, 1, ..., n-1. */
  function Indexed(rows: seq<Row>): seq<Record> {
    seq(|rows|, k requires 0 <= k < |rows| => Record(k, rows[k]))
  }

  /** The frame `read_csv` returns. */
  function FromRows(columns: seq<string>, rows: seq<Row>): Frame {
    Frame(columns, Indexed(rows))
  }

  /** `dropna(subset=...)`: the records with no missing cell among `subset`, in their order,
      keeping their labels. */
  function DropNA(recs: seq<Record>, subset: set<string>): (r: seq<Record>)
    ensures |r| <= |recs|
    ensures forall rec :: rec in r <==> rec in recs && Complete(rec.cells, subset)
    ensures forall rec :: Occurrences(r, rec) == if Complete(rec.cells, subset) then Occurrences(recs, rec) else 0
  {
    if |recs| == 0 then []
    else
      var rest := DropNA(recs[1..], subset);
      var r := (if Complete(recs[0].cells, subset) then [recs[0]] else []) + rest;
      OccurrencesAppend((if Complete(recs[0].cells, subset) then [recs[0]] else []), rest);
      r
  }

  /** How many times `x` occurs in `s`. */
  function Occurrences<T(==)>(s: seq<T>, x: T): nat {
    if |s| == 0 then 0 else (if s[0] == x then 1 else 0) + Occurrences(s[1..], x)
  }

  lemma {:induction false} OccurrencesAppend<T>(a: seq<T>, b: seq<T>)
    ensures forall x :: Occurrences(a + b, x) == Occurrences(a, x) + Occurrences(b, x)
  {
    if |a| > 0 {
      OccurrencesAppend(a[1..], b);
      assert (a + b)[1..] == a[1..] + b;
    } else {
      assert a + b == b;
    }
  }

  /** `Occurrences` is the multiplicity of the sequence's multiset. */
  lemma {:induction false} OccurrencesAreMultiplicity<T>(s: seq<T>, x: T)
    ensures Occurrences(s, x) == multiset(s)[x]
  {
    if |s| > 0 {
      OccurrencesAreMultiplicity(s[1..], x);
      assert s == [s[0]] + s[1..];
    }
  }

  /** `pd.to_numeric(..., errors="coerce")` on one cell: text that does not parse becomes missing. */
  function ToNumeric(c: Cell, parse: string -> Option<real>): (r: Cell)
    ensures !r.Text?
  {
    match c
    case Missing => Missing
    case Num(v) => Num(v)
    case Text(s) => if parse(s).Some? then Num(parse(s).value) else Missing
  }

  /** `astype(str)` on one cell: a missing cell becomes the text "nan", a number its rendering. */
  function AsStr(c: Cell, format: real -> string): (r: Cell)
    ensures r.Text?
  {
    match c
    case Missing => Text("nan")
    case Num(v) => Text(format(v))
    case Text(s) => Text(s)
  }

  /** The row after `df[col] = pd.to_numeric(df[col], errors="coerce")`. */
  function CoerceCell(row: Row, col: string, parse: string -> Option<real>): Row {
    row[col := ToNumeric(Get(row, col), parse)]
  }

  /** `df[col] = pd.to_numeric(df[col], errors="coerce")` over the whole frame. */
  function CoerceColumn(recs: seq<Record>, col: string, parse: string -> Option<real>): (r: seq<Record>)
    ensures |r| == |recs|
    ensures forall k :: 0 <= k < |recs| ==> r[k] == Record(recs[k].index, CoerceCell(recs[k].cells, col, parse))
  {
    if |recs| == 0 then []
    else [Record(recs[0].index, CoerceCell(recs[0].cells, col, parse))] + CoerceColumn(recs[1..], col, parse)
  }

  /** The row after `df[col] = df[col].astype(str)`. */
  function AsStrCell(row: Row, col: string, format: real -> string): (r: Row)
    ensures Get(r, col).Text?
  {
    row[col := AsStr(Get(row, col), format)]
  }

  /** `df[col] = df[col].astype(str)` over the whole frame. */
  function AsStrColumn(recs: seq<Record>, col: string, format: real -> string): (r: seq<Record>)
    ensures |r| == |recs|
    ensures forall k :: 0 <= k < |recs| ==> r[k] == Record(recs[k].index, AsStrCell(recs[k].cells, col, format))
  {
    if |recs| == 0 then []
    else [Record(recs[0].index, AsStrCell(recs[0].cells, col, format))] + AsStrColumn(recs[1..], col, format)
  }

  /** `reset_index(drop=True)`: the same rows, relabelled 0, 1, ..., n-1. */
  function ResetIndex(recs: seq<Record>): (r: seq<Record>)
    ensures |r| == |recs|
    ensures forall k :: 0 <= k < |recs| ==> r[k].index == k && r[k].cells == recs[k].cells
  {
    seq(|recs|, k requires 0 <= k < |recs| => Record(k, recs[k].cells))
  }

  /** `df[c]` as a sequence of cells, in row order. */
  function Cells(recs: seq<Record>, c: string): (cells: seq<Cell>)
    ensures |cells| == |recs| && forall k :: 0 <= k < |recs| ==> cells[k] == Get(recs[k].cells, c)
  {
    seq(|recs|, k requires 0 <= k < |recs| => Get(recs[k].cells, c))
  }

  /** The numbers among `cells`, in order: what pandas' reductions see once they skip the
      missing values. */
  function Present(cells: seq<Cell>): (xs: seq<real>)
    ensures |xs| <= |cells|
    ensures forall x :: x in xs <==> Num(x) in cells
    ensures (forall k :: 0 <= k < |cells| ==> cells[k].Num?) ==> |xs| == |cells|
    ensures forall x :: multiset(xs)[x] == multiset(cells)[Num(x)]
  {
    if |cells| == 0 then []
    else
      assert forall x :: Num(x) in cells <==> Num(x) == cells[0] || Num(x) in cells[1..];
      assert cells == [cells[0]] + cells[1..];
      (if cells[0].Num? then [cells[0].v] else []) + Present(cells[1..])
  }

  /** Every record holds a number in column `c`, and `c` is a column of the frame. */
  predicate NumericColumn(f: Frame, c: string) {
    c in f.columns && forall k :: 0 <= k < |f.records| ==> Get(f.records[k].cells, c).Num?
  }

  lemma {:induction false} DropNAAppend(a: seq<Record>, b: seq<Record>, subset: set<string>)
    ensures DropNA(a + b, subset) == DropNA(a, subset) + DropNA(b, subset)
  {
    if |a| == 0 {
      assert a + b == b;
    } else {
      assert (a + b)[1..] == a[1..] + b;
      DropNAAppend(a[1..], b, subset);
    }
  }

  lemma AsStrColumnAppend(a: seq<Record>, b: seq<Record>, col: string, format: real -> string)
    ensures AsStrColumn(a + b, col, format) == AsStrColumn(a, col, format) + AsStrColumn(b, col, format)
  {
  }

  /** The records `keep` accepts, in order and under their own labels, each with its cells
      rewritten by `fix`. */
  function Select(recs: seq<Record>, keep: Row -> bool, fix: Row -> Row): (r: seq<Record>)
    ensures |r| <= |recs|
  {
    if |recs| == 0 then []
    else
      (if keep(recs[0].cells) then [Record(recs[0].index, fix(recs[0].cells))] else [])
      + Select(recs[1..], keep, fix)
  }

  /** Records labelled base, base + 1, ... */
  ghost predicate LabelledFrom(recs: seq<Record>, base: nat) {
    forall k :: 0 <= k < |recs| ==> recs[k].index == base + k
  }

  lemma {:induction false} SelectEverything(recs: seq<Record>, keep: Row -> bool, fix: Row -> Row)
    requires forall k :: 0 <= k < |recs| ==> keep(recs[k].cells)
    ensures |Select(recs, keep, fix)| == |recs|
  {
    if |recs| > 0 {
      SelectEverything(recs[1..], keep, fix);
    }
  }

  /** Each selected record is an accepted input record, rewritten, under its own label. */
  lemma {:induction false} SelectComesFromInput(recs: seq<Record>, base: nat, keep: Row -> bool, fix: Row -> Row)
    requires LabelledFrom(recs, base)
    ensures forall j :: 0 <= j < |Select(recs, keep, fix)| ==>
      && base <= Select(recs, keep, fix)[j].index < base + |recs|
      && Select(recs, keep, fix)[j].cells == fix(recs[Select(recs, keep, fix)[j].index - base].cells)
      && keep(recs[Select(recs, keep, fix)[j].index - base].cells)
  {
    if |recs| > 0 {
      var out := Select(recs, keep, fix);
      var rest := Select(recs[1..], keep, fix);
      SelectComesFromInput(recs[1..], base + 1, keep, fix);
      var head := if keep(recs[0].cells) then [Record(recs[0].index, fix(recs[0].cells))] else [];
      assert out == head + rest;
      forall j | 0 <= j < |out|
        ensures base <= out[j].index < base + |recs|
        ensures out[j].cells == fix(recs[out[j].index - base].cells)
        ensures keep(recs[out[j].index - base].cells)
      {
        if j < |head| {
          assert out[j] == Record(base, fix(recs[0].cells));
        } else {
          var i := rest[j - |head|].index - (base + 1);
          assert out[j] == rest[j - |head|];
          assert recs[1..][i] == recs[i + 1];
        }
      }
    }
  }

  /** Selection keeps the input order. */
  lemma {:induction false} SelectKeepsOrder(recs: seq<Record>, base: nat, keep: Row -> bool, fix: Row -> Row)
    requires LabelledFrom(recs, base)
    ensures forall j1, j2 :: 0 <= j1 < j2 < |Select(recs, keep, fix)| ==>
      Select(recs, keep, fix)[j1].index < Select(recs, keep, fix)[j2].index
  {
    if |recs| > 0 {
      var out := Select(recs, keep, fix);
      var rest := Select(recs[1..], keep, fix);
      var head := if keep(recs[0].cells) then [Record(recs[0].index, fix(recs[0].cells))] else [];
      assert out == head + rest;
      SelectComesFromInput(recs[1..], base + 1, keep, fix);
      SelectKeepsOrder(recs[1..], base + 1, keep, fix);
      forall j1, j2 | 0 <= j1 < j2 < |out| ensures out[j1].index < out[j2].index {
        assert out[j2] == rest[j2 - |head|];
        if j1 < |head| {
          assert out[j1].index == base;
        } else {
          assert out[j1] == rest[j1 - |head|];
        }
      }
    }
  }

  /** Every accepted input record is selected. */
  lemma {:induction false} SelectKeepsEveryAccepted(recs: seq<Record>, base: nat, keep: Row -> bool,
                                                    fix: Row -> Row, k: nat)
    requires LabelledFrom(recs, base)
    requires k < |recs| && keep(recs[k].cells)
    ensures exists j :: 0 <= j < |Select(recs, keep, fix)| && Select(recs, keep, fix)[j].index == base + k
  {
    var out := Select(recs, keep, fix);
    var rest := Select(recs[1..], keep, fix);
    var head := if keep(recs[0].cells) then [Record(recs[0].index, fix(recs[0].cells))] else [];
    assert out == head + rest;
    if k == 0 {
      assert out[0].index == base + k;
    } else {
      assert recs[1..][k - 1] == recs[k];
      SelectKeepsEveryAccepted(recs[1..], base + 1, keep, fix, k - 1);
      var j :| 0 <= j < |rest| && rest[j].index == base + 1 + (k - 1);
      assert out[|head| + j] == rest[j];
    }
  }

  /** The labels of `recs`, in order. */
  function Labels(recs: seq<Record>): (ls: seq<nat>)
    ensures |ls| == |recs| && forall j :: 0 <= j < |recs| ==> ls[j] == recs[j].index
  {
    seq(|recs|, j requires 0 <= j < |recs| => recs[j].index)
  }

  /** Selecting from freshly read rows keeps exactly the accepted rows, rewritten, in their
      order; the labels of the result say which input row each record came from. */
  lemma SelectTracksRows(rows: seq<Row>, keep: Row -> bool, fix: Row -> Row)
    ensures forall j :: 0 <= j < |Select(Indexed(rows), keep, fix)| ==>
      && Select(Indexed(rows), keep, fix)[j].index < |rows|
      && Select(Indexed(rows), keep, fix)[j].cells == fix(rows[Select(Indexed(rows), keep, fix)[j].index])
    ensures forall j1, j2 :: 0 <= j1 < j2 < |Select(Indexed(rows), keep, fix)| ==>
      Select(Indexed(rows), keep, fix)[j1].index < Select(Indexed(rows), keep, fix)[j2].index
    ensures forall i :: 0 <= i < |rows| ==> (i in Labels(Select(Indexed(rows), keep, fix)) <==> keep(rows[i]))
  {
    var recs := Indexed(rows);
    var out := Select(recs, keep, fix);
    assert LabelledFrom(recs, 0);
    SelectComesFromInput(recs, 0, keep, fix);
    SelectKeepsOrder(recs, 0, keep, fix);
    forall i | 0 <= i < |rows| ensures i in Labels(out) <==> keep(rows[i]) {
      assert recs[i].cells == rows[i];
      if keep(rows[i]) {
        SelectKeepsEveryAccepted(recs, 0, keep, fix, i);
        var j :| 0 <= j < |out| && out[j].index == i;
        assert Labels(out)[j] == i;
      }
      if i in Labels(out) {
        var j :| 0 <= j < |out| && Labels(out)[j] == i;
      }
    }
  }
}

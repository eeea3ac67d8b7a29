/** `load_and_clean_data` (deepseek.py): drop incomplete rows, drop repeated
    rows, normalise the header, trim string cells, then check that the five
    required columns are present. Reading the spreadsheet is outside the
    model: its outcome is the `read` argument, `None` when the read fails. */
module Cleaning {

  import opened Tables
  import opened Text
  import opened Seqs

  /** The columns a cleaned table must have, in the order they are checked. */
  const RequiredColumns: seq<string> := ["statename", "district", "officetype", "regionname", "delivery"]

  /** `dropna()`: the rows without a missing cell in any column, in order. */
  function DropMissing(rows: seq<Row>): (r: seq<Row>)
    ensures forall i :: 0 <= i < |r| ==> Missing !in r[i]
    ensures forall i :: 0 <= i < |r| ==> r[i] in rows
  {
    if rows == [] then []
    else (if Missing in rows[0] then [] else [rows[0]]) + DropMissing(rows[1..])
  }

  /** Every complete row survives `dropna()` with all of its copies. */
  lemma {:induction false} DropMissingKeepsComplete(rows: seq<Row>, row: Row)
    requires Missing !in row
    ensures Count(DropMissing(rows), row) == Count(rows, row)
  {
    if rows != [] {
      DropMissingKeepsComplete(rows[1..], row);
      var head := if Missing in rows[0] then [] else [rows[0]];
      CountConcat(head, DropMissing(rows[1..]), row);
    }
  }

  /** `dropna()` works row by row: it commutes with concatenation, so the kept
      rows stay in their original order. */
  lemma {:induction false} DropMissingConcat(a: seq<Row>, b: seq<Row>)
    ensures DropMissing(a + b) == DropMissing(a) + DropMissing(b)
  {
    if a == [] {
      assert a + b == b;
    } else {
      assert (a + b)[1..] == a[1..] + b;
      DropMissingConcat(a[1..], b);
    }
  }

  /** Complete rows appear after `dropna()` in the order of their first
      occurrence in the input. */
  lemma {:induction false} DropMissingKeepsOrder(rows: seq<Row>, x: Row, y: Row)
    requires x in DropMissing(rows) && y in DropMissing(rows)
    requires IndexOf(DropMissing(rows), x) < IndexOf(DropMissing(rows), y)
    ensures x in rows && y in rows && IndexOf(rows, x) < IndexOf(rows, y)
  {
    var d := DropMissing(rows);
    var rest := DropMissing(rows[1..]);
    if Missing in rows[0] {
      assert d == rest;
      DropMissingKeepsOrder(rows[1..], x, y);
    } else {
      assert d == [rows[0]] + rest;
      if x != rows[0] {
        assert y != rows[0];
        assert x in rest && y in rest;
        assert IndexOf(d, x) == 1 + IndexOf(rest, x);
        assert IndexOf(d, y) == 1 + IndexOf(rest, y);
        DropMissingKeepsOrder(rows[1..], x, y);
      }
    }
  }

  /** The rows kept by `dropna()` followed by `drop_duplicates()`, before
      their cells are trimmed. */
  function PreTrimRows(rows: seq<Row>): seq<Row>
  {
    Dedup(DropMissing(rows))
  }

  /** The kept rows are exactly the distinct complete rows of the input, each
      once, in the order in which each first appears in the input. */
  lemma PreTrimRowsSpec(rows: seq<Row>)
    ensures forall i :: 0 <= i < |PreTrimRows(rows)| ==> Missing !in PreTrimRows(rows)[i]
    ensures Distinct(PreTrimRows(rows))
    ensures forall row :: row in PreTrimRows(rows) <==> row in rows && Missing !in row
    ensures forall i, j :: 0 <= i < j < |PreTrimRows(rows)| ==>
              IndexOf(rows, PreTrimRows(rows)[i]) < IndexOf(rows, PreTrimRows(rows)[j])
  {
    var d := DropMissing(rows);
    var p := PreTrimRows(rows);
    DedupMembers(d);
    DedupKeepsFirstOccurrences(d);
    forall row | row in rows && Missing !in row ensures row in p {
      DropMissingKeepsComplete(rows, row);
    }
    forall i, j | 0 <= i < j < |p| ensures IndexOf(rows, p[i]) < IndexOf(rows, p[j]) {
      DropMissingKeepsOrder(rows, p[i], p[j]);
    }
  }

  /** Trimming of one cell: strings are stripped, other cells pass unchanged. */
  function StripCell(c: Cell): Cell
  {
    if c.Str? then Str(Strip(c.s)) else c
  }

  function StripRow(row: Row): Row
  {
    seq(|row|, j requires 0 <= j < |row| => StripCell(row[j]))
  }

  /** `applymap(lambda x: x.strip() if isinstance(x, str) else x)`. */
  function StripCells(rows: seq<Row>): seq<Row>
  {
    seq(|rows|, i requires 0 <= i < |rows| => StripRow(rows[i]))
  }

  /** Trimming keeps the shape of the table, trims every string cell to a
      value without surrounding whitespace, and leaves other cells (missing
      ones included) as they were. */
  lemma StripCellsSpec(rows: seq<Row>)
    ensures |StripCells(rows)| == |rows|
    ensures forall i :: 0 <= i < |rows| ==> |StripCells(rows)[i]| == |rows[i]|
    ensures forall i, j :: 0 <= i < |rows| && 0 <= j < |rows[i]| && rows[i][j].Str? ==>
              StripCells(rows)[i][j].Str? && StripCells(rows)[i][j].s == Strip(rows[i][j].s)
              && Trimmed(StripCells(rows)[i][j].s)
    ensures forall i, j :: 0 <= i < |rows| && 0 <= j < |rows[i]| && !rows[i][j].Str? ==>
              StripCells(rows)[i][j] == rows[i][j]
  {
    var out := StripCells(rows);
    forall i, j | 0 <= i < |rows| && 0 <= j < |rows[i]|
      ensures out[i][j] == StripCell(rows[i][j])
    {
      assert out[i] == StripRow(rows[i]);
    }
    forall i, j | 0 <= i < |rows| && 0 <= j < |rows[i]| && rows[i][j].Str?
      ensures Trimmed(Strip(rows[i][j].s))
    {
      var _, _ := StripRemovesSurroundingSpace(rows[i][j].s);
    }
  }

  /** `df.columns.str.strip().str.lower()`. */
  function NormalizeHeader(header: seq<string>): seq<string>
  {
    seq(|header|, i requires 0 <= i < |header| => NormalizeName(header[i]))
  }

  /** Position in `required` of the first column absent from `header`, the
      column whose check raises; `None` when every one is present. */
  function FirstMissing(header: seq<string>, required: seq<string>): (m: Option<nat>)
    ensures m.None? <==> forall c :: c in required ==> c in header
    ensures m.Some? ==> m.value < |required| && required[m.value] !in header
    ensures m.Some? ==> forall k :: 0 <= k < m.value ==> required[k] in header
  {
    if required == [] then None
    else if required[0] !in header then Some(0)
    else
      match FirstMissing(header, required[1..])
      case None => None
      case Some(k) => Some(k + 1)
  }

  /** The result of `load_and_clean_data` given the outcome of the read. */
  function Cleaned(read: Option<Table>): Option<Table>
  {
    match read
    case None => None
    case Some(df) =>
      var header := NormalizeHeader(df.header);
      if FirstMissing(header, RequiredColumns).Some? then None
      else Some(Table(header, StripCells(PreTrimRows(df.rows))))
  }

  /** The loop over the required columns, raising at the first absent one. */
  method VerifyRequiredColumns(header: seq<string>) returns (missing: Option<nat>)
    ensures missing == FirstMissing(header, RequiredColumns)
  {
    var required := RequiredColumns;
    var i := 0;
    while i < |required|
      invariant 0 <= i <= |required|
      invariant forall k :: 0 <= k < i ==> required[k] in header
    {
      if required[i] !in header {
        return Some(i);
      }
      i := i + 1;
    }
    return None;
  }

  /** `load_and_clean_data`, step by step: each stage produces a new table and
      any exception (a failed read, an absent required column) yields `None`. */
  method LoadAndClean(read: Option<Table>) returns (result: Option<Table>)
    ensures result == Cleaned(read)
  {
    if read.None? {
      return None;
    }
    var df := read.value;
    var rows := DropMissing(df.rows);
    rows := Dedup(rows);
    var header := NormalizeHeader(df.header);
    rows := StripCells(rows);
    var missing := VerifyRequiredColumns(header);
    if missing.Some? {
      return None;
    }
    return Some(Table(header, rows));
  }

  /** The cleaning fails exactly when the read fails or a required column is
      absent from the normalised header; a cleaned table has all five. */
  lemma CleanedFailsIff(read: Option<Table>)
    ensures Cleaned(read).None? <==>
              read.None? ||
              exists k :: 0 <= k < |RequiredColumns| && RequiredColumns[k] !in NormalizeHeader(read.value.header)
    ensures Cleaned(read).Some? ==> forall c :: c in RequiredColumns ==> c in Cleaned(read).value.header
  {
    if read.Some? {
      var header := NormalizeHeader(read.value.header);
      var m := FirstMissing(header, RequiredColumns);
      if m.Some? {
        assert RequiredColumns[m.value] !in header;
      }
    }
  }

  /** The cleaned header has one name per input column, in the same order;
      each is the input name stripped then lowercased, with no surrounding
      whitespace and no upper-case letter left. */
  lemma CleanedHeader(read: Option<Table>)
    requires Cleaned(read).Some?
    ensures |Cleaned(read).value.header| == |read.value.header|
    ensures forall i :: 0 <= i < |read.value.header| ==>
              Cleaned(read).value.header[i] == Lower(Strip(read.value.header[i]))
    ensures forall i :: 0 <= i < |read.value.header| ==>
              Trimmed(Cleaned(read).value.header[i])
              && forall k :: 0 <= k < |Cleaned(read).value.header[i]| ==> !IsUpper(Cleaned(read).value.header[i][k])
  {
    var h := read.value.header;
    forall i | 0 <= i < |h|
      ensures Trimmed(NormalizeName(h[i]))
      ensures forall k :: 0 <= k < |NormalizeName(h[i])| ==> !IsUpper(NormalizeName(h[i])[k])
    {
      var _, _ := NormalizeNameSpec(h[i]);
    }
  }

  /** The cleaned rows are the kept rows of `PreTrimRows` with their string
      cells stripped: same number of rows, same number of cells per row, no
      missing cell anywhere, every string cell without surrounding whitespace. */
  lemma CleanedRows(read: Option<Table>)
    requires Cleaned(read).Some?
    ensures |Cleaned(read).value.rows| == |PreTrimRows(read.value.rows)|
    ensures forall i :: 0 <= i < |Cleaned(read).value.rows| ==>
              Cleaned(read).value.rows[i] == StripRow(PreTrimRows(read.value.rows)[i])
              && |Cleaned(read).value.rows[i]| == |PreTrimRows(read.value.rows)[i]|
    ensures forall i :: 0 <= i < |Cleaned(read).value.rows| ==> Missing !in Cleaned(read).value.rows[i]
    ensures forall i, j ::
              0 <= i < |Cleaned(read).value.rows| && 0 <= j < |Cleaned(read).value.rows[i]| &&
              Cleaned(read).value.rows[i][j].Str? ==>
                Trimmed(Cleaned(read).value.rows[i][j].s)
  {
    var p := PreTrimRows(read.value.rows);
    var rows := Cleaned(read).value.rows;
    assert rows == StripCells(p);
    PreTrimRowsSpec(read.value.rows);
    StripCellsSpec(p);
    forall i | 0 <= i < |rows| ensures Missing !in rows[i] {
      assert Missing !in p[i];
      forall j | 0 <= j < |rows[i]| ensures rows[i][j] != Missing {
        assert p[i][j] != Missing;
      }
    }
  }

  /** A well-formed input gives a well-formed cleaned table. */
  lemma CleanedWellFormed(read: Option<Table>)
    requires read.Some? && WellFormed(read.value)
    requires Cleaned(read).Some?
    ensures WellFormed(Cleaned(read).value)
  {
    var p := PreTrimRows(read.value.rows);
    DedupMembers(DropMissing(read.value.rows));
    CleanedRows(read);
    assert forall i :: 0 <= i < |p| ==> p[i] in read.value.rows;
  }

  lemma PreTrimDistinctPair(a: Row, b: Row)
    requires a != b && Missing !in a && Missing !in b
    ensures PreTrimRows([a, b]) == [a, b]
  {
    assert DropMissing([b]) == [b] by {
      assert [b][1..] == [];
    }
    assert DropMissing([a, b]) == [a] + DropMissing([b]) by {
      assert [a, b][1..] == [b];
    }
    assert Dedup([a]) == [a] by {
      assert [a][..0] == [];
    }
    assert [a, b][..1] == [a];
    assert Dedup([a, b]) == Dedup([a]) + [b];
  }

  /** Duplicates are dropped before cells are trimmed, so two complete rows
      that differ only in surrounding whitespace both survive and are equal in
      the cleaned table. */
  lemma TrimmedRepeatsSurvive(header: seq<string>, a: Row, b: Row)
    requires a != b && Missing !in a && Missing !in b
    requires StripRow(a) == StripRow(b)
    requires Cleaned(Some(Table(header, [a, b]))).Some?
    ensures Cleaned(Some(Table(header, [a, b]))).value.rows == [StripRow(a), StripRow(a)]
  {
    PreTrimDistinctPair(a, b);
    assert StripCells([a, b]) == [StripRow(a), StripRow(b)];
  }
}

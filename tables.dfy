/** The in-memory table the postal-data pipeline works on: a header of column
    names and rows of cells. A spreadsheet read that fails is `None`. */
module Tables {

  import opened Seqs

  datatype Option<+T> = None | Some(value: T)

  /** One cell of the table. `Missing` stands for pandas' NaN/None; every
      non-string value (numbers, dates, ...) is abstracted as `Other`. */
  datatype Cell = Missing | Str(s: string) | Other(n: int)

  type Row = seq<Cell>

  datatype Table = Table(header: seq<string>, rows: seq<Row>)

  /** Every row has one cell per column, as in any data frame. */
  predicate WellFormed(t: Table)
  {
    forall r :: r in t.rows ==> |r| == |t.header|
  }

  /** The values of column `name`, one per row (`df[name]`). */
  function Column(t: Table, name: string): (col: seq<Cell>)
    requires WellFormed(t) && name in t.header
    ensures |col| == |t.rows|
    ensures forall i :: 0 <= i < |col| ==> col[i] == t.rows[i][IndexOf(t.header, name)]
  {
    var k := IndexOf(t.header, name);
    seq(|t.rows|, i requires 0 <= i < |t.rows| => t.rows[i][k])
  }
}

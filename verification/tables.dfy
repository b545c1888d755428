/** The data frames the splitting step moves around, reduced to what it
    relies on: ordered column labels and ordered rows of cells.
 */
module Tables {

  /** A column label: a name taken from a header line, or the position
      pandas assigns when a section is read without one. */
  datatype Label = Named(name: string) | Position(index: nat)

  /** A cell: the text of a field, or the missing value pandas puts where a
      record is shorter than the table or a merged table lacks a column. */
  datatype Cell = Field(text: string) | Missing

  type Row = seq<Cell>

  datatype Table = Table(columns: seq<Label>, rows: seq<Row>)

  /** Every row has one cell per column. */
  predicate Rectangular(t: Table) {
    forall i :: 0 <= i < |t.rows| ==> |t.rows[i]| == |t.columns|
  }

  /** The labels `0, 1, ..., n - 1` of a table read without a header line. */
  function Positions(n: nat): (cols: seq<Label>)
    ensures |cols| == n
  {
    seq(n, i requires 0 <= i < n => Position(i))
  }

  /** The first position of `l` in `cols`. */
  function IndexOf(cols: seq<Label>, l: Label): (j: nat)
    requires l in cols
    ensures j < |cols| && cols[j] == l
    ensures forall k :: 0 <= k < j ==> cols[k] != l
  {
    if cols[0] == l then 0 else 1 + IndexOf(cols[1..], l)
  }
}

/** `pandas.read_csv(buffer, sep='\t', header=...)` on the lines buffered for
    one section: blank lines are skipped, each remaining line is split at
    tabs, the first record is the header unless the section is read without
    one, a record shorter than the table is padded with missing cells and a
    longer one is a parse error. Type inference, quoting and missing-value
    detection are not modelled: every cell keeps its text.
 */
module Reader {
  import opened Outcomes
  import opened Strings
  import opened Tables

  const Tab: char := '\t'

  /** The non-blank lines of a buffer, each split into its fields. */
  function Records(lines: seq<string>): (recs: seq<seq<string>>)
    ensures |recs| <= |lines|
  {
    if lines == [] then []
    else
      var l := Chomp(lines[0]);
      if l == "" then Records(lines[1..]) else [Split(l, Tab)] + Records(lines[1..])
  }

  /** The header record as column labels. */
  function HeaderLabels(fields: seq<string>): (cols: seq<Label>)
    ensures |cols| == |fields|
  {
    seq(|fields|, j requires 0 <= j < |fields| => Named(fields[j]))
  }

  /** A record as a row of `width` cells, missing cells at the end. */
  function Pad(fields: seq<string>, width: nat): (row: Row)
    requires |fields| <= width
    ensures |row| == width
  {
    seq(width, j requires 0 <= j < width => if j < |fields| then Field(fields[j]) else Missing)
  }

  /** Every record fits a table of `width` columns. */
  predicate Fits(recs: seq<seq<string>>, width: nat) {
    forall i :: 0 <= i < |recs| ==> |recs[i]| <= width
  }

  /** The data records as rows of a `width`-column table; the first record
      that is too long is a parse error. */
  function ReadRows(recs: seq<seq<string>>, width: nat): (r: Result<seq<Row>>)
    ensures r.Ok? <==> Fits(recs, width)
    ensures r.Ok? ==> |r.value| == |recs|
    ensures r.Ok? ==> forall i :: 0 <= i < |recs| ==> r.value[i] == Pad(recs[i], width)
    ensures r.Err? ==> r.error.FieldCount? && r.error.expected == width && r.error.saw > width
  {
    if recs == [] then Ok([])
    else if |recs[0]| > width then Err(FieldCount(width, |recs[0]|))
    else
      var rest :- ReadRows(recs[1..], width);
      Ok([Pad(recs[0], width)] + rest)
  }

  /** The records that are data rather than header. */
  function DataRecords(recs: seq<seq<string>>, header: bool): seq<seq<string>>
    requires recs != []
  {
    if header then recs[1..] else recs
  }

  /** The table pandas reads from a section's buffered lines; `header` is
      false for the positional read. */
  function ReadTable(lines: seq<string>, header: bool): Result<Table> {
    var recs := Records(lines);
    if recs == [] then Err(EmptyData)
    else
      var width := |recs[0]|;
      var columns := if header then HeaderLabels(recs[0]) else Positions(width);
      var rows :- ReadRows(DataRecords(recs, header), width);
      Ok(Table(columns, rows))
  }

  /** What a read gives: nothing to read is EmptyData; otherwise the read
      fails exactly when a data record has more fields than the first
      record, and succeeds with a rectangular table whose columns come from
      the first record (named by it, or numbered when there is no header
      line) and with one row per remaining record, each holding that
      record's fields followed by missing cells. */
  lemma ReadTableShape(lines: seq<string>, header: bool)
    ensures var r := ReadTable(lines, header);
      var recs := Records(lines);
      && (recs == [] ==> r == Err(EmptyData))
      && (recs != [] ==> (r.Ok? <==> Fits(DataRecords(recs, header), |recs[0]|)))
      && (r.Err? && recs != [] ==> r.error.FieldCount?)
      && (r.Ok? ==> Rectangular(r.value) && |r.value.columns| == |recs[0]|)
      && (r.Ok? ==> |r.value.rows| == |recs| - (if header then 1 else 0))
      && (r.Ok? && header ==> forall j :: 0 <= j < |recs[0]| ==> r.value.columns[j] == Named(recs[0][j]))
      && (r.Ok? && !header ==> forall j :: 0 <= j < |recs[0]| ==> r.value.columns[j] == Position(j))
      && (r.Ok? ==> forall i, j :: 0 <= i < |r.value.rows| && 0 <= j < |recs[0]| ==>
            r.value.rows[i][j] ==
              var rec := recs[i + (if header then 1 else 0)];
              if j < |rec| then Field(rec[j]) else Missing)
  {
  }

  /** The fields of a named header. */
  function Names(cols: seq<Label>): (names: seq<string>)
    requires forall j :: 0 <= j < |cols| ==> cols[j].Named?
    ensures |names| == |cols|
  {
    seq(|cols|, j requires 0 <= j < |cols| => cols[j].name)
  }

  /** The fields of a row with no missing cell. */
  function Texts(row: Row): (texts: seq<string>)
    requires forall j :: 0 <= j < |row| ==> row[j].Field?
    ensures |texts| == |row|
  {
    seq(|row|, j requires 0 <= j < |row| => row[j].text)
  }

  /** One line of tab-separated fields. */
  function Line(fields: seq<string>): string
    requires |fields| >= 1
  {
    Join(fields, Tab) + [Newline]
  }

  /** A table that reads back from its tab-separated text unchanged: every
      label and cell is plain text without a tab, no line is blank, and a
      table without a header line has positional labels and a first row. */
  predicate Renderable(t: Table, header: bool) {
    && |t.columns| >= 1
    && Rectangular(t)
    && (forall i, j :: 0 <= i < |t.rows| && 0 <= j < |t.rows[i]| ==>
          t.rows[i][j].Field? && Tab !in t.rows[i][j].text)
    && (forall i :: 0 <= i < |t.rows| ==> Join(Texts(t.rows[i]), Tab) != "")
    && (header ==>
          && (forall j :: 0 <= j < |t.columns| ==> t.columns[j].Named? && Tab !in t.columns[j].name)
          && Join(Names(t.columns), Tab) != "")
    && (!header ==> t.columns == Positions(|t.columns|) && |t.rows| >= 1)
  }

  /** The tab-separated text of a table: its header line when it has one,
      then one line per row. */
  function Render(t: Table, header: bool): (lines: seq<string>)
    requires Renderable(t, header)
    ensures |lines| == |t.rows| + (if header then 1 else 0)
  {
    (if header then [Line(Names(t.columns))] else [])
      + seq(|t.rows|, i requires 0 <= i < |t.rows| => Line(Texts(t.rows[i])))
  }

  /** With no blank line, the records are the lines' fields one for one. */
  lemma {:induction false} RecordsNoBlank(lines: seq<string>)
    requires forall i :: 0 <= i < |lines| ==> Chomp(lines[i]) != ""
    ensures |Records(lines)| == |lines|
    ensures forall i :: 0 <= i < |lines| ==> Records(lines)[i] == Split(Chomp(lines[i]), Tab)
  {
    if lines != [] {
      RecordsNoBlank(lines[1..]);
    }
  }

  /** A rendered line reads back as the fields it was written from. */
  lemma {:induction false} LineFields(fs: seq<string>)
    requires |fs| >= 1
    requires forall j :: 0 <= j < |fs| ==> Tab !in fs[j]
    ensures Chomp(Line(fs)) == Join(fs, Tab)
    ensures Split(Chomp(Line(fs)), Tab) == fs
  {
    var l := Line(fs);
    assert l[..|l| - 1] == Join(fs, Tab);
    SplitJoin(fs, Tab);
  }

  /** The records of a rendered table: its header fields, then each row's texts. */
  lemma RenderRecords(t: Table, header: bool)
    requires Renderable(t, header)
    ensures Records(Render(t, header)) ==
      (if header then [Names(t.columns)] else []) + seq(|t.rows|, i requires 0 <= i < |t.rows| => Texts(t.rows[i]))
  {
    var lines := Render(t, header);
    var off := if header then 1 else 0;
    var want := (if header then [Names(t.columns)] else []) + seq(|t.rows|, i requires 0 <= i < |t.rows| => Texts(t.rows[i]));
    forall i | 0 <= i < |lines|
      ensures Chomp(lines[i]) != ""
      ensures Split(Chomp(lines[i]), Tab) == want[i]
    {
      if header && i == 0 {
        assert lines[i] == Line(Names(t.columns));
        LineFields(Names(t.columns));
      } else {
        assert lines[i] == Line(Texts(t.rows[i - off]));
        LineFields(Texts(t.rows[i - off]));
      }
    }
    RecordsNoBlank(lines);
  }

  /** Padding the texts of a full row to its own width gives the row back. */
  lemma PadTexts(row: Row)
    requires forall j :: 0 <= j < |row| ==> row[j].Field?
    ensures Pad(Texts(row), |row|) == row
  {
  }

  /** Reading the rendered text of a table gives the table back. */
  lemma ReadRender(t: Table, header: bool)
    requires Renderable(t, header)
    ensures ReadTable(Render(t, header), header) == Ok(t)
  {
    RenderRecords(t, header);
    var recs := Records(Render(t, header));
    var width := |recs[0]|;
    assert width == |t.columns|;
    var data := DataRecords(recs, header);
    assert |data| == |t.rows|;
    forall i | 0 <= i < |data|
      ensures Pad(data[i], width) == t.rows[i]
    {
      assert data[i] == Texts(t.rows[i]);
      PadTexts(t.rows[i]);
    }
    var columns := if header then HeaderLabels(recs[0]) else Positions(width);
    assert columns == t.columns;
    var rows := ReadRows(data, width);
    assert rows.value == t.rows;
  }
}

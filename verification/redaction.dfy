/** Dropping the configured columns from the designated table
    (`df.drop(columns=special_cols)` in `SplittingTablesTask._ext_processing`).

    pandas refuses the whole drop, listing the offenders, when a name to
    drop is not a column; otherwise every column carrying one of the names
    goes and the others keep their order and their cells. A name is a
    string, so it never matches the positional label of a table read
    without a header line.
 */
module Redaction {
  import opened Outcomes
  import opened Dicts
  import opened Tables
  import opened Seqs

  /** Whether label `l` is one of the names to drop. */
  predicate Dropped(l: Label, drop: seq<string>) {
    l.Named? && l.name in drop
  }

  /** The names to drop that are not columns, in the order given. */
  function Absent(columns: seq<Label>, drop: seq<string>): seq<string> {
    if drop == [] then []
    else
      Absent(columns, drop[..|drop| - 1])
        + if Named(drop[|drop| - 1]) in columns then [] else [drop[|drop| - 1]]
  }

  /** The positions of the columns that stay, in increasing order. */
  function Kept(columns: seq<Label>, drop: seq<string>): (keep: seq<nat>)
    ensures forall m :: 0 <= m < |keep| ==> keep[m] < |columns|
  {
    if columns == [] then []
    else
      var n := |columns| - 1;
      Kept(columns[..n], drop) + if Dropped(columns[n], drop) then [] else [n]
  }

  /** The cells of a row at the given positions. */
  function Pick(row: Row, keep: seq<nat>): (r: Row)
    ensures |r| == |keep|
  {
    seq(|keep|, m requires 0 <= m < |keep| => if keep[m] < |row| then row[keep[m]] else Missing)
  }

  /** The table without the columns named in `drop`. */
  function Redact(t: Table, drop: seq<string>): (r: Result<Table>)
    ensures r.Err? <==> exists c :: c in drop && Named(c) !in t.columns
    ensures r.Err? ==> r.error.MissingColumns?
    ensures r.Err? ==> forall c :: c in r.error.labels <==> c in drop && Named(c) !in t.columns
    ensures r.Ok? ==> |r.value.rows| == |t.rows| && Rectangular(r.value)
  {
    AbsentSpec(t.columns, drop);
    var missing := Absent(t.columns, drop);
    if missing != [] then
      assert missing[0] in drop && Named(missing[0]) !in t.columns;
      Err(MissingColumns(missing))
    else
      var keep := Kept(t.columns, drop);
      Ok(Table(seq(|keep|, m requires 0 <= m < |keep| => t.columns[keep[m]]),
               seq(|t.rows|, i requires 0 <= i < |t.rows| => Pick(t.rows[i], keep))))
  }

  lemma {:induction false} AbsentSpec(columns: seq<Label>, drop: seq<string>)
    ensures forall c :: c in Absent(columns, drop) <==> c in drop && Named(c) !in columns
  {
    if drop != [] {
      var n := |drop| - 1;
      AbsentSpec(columns, drop[..n]);
      LastSplit(drop);
    }
  }

  /** The kept positions are increasing and are exactly the positions of
      the columns not named in `drop`. */
  lemma {:induction false} KeptSpec(columns: seq<Label>, drop: seq<string>)
    ensures var keep := Kept(columns, drop);
      && (forall a, b :: 0 <= a < b < |keep| ==> keep[a] < keep[b])
      && (forall j :: 0 <= j < |columns| ==> (j in keep <==> !Dropped(columns[j], drop)))
  {
    if columns != [] {
      var n := |columns| - 1;
      KeptSpec(columns[..n], drop);
      forall j | 0 <= j < n
        ensures columns[..n][j] == columns[j]
      {
      }
    }
  }

  /** A successful drop keeps every column not named in `drop`, in the
      original order, each with the cells it had, and removes every column
      that is named there. */
  lemma RedactKeeps(t: Table, drop: seq<string>)
    requires Rectangular(t)
    requires Redact(t, drop).Ok?
    ensures var r := Redact(t, drop).value;
      var keep := Kept(t.columns, drop);
      && |r.columns| == |keep|
      && (forall a, b :: 0 <= a < b < |keep| ==> keep[a] < keep[b])
      && (forall j :: 0 <= j < |t.columns| ==> (j in keep <==> !Dropped(t.columns[j], drop)))
      && (forall m :: 0 <= m < |keep| ==> r.columns[m] == t.columns[keep[m]])
      && (forall i, m :: 0 <= i < |t.rows| && 0 <= m < |keep| ==> r.rows[i][m] == t.rows[i][keep[m]])
  {
    KeptSpec(t.columns, drop);
  }

  /** After a successful drop, a label is a column exactly when it was one
      and is not named in `drop`. */
  lemma RedactColumns(t: Table, drop: seq<string>, l: Label)
    requires Redact(t, drop).Ok?
    ensures l in Redact(t, drop).value.columns <==> l in t.columns && !Dropped(l, drop)
  {
    var r := Redact(t, drop).value;
    var keep := Kept(t.columns, drop);
    KeptSpec(t.columns, drop);
    if l in r.columns {
      var m :| 0 <= m < |r.columns| && r.columns[m] == l;
      assert t.columns[keep[m]] == l;
    }
    if l in t.columns && !Dropped(l, drop) {
      var j :| 0 <= j < |t.columns| && t.columns[j] == l;
      assert j in keep;
      var m :| 0 <= m < |keep| && keep[m] == j;
      assert r.columns[m] == l;
    }
  }

  /** Nothing to drop leaves a rectangular table as it was. */
  lemma RedactNothing(t: Table)
    requires Rectangular(t)
    ensures Redact(t, []) == Ok(t)
  {
    var keep := Kept(t.columns, []);
    KeptAll(t.columns);
    assert forall m :: 0 <= m < |keep| ==> keep[m] == m;
    var r := Redact(t, []).value;
    assert r.columns == t.columns;
    forall i | 0 <= i < |t.rows|
      ensures r.rows[i] == t.rows[i]
    {
      assert r.rows[i] == Pick(t.rows[i], keep);
    }
    assert r.rows == t.rows;
  }

  lemma {:induction false} KeptAll(columns: seq<Label>)
    ensures Kept(columns, []) == seq(|columns|, j requires 0 <= j < |columns| => j)
  {
    if columns != [] {
      var n := |columns| - 1;
      KeptAll(columns[..n]);
    }
  }

  /** Dropping the same names twice fails the second time: the first drop
      removed the columns the second one asks for. */
  lemma RedactTwice(t: Table, drop: seq<string>)
    requires drop != []
    requires Redact(t, drop).Ok?
    ensures Redact(Redact(t, drop).value, drop).Err?
  {
    RedactColumns(t, drop, Named(drop[0]));
  }
}

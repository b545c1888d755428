/** Merging the per-file tables of the manifest (`SplittingTablesTask.run`):
    every file's tables are appended, name by name, to one list per section
    name (`datasets[key].append(df)`), and each list is concatenated into one
    table (`pd.concat`). Names keep the order in which the manifest first
    shows them.

    Concatenation keeps the columns when every table has the same ones;
    otherwise the columns are the union in order of first appearance and a
    table without a column gets missing cells there.
 */
module Aggregation {
  import opened Outcomes
  import opened Dicts
  import opened Tables
  import opened Seqs

  // ---------------------------------------------------------------------
  // Ordered union

  /** The elements of `xs` not in `seen`, each once, in order of first appearance. */
  function Unseen<T(==)>(seen: seq<T>, xs: seq<T>): (r: seq<T>)
    ensures forall x :: x in r ==> x in xs && x !in seen
    ensures |r| <= |xs|
    decreases |xs|
  {
    if xs == [] then []
    else if xs[0] in seen then Unseen(seen, xs[1..])
    else [xs[0]] + Unseen(seen + [xs[0]], xs[1..])
  }

  /** Appending the unseen elements keeps every element once and loses none. */
  lemma UnseenExtends<T>(seen: seq<T>, xs: seq<T>)
    requires NoDup(seen)
    ensures NoDup(seen + Unseen(seen, xs))
    ensures forall x :: x in seen + Unseen(seen, xs) <==> x in seen || x in xs
  {
    UnseenDistinct(seen, xs);
    UnseenCovers(seen, xs);
  }

  lemma {:induction false} UnseenDistinct<T>(seen: seq<T>, xs: seq<T>)
    requires NoDup(seen)
    ensures NoDup(seen + Unseen(seen, xs))
    decreases |xs|
  {
    if xs != [] {
      var x := xs[0];
      var rest := xs[1..];
      if x in seen {
        UnseenDistinct(seen, rest);
      } else {
        var seen' := seen + [x];
        NoDupAppend(seen, x);
        UnseenDistinct(seen', rest);
        assert seen + Unseen(seen, xs) == seen' + Unseen(seen', rest);
      }
    }
  }

  lemma {:induction false} UnseenCovers<T>(seen: seq<T>, xs: seq<T>)
    ensures forall x :: x in seen + Unseen(seen, xs) <==> x in seen || x in xs
    decreases |xs|
  {
    if xs != [] {
      var x := xs[0];
      var rest := xs[1..];
      assert xs == [x] + rest;
      if x in seen {
        UnseenCovers(seen, rest);
      } else {
        var seen' := seen + [x];
        UnseenCovers(seen', rest);
        assert seen + Unseen(seen, xs) == seen' + Unseen(seen', rest);
      }
    }
  }

  // ---------------------------------------------------------------------
  // Grouping by section name

  /** The tables listed under `k` so far. */
  function Listed(groups: Dict<seq<Table>>, k: string): seq<Table> {
    match Get(groups, k)
    case Some(ts) => ts
    case None => []
  }

  /** `datasets[k].append(t)` on a `defaultdict(list)`. */
  function Append(groups: Dict<seq<Table>>, k: string, t: Table): Dict<seq<Table>> {
    Put(groups, k, Listed(groups, k) + [t])
  }

  /** Appending every table of one file, in the file's order. */
  function AddFile(groups: Dict<seq<Table>>, file: Dict<Table>): Dict<seq<Table>>
    decreases |file|
  {
    if file == [] then groups else AddFile(Append(groups, file[0].0, file[0].1), file[1..])
  }

  /** The lists of tables per section name after the whole manifest. */
  function Group(files: seq<Dict<Table>>): Dict<seq<Table>> {
    if files == [] then [] else AddFile(Group(files[..|files| - 1]), files[|files| - 1])
  }

  /** The section names in the order the manifest first shows them. */
  function FirstSeen(files: seq<Dict<Table>>): seq<string> {
    if files == [] then []
    else
      var prev := FirstSeen(files[..|files| - 1]);
      prev + Unseen(prev, Keys(files[|files| - 1]))
  }

  /** The tables the files hold under `k`, in manifest order. */
  function Collect(files: seq<Dict<Table>>, k: string): seq<Table> {
    if files == [] then []
    else
      Collect(files[..|files| - 1], k)
        + match Get(files[|files| - 1], k) case Some(t) => [t] case None => []
  }

  /** Every file has each section name at most once, as a Python dict does. */
  predicate UniqueNames(files: seq<Dict<Table>>) {
    forall i :: 0 <= i < |files| ==> NoDup(Keys(files[i]))
  }

  lemma {:induction false} AddFileKeys(groups: Dict<seq<Table>>, file: Dict<Table>)
    ensures Keys(AddFile(groups, file)) == Keys(groups) + Unseen(Keys(groups), Keys(file))
    decreases |file|
  {
    if file != [] {
      var k := file[0].0;
      var g' := Append(groups, k, file[0].1);
      var ks := Keys(file);
      var rest := Keys(file[1..]);
      KeysFront(file);
      ConsTail(k, rest);
      AddFileKeys(g', file[1..]);
      if k !in Keys(groups) {
        var u := Unseen(Keys(groups) + [k], rest);
        assert Unseen(Keys(groups), ks) == [k] + u;
        Assoc(Keys(groups), [k], u);
      }
    }
  }

  lemma {:induction false} AddFileGet(groups: Dict<seq<Table>>, file: Dict<Table>, k: string)
    requires NoDup(Keys(file))
    ensures Listed(AddFile(groups, file), k) ==
      Listed(groups, k) + match Get(file, k) case Some(t) => [t] case None => []
    decreases |file|
  {
    if file != [] {
      var g' := Append(groups, file[0].0, file[0].1);
      assert NoDup(Keys(file[1..])) && (file[0].0 !in Keys(file[1..])) by {
        forall i | 0 <= i < |file| - 1
          ensures Keys(file[1..])[i] == Keys(file)[i + 1]
        {
          assert file[1..][i] == file[i + 1];
        }
        assert Keys(file)[0] == file[0].0;
      }
      AddFileGet(g', file[1..], k);
      GetNone(file[1..], k);
    }
  }

  /** Grouping lists each section name once, in first-seen order, with the
      tables the files hold under it in manifest order. */
  lemma {:induction false} GroupSpec(files: seq<Dict<Table>>)
    requires UniqueNames(files)
    ensures Keys(Group(files)) == FirstSeen(files)
    ensures NoDup(FirstSeen(files))
    ensures forall k :: k in FirstSeen(files) <==> exists i :: 0 <= i < |files| && k in Keys(files[i])
    ensures forall k :: Listed(Group(files), k) == Collect(files, k)
  {
    GroupKeys(files);
    FirstSeenDistinct(files);
    FirstSeenCovers(files);
    forall k
      ensures Listed(Group(files), k) == Collect(files, k)
    {
      GroupListed(files, k);
    }
  }

  lemma {:induction false} GroupKeys(files: seq<Dict<Table>>)
    ensures Keys(Group(files)) == FirstSeen(files)
  {
    if files != [] {
      var n := |files|;
      GroupKeys(files[..n - 1]);
      AddFileKeys(Group(files[..n - 1]), files[n - 1]);
    }
  }

  lemma {:induction false} FirstSeenDistinct(files: seq<Dict<Table>>)
    ensures NoDup(FirstSeen(files))
  {
    if files != [] {
      var n := |files|;
      FirstSeenDistinct(files[..n - 1]);
      UnseenDistinct(FirstSeen(files[..n - 1]), Keys(files[n - 1]));
    }
  }

  lemma {:induction false} FirstSeenCovers(files: seq<Dict<Table>>)
    ensures forall k :: k in FirstSeen(files) <==> exists i :: 0 <= i < |files| && k in Keys(files[i])
  {
    if files != [] {
      var n := |files|;
      var front := files[..n - 1];
      FirstSeenCovers(front);
      UnseenCovers(FirstSeen(front), Keys(files[n - 1]));
      forall k
        ensures k in FirstSeen(files) <==> exists i :: 0 <= i < n && k in Keys(files[i])
      {
        if k in FirstSeen(front) {
          var i :| 0 <= i < n - 1 && k in Keys(front[i]);
          assert front[i] == files[i];
        }
        if exists i :: 0 <= i < n && k in Keys(files[i]) {
          var i :| 0 <= i < n && k in Keys(files[i]);
          if i < n - 1 {
            assert front[i] == files[i];
          }
        }
      }
    }
  }

  lemma {:induction false} GroupListed(files: seq<Dict<Table>>, k: string)
    requires UniqueNames(files)
    ensures Listed(Group(files), k) == Collect(files, k)
  {
    if files != [] {
      var n := |files|;
      var front := files[..n - 1];
      assert UniqueNames(front);
      GroupListed(front, k);
      AddFileGet(Group(front), files[n - 1], k);
    }
  }

  /** A name is listed exactly when some file of the manifest has it. */
  lemma {:induction false} CollectEmpty(files: seq<Dict<Table>>, k: string)
    ensures Collect(files, k) == [] <==> forall i :: 0 <= i < |files| ==> k !in Keys(files[i])
  {
    if files != [] {
      var n := |files|;
      CollectEmpty(files[..n - 1], k);
      GetNone(files[n - 1], k);
      assert forall i :: 0 <= i < n - 1 ==> files[..n - 1][i] == files[i];
    }
  }

  // ---------------------------------------------------------------------
  // Concatenation

  /** Every table has the first table's columns. */
  predicate SameColumns(ts: seq<Table>)
    requires ts != []
  {
    forall i :: 0 <= i < |ts| ==> ts[i].columns == ts[0].columns
  }

  /** The rows of the tables one after another. */
  function AllRows(ts: seq<Table>): seq<Row> {
    if ts == [] then [] else AllRows(ts[..|ts| - 1]) + ts[|ts| - 1].rows
  }

  /** The number of rows of the tables together. */
  function RowCount(ts: seq<Table>): nat {
    if ts == [] then 0 else RowCount(ts[..|ts| - 1]) + |ts[|ts| - 1].rows|
  }

  /** The columns of the tables, each label once, in order of first appearance. */
  function UnionColumns(ts: seq<Table>): seq<Label> {
    if ts == [] then []
    else
      var prev := UnionColumns(ts[..|ts| - 1]);
      prev + Unseen(prev, ts[|ts| - 1].columns)
  }

  /** The cell of row `row` under label `l`, or a missing cell where the
      table has no such column. */
  function CellAt(columns: seq<Label>, row: Row, l: Label): Cell {
    if l in columns && IndexOf(columns, l) < |row| then row[IndexOf(columns, l)] else Missing
  }

  /** A table laid out on the columns `cols`. */
  function Reindex(t: Table, cols: seq<Label>): (r: Table)
    ensures r.columns == cols && Rectangular(r) && |r.rows| == |t.rows|
  {
    Table(cols, seq(|t.rows|, i requires 0 <= i < |t.rows| =>
      seq(|cols|, j requires 0 <= j < |cols| => CellAt(t.columns, t.rows[i], cols[j]))))
  }

  /** `pd.concat(ts)`: the rows of every table in order. */
  function ConcatTables(ts: seq<Table>): (r: Table)
    ensures |r.rows| == RowCount(ts)
    ensures ts != [] && SameColumns(ts) ==> r.columns == ts[0].columns
    ensures forall l :: l in r.columns <==> exists i :: 0 <= i < |ts| && l in ts[i].columns
  {
    if ts == [] then Table([], [])
    else if SameColumns(ts) then
      ColumnsOfSame(ts);
      AllRowsCount(ts);
      Table(ts[0].columns, AllRows(ts))
    else
      var u := UnionColumns(ts);
      var laid := seq(|ts|, i requires 0 <= i < |ts| => Reindex(ts[i], u));
      UnionColumnsSpec(ts);
      AllRowsCount(laid);
      RowCountSame(ts, laid);
      Table(u, AllRows(laid))
  }

  lemma {:induction false} AllRowsCount(ts: seq<Table>)
    ensures |AllRows(ts)| == RowCount(ts)
  {
    if ts != [] {
      AllRowsCount(ts[..|ts| - 1]);
    }
  }

  lemma {:induction false} RowCountSame(ts: seq<Table>, us: seq<Table>)
    requires |ts| == |us|
    requires forall i :: 0 <= i < |ts| ==> |ts[i].rows| == |us[i].rows|
    ensures RowCount(ts) == RowCount(us)
  {
    if ts != [] {
      RowCountSame(ts[..|ts| - 1], us[..|us| - 1]);
    }
  }

  lemma ColumnsOfSame(ts: seq<Table>)
    requires ts != [] && SameColumns(ts)
    ensures forall l :: l in ts[0].columns <==> exists i :: 0 <= i < |ts| && l in ts[i].columns
  {
  }

  lemma {:induction false} UnionColumnsSpec(ts: seq<Table>)
    ensures NoDup(UnionColumns(ts))
    ensures forall l :: l in UnionColumns(ts) <==> exists i :: 0 <= i < |ts| && l in ts[i].columns
  {
    if ts != [] {
      var n := |ts|;
      var front := ts[..n - 1];
      UnionColumnsSpec(front);
      UnseenExtends(UnionColumns(front), ts[n - 1].columns);
      forall l
        ensures l in UnionColumns(ts) <==> exists i :: 0 <= i < n && l in ts[i].columns
      {
        if l in UnionColumns(ts) && l !in ts[n - 1].columns {
          var i :| 0 <= i < n - 1 && l in front[i].columns;
          assert l in ts[i].columns;
        }
        if exists i :: 0 <= i < n && l in ts[i].columns {
          var i :| 0 <= i < n && l in ts[i].columns;
          if i < n - 1 {
            assert l in front[i].columns;
          }
        }
      }
    }
  }

  /** The rows of table `i` sit after the rows of the tables before it. */
  lemma {:induction false} AllRowsAt(ts: seq<Table>, i: nat, k: nat)
    requires i < |ts| && k < |ts[i].rows|
    ensures RowCount(ts[..i]) + k < |AllRows(ts)|
    ensures AllRows(ts)[RowCount(ts[..i]) + k] == ts[i].rows[k]
  {
    var n := |ts|;
    AllRowsCount(ts[..n - 1]);
    if i < n - 1 {
      assert ts[..n - 1][..i] == ts[..i];
      AllRowsAt(ts[..n - 1], i, k);
    } else {
      assert ts[..i] == ts[..n - 1];
    }
  }

  /** Each row of the merged table carries, under every label, the cell its
      own table had there, or a missing cell where its table lacked the column. */
  lemma ConcatCell(ts: seq<Table>, i: nat, k: nat, l: Label)
    requires i < |ts| && k < |ts[i].rows| && Rectangular(ts[i])
    requires l in ConcatTables(ts).columns
    ensures RowCount(ts[..i]) + k < |ConcatTables(ts).rows|
    ensures |ConcatTables(ts).rows[RowCount(ts[..i]) + k]| == |ConcatTables(ts).columns|
    ensures ConcatTables(ts).rows[RowCount(ts[..i]) + k][IndexOf(ConcatTables(ts).columns, l)] ==
      CellAt(ts[i].columns, ts[i].rows[k], l)
  {
    var r := ConcatTables(ts);
    AllRowsCount(ts[..i + 1]);
    if SameColumns(ts) {
      AllRowsAt(ts, i, k);
    } else {
      var u := UnionColumns(ts);
      var laid := seq(|ts|, j requires 0 <= j < |ts| => Reindex(ts[j], u));
      AllRowsAt(laid, i, k);
      RowCountSame(ts[..i], laid[..i]);
      assert laid[i] == Reindex(ts[i], u);
    }
  }

  /** Concatenating rectangular tables gives a rectangular table. */
  lemma ConcatRectangular(ts: seq<Table>)
    requires forall i :: 0 <= i < |ts| ==> Rectangular(ts[i])
    ensures Rectangular(ConcatTables(ts))
  {
    var r := ConcatTables(ts);
    forall m | 0 <= m < |r.rows|
      ensures |r.rows[m]| == |r.columns|
    {
      if ts != [] && SameColumns(ts) {
        AllRowsIn(ts, m);
      } else if ts != [] {
        var u := UnionColumns(ts);
        var laid := seq(|ts|, i requires 0 <= i < |ts| => Reindex(ts[i], u));
        AllRowsIn(laid, m);
      }
    }
  }

  /** Every row of the concatenation is a row of one of the tables. */
  lemma {:induction false} AllRowsIn(ts: seq<Table>, m: nat)
    requires m < |AllRows(ts)|
    ensures exists i, k :: 0 <= i < |ts| && 0 <= k < |ts[i].rows| && AllRows(ts)[m] == ts[i].rows[k]
  {
    var n := |ts|;
    var front := AllRows(ts[..n - 1]);
    if m < |front| {
      AllRowsIn(ts[..n - 1], m);
      var i, k :| 0 <= i < n - 1 && 0 <= k < |ts[..n - 1][i].rows| && front[m] == ts[..n - 1][i].rows[k];
      assert AllRows(ts)[m] == ts[i].rows[k];
    } else {
      assert AllRows(ts)[m] == ts[n - 1].rows[m - |front|];
    }
  }

  // ---------------------------------------------------------------------
  // The merged tables

  /** `pd.concat` applied to every list of tables. */
  function Merge(groups: Dict<seq<Table>>): (r: Dict<Table>)
    ensures Keys(r) == Keys(groups)
  {
    if groups == [] then [] else [(groups[0].0, ConcatTables(groups[0].1))] + Merge(groups[1..])
  }

  lemma {:induction false} MergeGet(groups: Dict<seq<Table>>, k: string)
    ensures Get(Merge(groups), k) == if k in Keys(groups) then Some(ConcatTables(Listed(groups, k))) else None
  {
    if groups != [] {
      MergeGet(groups[1..], k);
      assert Keys(groups) == [groups[0].0] + Keys(groups[1..]);
    }
  }

  /** The `dataframes` dictionary built from the per-file dictionaries of the manifest. */
  function Aggregate(files: seq<Dict<Table>>): Dict<Table> {
    Merge(Group(files))
  }

  /** Aggregation names every section that some file has, once each, in the
      order the manifest first shows them, and maps it to the concatenation
      of that section's tables in manifest order. */
  lemma {:induction false} AggregateSpec(files: seq<Dict<Table>>)
    requires UniqueNames(files)
    ensures Keys(Aggregate(files)) == FirstSeen(files)
    ensures NoDup(Keys(Aggregate(files)))
    ensures forall k :: k in Keys(Aggregate(files)) <==> exists i :: 0 <= i < |files| && k in Keys(files[i])
    ensures forall k ::
      Get(Aggregate(files), k) == if Collect(files, k) == [] then None else Some(ConcatTables(Collect(files, k)))
  {
    GroupSpec(files);
    forall k
      ensures Get(Aggregate(files), k) ==
        if Collect(files, k) == [] then None else Some(ConcatTables(Collect(files, k)))
    {
      MergeGet(Group(files), k);
      CollectEmpty(files, k);
    }
  }

  lemma CollectTwo(f1: Dict<Table>, f2: Dict<Table>, k: string)
    requires Get(f1, k).Some? && Get(f2, k).Some?
    ensures Collect([f1, f2], k) == [Get(f1, k).value, Get(f2, k).value]
  {
    var files := [f1, f2];
    assert files[..1] == [f1];
    assert files[..1][..0] == [];
    assert Collect([f1], k) == [Get(f1, k).value];
    assert Collect(files, k) == Collect([f1], k) + [Get(f2, k).value];
  }

  lemma ConcatTwo(t1: Table, t2: Table)
    requires t1.columns == t2.columns
    ensures ConcatTables([t1, t2]) == Table(t1.columns, t1.rows + t2.rows)
  {
    var ts := [t1, t2];
    assert SameColumns(ts);
    assert ts[..1] == [t1];
    assert ts[..1][..0] == [];
    assert AllRows(ts[..1]) == t1.rows;
  }

  /** With equal columns, the merged table of a section holds the first
      file's rows, then the second's. */
  lemma {:induction false} AggregateTwo(f1: Dict<Table>, f2: Dict<Table>, k: string)
    requires NoDup(Keys(f1)) && NoDup(Keys(f2))
    requires Get(f1, k).Some? && Get(f2, k).Some?
    requires Get(f1, k).value.columns == Get(f2, k).value.columns
    ensures Get(Aggregate([f1, f2]), k) ==
      Some(Table(Get(f1, k).value.columns, Get(f1, k).value.rows + Get(f2, k).value.rows))
  {
    AggregateSpec([f1, f2]);
    CollectTwo(f1, f2, k);
    ConcatTwo(Get(f1, k).value, Get(f2, k).value);
  }
}

/** Writing the merged tables (`SplittingTablesTask._save_dataframes`) and
    the order of the whole splitting step (`SplittingTablesTask.run`).

    Writes are not performed: each one is recorded in a returned trace. The
    clock and the disk are parameters indexed by the write attempt (0 for
    the first write of the run, 1 for the next, ...): `clock(n)` is the
    timestamp text of attempt `n` and `disk(n)` says whether it succeeds.
    A failed write raises and ends the run, so it never reaches the trace.
 */
module Emission {
  import opened Outcomes
  import opened Dicts
  import opened Strings
  import opened Tables
  import opened Splitter
  import opened Aggregation
  import opened Redaction
  import opened Seqs

  /** The two kinds of output file: every merged table, and the redacted one. */
  datatype Variant = Full | Short

  /** The `ext` part of an output file name. */
  function Tag(v: Variant): string {
    match v
    case Full => "full"
    case Short => "short"
  }

  /** `f"{key}_{stamp}_{ext}.tsv"` with every space replaced by `_`. */
  function FileName(key: string, stamp: string, v: Variant): string {
    ReplaceSpaces(key + "_" + stamp + "_" + Tag(v) + ".tsv")
  }

  /** `f"{target_dir}/{filename}"`. */
  function OutputPath(dir: string, name: string): string {
    dir + "/" + name
  }

  /** A file name has no space, and the replacement covers every part of
      it: the key and the timestamp alike. */
  lemma FileNameParts(key: string, stamp: string, v: Variant)
    ensures ' ' !in FileName(key, stamp, v)
    ensures FileName(key, stamp, v) ==
      ReplaceSpaces(key) + "_" + ReplaceSpaces(stamp) + "_" + Tag(v) + ".tsv"
  {
    var tag := "_" + Tag(v) + ".tsv";
    assert ' ' !in tag;
    Regroup(key, "_", stamp, "_", Tag(v), ".tsv");
    ReplaceSpacesConcat(key + "_", stamp + tag);
    ReplaceSpacesConcat(key, "_");
    ReplaceSpacesConcat(stamp, tag);
    ReplaceSpacesPlain("_");
    ReplaceSpacesPlain(tag);
    Regroup(ReplaceSpaces(key), "_", ReplaceSpaces(stamp), "_", Tag(v), ".tsv");
  }

  /** One output file: its section name, kind, path and content. */
  datatype Write = Write(key: string, variant: Variant, path: string, table: Table)

  /** The write for entry `(key, table)` as attempt `n`. */
  function WriteAt(key: string, table: Table, v: Variant, dir: string, clock: nat -> string, n: nat): Write {
    Write(key, v, OutputPath(dir, FileName(key, clock(n), v)), table)
  }

  /** The writes a save makes when none fails: one per entry, in the
      dictionary's order, as attempts `start`, `start + 1`, ... */
  function Plan(d: Dict<Table>, v: Variant, dir: string, clock: nat -> string, start: nat): (p: seq<Write>)
    ensures |p| == |d|
  {
    seq(|d|, i requires 0 <= i < |d| => WriteAt(d[i].0, d[i].1, v, dir, clock, start + i))
  }

  /** The writes made and the error that stopped them, if any. */
  datatype Saved = Saved(writes: seq<Write>, failure: Option<Error>)

  /** `_save_dataframes(d, ext)`: write every table in order; the first
      write that fails stops the save. */
  function Save(d: Dict<Table>, v: Variant, dir: string, clock: nat -> string, disk: nat -> bool, start: nat): (r: Saved)
    ensures |r.writes| <= |d|
    decreases |d|
  {
    if d == [] then Saved([], None)
    else
      var w := WriteAt(d[0].0, d[0].1, v, dir, clock, start);
      if !disk(start) then Saved([], Some(WriteFailed(w.path)))
      else
        var rest := Save(d[1..], v, dir, clock, disk, start + 1);
        Saved([w] + rest.writes, rest.failure)
  }

  /** A save writes the entries in order, attempt by attempt, while the disk
      accepts them; it fails exactly at the first attempt the disk refuses,
      reporting that write's path, and succeeds when it wrote them all. */
  lemma {:induction false} SaveSpec(d: Dict<Table>, v: Variant, dir: string, clock: nat -> string, disk: nat -> bool, start: nat)
    ensures var r := Save(d, v, dir, clock, disk, start);
      && (forall i :: 0 <= i < |r.writes| ==> r.writes[i] == WriteAt(d[i].0, d[i].1, v, dir, clock, start + i))
      && (forall n :: start <= n < start + |r.writes| ==> disk(n))
      && (r.failure == None <==> |r.writes| == |d|)
      && (r.failure != None ==>
            && |r.writes| < |d|
            && !disk(start + |r.writes|)
            && r.failure == Some(WriteFailed(WriteAt(d[|r.writes|].0, d[|r.writes|].1, v, dir, clock, start + |r.writes|).path)))
  {
    SaveWrites(d, v, dir, clock, disk, start);
    SaveAttempts(d, v, dir, clock, disk, start);
    SaveFailure(d, v, dir, clock, disk, start);
  }

  lemma SaveWrites(d: Dict<Table>, v: Variant, dir: string, clock: nat -> string, disk: nat -> bool, start: nat)
    ensures var r := Save(d, v, dir, clock, disk, start);
      forall i :: 0 <= i < |r.writes| ==> r.writes[i] == WriteAt(d[i].0, d[i].1, v, dir, clock, start + i)
  {
    forall i | 0 <= i < |Save(d, v, dir, clock, disk, start).writes| {
      SaveWrite(d, v, dir, clock, disk, start, i);
    }
  }

  /** The `i`-th write of a save is entry `i`, written as attempt `start + i`. */
  lemma {:induction false} SaveWrite(d: Dict<Table>, v: Variant, dir: string, clock: nat -> string, disk: nat -> bool, start: nat, i: nat)
    requires i < |Save(d, v, dir, clock, disk, start).writes|
    ensures Save(d, v, dir, clock, disk, start).writes[i] == WriteAt(d[i].0, d[i].1, v, dir, clock, start + i)
    decreases i
  {
    if i > 0 {
      var rest := Save(d[1..], v, dir, clock, disk, start + 1);
      assert Save(d, v, dir, clock, disk, start).writes[i] == rest.writes[i - 1];
      SaveWrite(d[1..], v, dir, clock, disk, start + 1, i - 1);
      assert d[1..][i - 1] == d[i];
    }
  }

  lemma {:induction false} SaveAttempts(d: Dict<Table>, v: Variant, dir: string, clock: nat -> string, disk: nat -> bool, start: nat)
    ensures var r := Save(d, v, dir, clock, disk, start);
      forall n :: start <= n < start + |r.writes| ==> disk(n)
    decreases |d|
  {
    if d != [] && disk(start) {
      SaveAttempts(d[1..], v, dir, clock, disk, start + 1);
    }
  }

  lemma {:induction false} SaveFailure(d: Dict<Table>, v: Variant, dir: string, clock: nat -> string, disk: nat -> bool, start: nat)
    ensures var r := Save(d, v, dir, clock, disk, start);
      && (r.failure == None <==> |r.writes| == |d|)
      && (r.failure != None ==>
            && |r.writes| < |d|
            && !disk(start + |r.writes|)
            && r.failure == Some(WriteFailed(WriteAt(d[|r.writes|].0, d[|r.writes|].1, v, dir, clock, start + |r.writes|).path)))
    decreases |d|
  {
    if d != [] && disk(start) {
      var r := Save(d, v, dir, clock, disk, start);
      var rest := Save(d[1..], v, dir, clock, disk, start + 1);
      SaveFailure(d[1..], v, dir, clock, disk, start + 1);
      assert |r.writes| == 1 + |rest.writes|;
      if r.failure != None {
        assert d[1..][|rest.writes|] == d[|r.writes|];
      }
    }
  }

  /** Saving a single table makes one attempt. */
  lemma SaveOne(key: string, t: Table, v: Variant, dir: string, clock: nat -> string, disk: nat -> bool, n: nat)
    ensures Save([(key, t)], v, dir, clock, disk, n) ==
      if disk(n) then Saved([WriteAt(key, t, v, dir, clock, n)], None)
      else Saved([], Some(WriteFailed(WriteAt(key, t, v, dir, clock, n).path)))
  {
    var d := [(key, t)];
    assert d[1..] == [];
    if disk(n) {
      assert [WriteAt(key, t, v, dir, clock, n)] + [] == [WriteAt(key, t, v, dir, clock, n)];
    }
  }

  /** The writes of a save are the planned ones up to the first failure. */
  lemma {:induction false} SavePlanned(d: Dict<Table>, v: Variant, dir: string, clock: nat -> string, disk: nat -> bool, start: nat)
    ensures var r := Save(d, v, dir, clock, disk, start);
      r.writes == Plan(d, v, dir, clock, start)[..|r.writes|]
  {
    var r := Save(d, v, dir, clock, disk, start);
    var p := Plan(d, v, dir, clock, start)[..|r.writes|];
    SaveSpec(d, v, dir, clock, disk, start);
    forall i | 0 <= i < |r.writes|
      ensures r.writes[i] == p[i]
    {
      PlanAt(d, v, dir, clock, start, i);
    }
  }

  lemma PlanAt(d: Dict<Table>, v: Variant, dir: string, clock: nat -> string, start: nat, i: nat)
    requires i < |d|
    ensures Plan(d, v, dir, clock, start)[i] == WriteAt(d[i].0, d[i].1, v, dir, clock, start + i)
  {
  }

  /** A save stops only at a failing disk: when every attempt succeeds, all
      the planned writes are made. */
  lemma {:induction false} SaveAll(d: Dict<Table>, v: Variant, dir: string, clock: nat -> string, disk: nat -> bool, start: nat)
    requires forall n :: start <= n < start + |d| ==> disk(n)
    ensures Save(d, v, dir, clock, disk, start) == Saved(Plan(d, v, dir, clock, start), None)
  {
    var r := Save(d, v, dir, clock, disk, start);
    SaveSpec(d, v, dir, clock, disk, start);
    assert r.failure == None;
    SavePlanned(d, v, dir, clock, disk, start);
  }

  // ---------------------------------------------------------------------
  // The whole step

  /** The settings the step reads. */
  datatype Config = Config(targetDir: string, specialKey: string, specialCols: seq<string>)

  /** The settings' default designated section and the columns dropped from it. */
  const DefaultSpecialKey: string := "Probes"
  const DefaultSpecialCols: seq<string> := [
    "Definition", "Ontology_Component", "Ontology_Process", "Obsolete_Probe_Id",
    "Probe_Sequence", "Synonyms", "Ontology_Function"
  ]

  /** The writes made, the error that ended the run if any, and whether the
      done marker was touched. */
  datatype Outcome = Outcome(writes: seq<Write>, failure: Option<Error>, done: bool)

  /** The tables of every file of the manifest, in order; the first file
      that fails to split aborts. */
  function SplitAll(manifest: seq<seq<string>>): Result<seq<Dict<Table>>> {
    AllOk(seq(|manifest|, i requires 0 <= i < |manifest| => SplitFile(manifest[i])))
  }

  /** Splitting the manifest gives each file's tables, every file with
      distinct section names, unless some file fails to split. */
  lemma SplitAllSpec(manifest: seq<seq<string>>)
    ensures var r := SplitAll(manifest);
      && (r.Err? <==> exists i :: 0 <= i < |manifest| && SplitFile(manifest[i]).Err?)
      && (r.Ok? ==> |r.value| == |manifest| && UniqueNames(r.value))
      && (r.Ok? ==> forall i :: 0 <= i < |manifest| ==> SplitFile(manifest[i]) == Ok(r.value[i]))
  {
    var rs := seq(|manifest|, i requires 0 <= i < |manifest| => SplitFile(manifest[i]));
    assert forall i :: 0 <= i < |manifest| ==> rs[i] == SplitFile(manifest[i]);
  }

  /** What `run` does once the tables are merged: write every merged table
      in full, drop the configured columns from the designated table
      (`_ext_processing`), write it, and touch the done marker. Any error
      ends the run there. */
  function Emit(cfg: Config, tables: Dict<Table>, clock: nat -> string, disk: nat -> bool): Outcome {
    var full := Save(tables, Full, cfg.targetDir, clock, disk, 0);
    if full.failure != None then Outcome(full.writes, full.failure, false)
    else
      match Get(tables, cfg.specialKey)
      case None => Outcome(full.writes, Some(MissingKey(cfg.specialKey)), false)
      case Some(t) =>
        match Redact(t, cfg.specialCols)
        case Err(e) => Outcome(full.writes, Some(e), false)
        case Ok(short) =>
          var last := Save([(cfg.specialKey, short)], Short, cfg.targetDir, clock, disk, |tables|);
          Outcome(full.writes + last.writes, last.failure, last.failure == None)
  }

  /** Whether the designated table exists and has every configured column. */
  predicate Redactable(cfg: Config, tables: Dict<Table>) {
    Get(tables, cfg.specialKey).Some? && Redact(Get(tables, cfg.specialKey).value, cfg.specialCols).Ok?
  }

  /** The designated table with the configured columns dropped. */
  function ShortTable(cfg: Config, tables: Dict<Table>): Table
    requires Redactable(cfg, tables)
  {
    Redact(Get(tables, cfg.specialKey).value, cfg.specialCols).value
  }

  /** The short write, made as the attempt after the full ones. */
  function ShortWrite(cfg: Config, tables: Dict<Table>, clock: nat -> string): Write
    requires Redactable(cfg, tables)
  {
    WriteAt(cfg.specialKey, ShortTable(cfg, tables), Short, cfg.targetDir, clock, |tables|)
  }

  /** How a run's writes are made of the full save's writes and the short one. */
  lemma {:induction false} EmitSteps(cfg: Config, tables: Dict<Table>, clock: nat -> string, disk: nat -> bool)
    ensures var r := Emit(cfg, tables, clock, disk);
      var full := Save(tables, Full, cfg.targetDir, clock, disk, 0);
      if full.failure == None && Redactable(cfg, tables) then
        && r.writes == full.writes + (if disk(|tables|) then [ShortWrite(cfg, tables, clock)] else [])
        && r.done == disk(|tables|)
        && (r.done ==> r.failure == None)
      else
        r.writes == full.writes && !r.done
  {
    var full := Save(tables, Full, cfg.targetDir, clock, disk, 0);
    if full.failure == None && Redactable(cfg, tables) {
      var t := Get(tables, cfg.specialKey).value;
      var short := Redact(t, cfg.specialCols).value;
      var d := [(cfg.specialKey, short)];
      var last := Save(d, Short, cfg.targetDir, clock, disk, |tables|);
      assert Emit(cfg, tables, clock, disk) == Outcome(full.writes + last.writes, last.failure, last.failure == None);
      SaveOne(cfg.specialKey, short, Short, cfg.targetDir, clock, disk, |tables|);
    }
  }

  /** The full save of a run writes the merged tables as planned, up to the
      first refused attempt; it fails exactly when it did not write them all. */
  lemma FullSave(cfg: Config, tables: Dict<Table>, clock: nat -> string, disk: nat -> bool)
    ensures var full := Save(tables, Full, cfg.targetDir, clock, disk, 0);
      var plan := Plan(tables, Full, cfg.targetDir, clock, 0);
      && |full.writes| <= |tables|
      && full.writes == plan[..|full.writes|]
      && (full.failure == None <==> |full.writes| == |tables|)
      && (full.failure == None ==> full.writes == plan)
      && (forall n :: 0 <= n < |full.writes| ==> disk(n))
  {
    SaveSpec(tables, Full, cfg.targetDir, clock, disk, 0);
    SavePlanned(tables, Full, cfg.targetDir, clock, disk, 0);
    TakeAll(Plan(tables, Full, cfg.targetDir, clock, 0));
  }

  /** The order of the writes: first the full writes, a prefix of one per
      merged table in the merged order; then, only once all of those are
      made, a single short write holding the designated table with the
      configured columns dropped. */
  lemma EmitOrder(cfg: Config, tables: Dict<Table>, clock: nat -> string, disk: nat -> bool)
    ensures var r := Emit(cfg, tables, clock, disk);
      var plan := Plan(tables, Full, cfg.targetDir, clock, 0);
      && |r.writes| <= |tables| + 1
      && (|r.writes| <= |tables| ==> r.writes == plan[..|r.writes|])
      && (|r.writes| == |tables| + 1 ==>
            && r.writes[..|tables|] == plan
            && Redactable(cfg, tables)
            && r.writes[|tables|] == WriteAt(cfg.specialKey, ShortTable(cfg, tables), Short, cfg.targetDir, clock, |tables|))
  {
    EmitSteps(cfg, tables, clock, disk);
    FullSave(cfg, tables, clock, disk);
    var r := Emit(cfg, tables, clock, disk);
    var full := Save(tables, Full, cfg.targetDir, clock, disk, 0);
    if full.failure == None && Redactable(cfg, tables) && disk(|tables|) {
      SnocFront(full.writes, ShortWrite(cfg, tables, clock));
    }
  }

  /** The done marker is touched exactly when the designated table exists
      and has every configured column and every write succeeds; then every
      merged table was written as `full`, in the merged order, followed by
      the one `short` write. */
  lemma EmitDone(cfg: Config, tables: Dict<Table>, clock: nat -> string, disk: nat -> bool)
    ensures var r := Emit(cfg, tables, clock, disk);
      r.done <==> Redactable(cfg, tables) && forall n :: 0 <= n <= |tables| ==> disk(n)
    ensures var r := Emit(cfg, tables, clock, disk);
      r.done ==>
        && r.failure == None
        && r.writes == Plan(tables, Full, cfg.targetDir, clock, 0)
             + [WriteAt(cfg.specialKey, ShortTable(cfg, tables), Short, cfg.targetDir, clock, |tables|)]
  {
    EmitSteps(cfg, tables, clock, disk);
    FullSave(cfg, tables, clock, disk);
    var r := Emit(cfg, tables, clock, disk);
    var full := Save(tables, Full, cfg.targetDir, clock, disk, 0);
    if forall n :: 0 <= n <= |tables| ==> disk(n) {
      SaveAll(tables, Full, cfg.targetDir, clock, disk, 0);
      assert full.failure == None;
    }
    if r.done {
      assert full.failure == None && Redactable(cfg, tables);
      assert |full.writes| == |tables|;
    }
  }

  /** The first writes of a run are the full writes of the merged tables
      in order, as many as were made before a failure or all of them. */
  lemma EmitFull(cfg: Config, tables: Dict<Table>, clock: nat -> string, disk: nat -> bool)
    ensures var r := Emit(cfg, tables, clock, disk);
      var nFull := if |r.writes| > |tables| then |tables| else |r.writes|;
      forall i :: 0 <= i < nFull ==> r.writes[i] == WriteAt(tables[i].0, tables[i].1, Full, cfg.targetDir, clock, i)
  {
    EmitSteps(cfg, tables, clock, disk);
    FullSave(cfg, tables, clock, disk);
    SaveWrites(tables, Full, cfg.targetDir, clock, disk, 0);
    var r := Emit(cfg, tables, clock, disk);
    var full := Save(tables, Full, cfg.targetDir, clock, disk, 0);
    forall i | 0 <= i < |full.writes|
      ensures r.writes[i] == full.writes[i]
    {
    }
  }

  /** Writes that follow keys without repeats name each key at most once. */
  lemma FollowsDistinct(ks: seq<string>, ws: seq<Write>, n: nat)
    requires NoDup(ks)
    requires n <= |ws| && n <= |ks|
    requires forall i :: 0 <= i < n ==> ws[i].key == ks[i]
    ensures forall i, j :: 0 <= i < j < n ==> ws[i].key != ws[j].key
  {
  }

  /** Writes that follow all the keys name every key. */
  lemma FollowsAll(ks: seq<string>, ws: seq<Write>)
    requires |ks| <= |ws|
    requires forall i :: 0 <= i < |ks| ==> ws[i].key == ks[i]
    ensures forall k :: k in ks ==> exists i :: 0 <= i < |ks| && ws[i].key == k
  {
    forall k | k in ks
      ensures exists i :: 0 <= i < |ks| && ws[i].key == k
    {
      var i :| 0 <= i < |ks| && ks[i] == k;
      assert ws[i].key == k;
    }
  }

  /** The full writes name distinct merged tables, each with its merged
      table as content; a completed run wrote every merged table in full. */
  lemma EmitFullOnce(cfg: Config, tables: Dict<Table>, clock: nat -> string, disk: nat -> bool)
    requires NoDup(Keys(tables))
    ensures var r := Emit(cfg, tables, clock, disk);
      var nFull := if |r.writes| > |tables| then |tables| else |r.writes|;
      && (forall i :: 0 <= i < nFull ==> r.writes[i].variant == Full)
      && (forall i, j :: 0 <= i < j < nFull ==> r.writes[i].key != r.writes[j].key)
      && (forall i :: 0 <= i < nFull ==> Get(tables, r.writes[i].key) == Some(r.writes[i].table))
      && (r.done ==> forall k :: k in Keys(tables) ==> exists i :: 0 <= i < nFull && r.writes[i].key == k)
  {
    var r := Emit(cfg, tables, clock, disk);
    var ks := Keys(tables);
    var nFull := if |r.writes| > |tables| then |tables| else |r.writes|;
    EmitFull(cfg, tables, clock, disk);
    EmitDone(cfg, tables, clock, disk);
    forall i | 0 <= i < nFull
      ensures r.writes[i].key == ks[i]
      ensures Get(tables, r.writes[i].key) == Some(r.writes[i].table)
    {
      GetAt(tables, i);
    }
    FollowsDistinct(ks, r.writes, nFull);
    if r.done {
      FollowsAll(ks, r.writes);
    }
  }

  /** A missing designated table or column ends the run after every merged
      table was written in full, and nothing else. */
  lemma {:induction false} EmitRedactionFails(cfg: Config, tables: Dict<Table>, clock: nat -> string, disk: nat -> bool)
    requires forall n :: 0 <= n < |tables| ==> disk(n)
    requires !Redactable(cfg, tables)
    ensures var r := Emit(cfg, tables, clock, disk);
      && r.writes == Plan(tables, Full, cfg.targetDir, clock, 0)
      && !r.done
      && (if Get(tables, cfg.specialKey).None? then r.failure == Some(MissingKey(cfg.specialKey))
          else r.failure.Some? && r.failure.value.MissingColumns?)
  {
    SaveAll(tables, Full, cfg.targetDir, clock, disk, 0);
  }

  /** `SplittingTablesTask.run` on the lines of the manifest's files. */
  function Run(cfg: Config, manifest: seq<seq<string>>, clock: nat -> string, disk: nat -> bool): Outcome {
    match SplitAll(manifest)
    case Err(e) => Outcome([], Some(e), false)
    case Ok(files) => Emit(cfg, Aggregate(files), clock, disk)
  }

  /** A file that fails to split ends the run before anything is written. */
  lemma {:induction false} RunSplitFails(cfg: Config, manifest: seq<seq<string>>, clock: nat -> string, disk: nat -> bool, i: nat)
    requires i < |manifest| && SplitFile(manifest[i]).Err?
    ensures var r := Run(cfg, manifest, clock, disk);
      r.writes == [] && r.failure != None && !r.done
  {
    SplitAllSpec(manifest);
  }

  /** A run completes exactly when every file of the manifest splits, the
      merged designated table has every configured column and every write
      succeeds. A completed run wrote, once each and in the order the
      manifest first shows them, a full file for every section some file
      has, then the one short file. */
  lemma {:induction false} RunDone(cfg: Config, manifest: seq<seq<string>>, clock: nat -> string, disk: nat -> bool)
    ensures Run(cfg, manifest, clock, disk).done <==>
      && SplitAll(manifest).Ok?
      && Redactable(cfg, Aggregate(SplitAll(manifest).value))
      && forall n :: 0 <= n <= |Aggregate(SplitAll(manifest).value)| ==> disk(n)
    ensures Run(cfg, manifest, clock, disk).done ==>
      var files := SplitAll(manifest).value;
      var tables := Aggregate(files);
      && Keys(tables) == FirstSeen(files)
      && NoDup(FirstSeen(files))
      && Run(cfg, manifest, clock, disk).writes ==
           Plan(tables, Full, cfg.targetDir, clock, 0)
             + [WriteAt(cfg.specialKey, ShortTable(cfg, tables), Short, cfg.targetDir, clock, |tables|)]
  {
    SplitAllSpec(manifest);
    if SplitAll(manifest).Ok? {
      var files := SplitAll(manifest).value;
      var tables := Aggregate(files);
      assert Run(cfg, manifest, clock, disk) == Emit(cfg, tables, clock, disk);
      EmitDone(cfg, tables, clock, disk);
      AggregateSpec(files);
    }
  }
}

# Table splitting of the GEO report pipeline, in Dafny

The pipeline downloads a GEO report archive, extracts it and then runs
`SplittingTablesTask`. It cuts each extracted text file into named
tables. Every section opens with a marker line such as `[Probes]`. The step
merges the tables of all files section by section and writes every merged
table as a tab-separated `full` file. It then drops a configured list of
columns from one designated section (`Probes` by default), writes that table
as a `short` file, and touches a done marker.

This project models that task as pure functions and proves properties of it.

| module | file | what it models |
|---|---|---|
| `Outcomes` | outcomes.dfy | `Option`, the exceptions the step can end with, `Result` |
| `Tables` | tables.dfy | data frames reduced to ordered labels and rows of cells |
| `Strings` | strings.dfy | `str.strip(chars)`, the tab split, `str.replace(" ", "_")` |
| `Dicts` | dicts.dfy | insertion-ordered Python dicts as association lists |
| `Reader` | reader.dfy | `pd.read_csv(buffer, sep='\t', header=...)` on a section's lines |
| `Splitter` | splitter.dfy | `_process_file`: markers, buffering, the header rule |
| `Aggregation` | aggregate.dfy | the `defaultdict(list)` grouping and `pd.concat` in `run` |
| `Redaction` | redaction.dfy | `df.drop(columns=special_cols)` in `_ext_processing` |
| `Emission` | emission.dfy | `_save_dataframes`, `_ext_processing` and the order of `run` |
| `Seqs` | seqs.dfy | small sequence facts used by the proofs |

These behaviours follow the code:

- A marker is any line whose first character is `[`. The section name is
  the line with `[`, `]` and newlines stripped from both ends.
- Lines before the first marker belong to no section and are dropped.
- A marker that strips to the empty name (`[]`) opens no section. Its lines
  are dropped. If it is the last marker, the final read sees an empty buffer
  and fails with pandas' EmptyDataError.
- The `Heading` section is read without a header line only when a later
  marker closes it. The section still open at the end of the file is always
  read with a header, whatever its name.
- A file without any marker fails with EmptyDataError.
- A name repeated within one file keeps the table of its last section, at
  the position where the name first appeared.
- The reader skips empty lines. It pads a record shorter than the first
  record with missing cells and rejects a longer one with a field-count
  error. Both of these are simplifications of pandas; see
  `Reader.ReadTableShape` under "Left out".
- When the merged tables' columns differ, the concatenation takes the
  union of their labels in order of first appearance. A table lacking a
  column gets missing cells there.

`Splitter.SplitFile` states the result of splitting through the file's
layout: the preamble, then each marker with the lines up to the next one.
`Splitter.ProcessFile` is the program's single pass over the lines. It is
proved to compute the same result.

The clock and the disk are parameters indexed by the write attempt: 0 for
the first write of the run, 1 for the next, and so on. `clock(n)` is the
timestamp text of attempt `n` and `disk(n)` says whether that attempt
succeeds. `Emission.Run` returns the trace of the writes made, the error
that ended the run (if any) and whether the done marker was touched. The
manifest is given as the lines of each extracted file, in manifest order.

## Model

| member | source | states |
|---|---|---|
| Splitter.ProcessFile | pipeline.py:131-157 | the line-by-line pass with its open key and buffer returns exactly the tables the file's layout determines, including the aborting read and the EmptyData end of a file without a named last section |
| Splitter.SplitFile | pipeline.py:131-157 | a file that splits stores its tables under distinct non-empty section names |
| Splitter.DecomposeSound | pipeline.py:142-153 | cutting a file into preamble and marker-led segments loses and reorders no line, and no marker line lands in a buffer or the preamble |
| Splitter.DecomposeFlatten | pipeline.py:142-153 | any well-formed layout written out as lines is cut back into the same layout |
| Splitter.MarkerName | pipeline.py:143-149 | a line `[name]` is a marker and opens section `name` whenever the name does not itself start or end with a bracket or a newline |
| Splitter.PreambleIgnored | pipeline.py:139-153 | lines before the first marker do not change the result of splitting |
| Splitter.Close | pipeline.py:144-148 | closing a section succeeds exactly when its name is empty or its buffer reads, and keeps the stored names distinct and non-empty |
| Splitter.CloseAllOk | pipeline.py:142-153 | the sections closed by later markers are all stored exactly when every named one reads |
| Splitter.SegmentKeys | pipeline.py:143-155 | the tables of a file cut into segments are stored under exactly the non-empty names the segments' markers open |
| Splitter.SplitKeys | pipeline.py:143-155 | a file's tables are stored under exactly the non-empty names its markers open |
| Splitter.SplitLastWins | pipeline.py:144-155 | a repeated name holds the table of its last section, read with a header unless it is a `Heading` section closed by a later marker |
| Splitter.BoundaryOk | pipeline.py:142-155 | for sections with non-empty names, splitting succeeds exactly when every section's lines read, the last one with a header |
| Splitter.BoundaryOrder | pipeline.py:142-155 | for sections with distinct non-empty names, the tables are stored in marker order |
| Splitter.BoundaryLaw | pipeline.py:142-155 | for sections with distinct non-empty names there is one table per marker, in marker order, read from exactly the lines up to the next marker, and splitting fails exactly when one of those reads fails |
| Splitter.HeadingThenData | pipeline.py:142-155 | a `Heading` section closed by a `Data` section splits exactly when the heading reads without a header line and the data with one, into the tables `Heading` then `Data` holding those reads |
| Strings.StripEnds | pipeline.py:149 | the stripped name neither starts nor ends with a stripped character |
| Strings.StripIdempotent | pipeline.py:149 | stripping a section name twice is stripping it once |
| Strings.JoinSplit | pipeline.py:147 | joining the tab-split fields with tabs gives the line back |
| Strings.SplitJoin | pipeline.py:147 | splitting tab-joined fields without tabs gives the fields back |
| Reader.ReadRows | pipeline.py:147 | data records become rows exactly when none is longer than the table, each padded with missing cells; otherwise a field-count error |
| Reader.ReadTableShape | pipeline.py:146-147 | a buffer with no non-blank line is EmptyData; otherwise the table's columns come from the first record, named or numbered, with one rectangular row per data record holding its fields |
| Reader.ReadRender | pipeline.py:147 | reading the tab-separated text of a table gives the table back |
| Dicts.Put | pipeline.py:147 | assigning a key replaces its value where the key stands or appends it, and changes no other key |
| Dicts.GetNone | pipeline.py:175 | a lookup finds nothing exactly when the key is absent, which is when indexing the merged tables by the designated name raises |
| Dicts.PutNoDup | pipeline.py:147 | assignment keeps the keys distinct |
| Aggregation.UnseenExtends | pipeline.py:118-119 | the ordered union adds each new element once and loses none |
| Aggregation.GroupSpec | pipeline.py:110-114 | grouping lists each section name once, in first-seen order, with that section's tables from every file in manifest order |
| Aggregation.ConcatTables | pipeline.py:119 | the merged table has the rows of all its tables, keeps shared columns as they are, and otherwise has exactly the labels some table has |
| Aggregation.ConcatCell | pipeline.py:119 | each merged row carries under every label the cell its own table had there, or a missing cell |
| Aggregation.ConcatRectangular | pipeline.py:119 | merging rectangular tables gives a rectangular table |
| Aggregation.AggregateSpec | pipeline.py:104-120 | the merged dictionary names every section some file has, once each, in first-seen order, mapped to the concatenation of that section's tables in manifest order |
| Aggregation.AggregateTwo | pipeline.py:110-120 | two files with the same columns under a name merge into the first file's rows followed by the second's |
| Redaction.Redact | pipeline.py:176 | the drop fails exactly when some name is not a column, listing exactly those names, and otherwise keeps every row |
| Redaction.RedactKeeps | pipeline.py:176 | a successful drop keeps exactly the columns not named, in their original order, each with its own cells |
| Redaction.RedactColumns | pipeline.py:176 | after a drop a label is a column exactly when it was one and is not named |
| Redaction.RedactNothing | pipeline.py:176 | dropping no columns leaves the table unchanged |
| Redaction.RedactTwice | pipeline.py:176 | dropping the same names again fails, since they are gone |
| Emission.FileNameParts | pipeline.py:165-167 | an output name has no space, and the replacement acts on the key and timestamp separately |
| Emission.SaveSpec | pipeline.py:159-168 | a save writes the entries in dictionary order while the disk accepts them and fails exactly at the first refused attempt, naming that file's path |
| Emission.SavePlanned | pipeline.py:164-168 | the writes of a save are a prefix of the planned writes |
| Emission.SaveAll | pipeline.py:164-168 | when every attempt succeeds, a save makes all its planned writes and no error |
| Emission.SplitAllSpec | pipeline.py:110-111 | the manifest splits exactly when each of its files does, into each file's own tables |
| Emission.EmitOrder | pipeline.py:122-123 | the run's writes are a prefix of the full writes in merged order, followed by one short write of the redacted table only once all full writes are made |
| Emission.EmitDone | pipeline.py:122-126 | the done marker is touched exactly when the designated table has every configured column and every write succeeds; then the writes are every full write and the short one |
| Emission.EmitFull | pipeline.py:122 | the first writes of a run are the full writes of the merged tables in order |
| Emission.EmitFullOnce | pipeline.py:164-168 | the full writes name distinct sections with their merged tables, and a completed run wrote every section |
| Emission.EmitRedactionFails | pipeline.py:175-176 | a missing designated section or column ends the run after all full writes, with the matching error and no done marker |
| Emission.RunSplitFails | pipeline.py:110-111 | a file that fails to split ends the run before any write |
| Emission.RunDone | pipeline.py:103-126 | a run completes exactly when every file splits, the merged designated table has every configured column and every write succeeds; a completed run wrote a full file for every section once, in first-seen order, then the short file |

## Left out

- Downloading, extracting and cleaning up the archive, and the command
  line entry point (pipeline.py:17-83, 180-230): these are network and file
  system work outside the splitting step.
- The Luigi plumbing of `SplittingTablesTask` (`requires` and `output`,
  pipeline.py:100-101, 128-129): task scheduling is not part of the model.
- Opening files and reading the manifest (pipeline.py:106-107, 138): each
  extracted file is given as its lines, each ending with the newline it was
  read with. The `strip()` of the manifest's file names is not modelled.
- `read_csv` details beyond the field layout: dtype inference, missing-value
  detection of empty fields, quoting, `\r` line ends, the renaming of
  duplicate header names and the `Unnamed` labels of empty ones. Every cell
  keeps its text.
- `to_csv` formatting: a write records its path and table, not the rendered
  text.
- `datetime.now` and disk failures are the `clock` and `disk` parameters.
  Touching the done marker never fails in the model.
- `df.drop(..., inplace=True)` mutates the merged table that the full save
  already wrote. That aliasing has no visible effect, because the full writes
  all come first, so the model drops from a copy.
- The settings (config.py:10-20) are the `Config` parameter. Their defaults
  are the constants `Emission.DefaultSpecialKey` and
  `Emission.DefaultSpecialCols`.
- Aggregation.ConcatTables: `pd.concat([])` raises, but every grouped list
  holds at least one table, so the model returns an empty table there
  instead. A label repeated within one table is looked up at its first
  position.
- Aggregation.ConcatTables: the row index that `pd.concat` keeps
  (0, 1, ... restarting per table) is not modelled, since the output is
  written with `index=False`.
- Reader.ReadTableShape: two `read_csv` cases are read differently from
  pandas. A first data record with more fields than the header makes
  pandas take the extra leading fields as an unnamed row index. The model
  gives a field-count error instead, where pandas would return the header's
  columns holding the record's last fields (`to_csv(index=False)` drops
  that index). A line of only spaces is skipped by pandas; the model keeps
  it as a record of one field.

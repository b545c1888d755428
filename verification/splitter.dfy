/** Splitting one exported text file into its named tables
    (`SplittingTablesTask._process_file`).

    A line starting with `[` is a marker: it closes the section being read
    and opens the section named by the marker with `[`, `]` and newlines
    stripped from both ends. The other lines are buffered for the open
    section. A section closed by a later marker is read with a header line,
    except the one named `Heading`, which is read without; the section still
    open at the end of the file is always read with a header line.

    `SplitFile` states the result through the file's layout (the lines
    before the first marker, then each marker with the lines up to the
    next); `ProcessFile` is the single pass the program makes, proved to
    compute the same result.
 */
module Splitter {
  import opened Outcomes
  import opened Dicts
  import opened Strings
  import opened Tables
  import opened Reader
  import opened Seqs

  /** The characters stripped from both ends of a marker line. */
  const MarkerChars: set<char> := {'[', ']', '\n'}

  /** The section read without a header line when a later marker closes it. */
  const HeadingKey: string := "Heading"

  /** Only the first character is looked at. */
  predicate IsMarker(l: string) {
    |l| > 0 && l[0] == '['
  }

  /** The section name a marker line opens. */
  function SectionKey(marker: string): string {
    Strip(marker, MarkerChars)
  }

  /** A marker written as `[name]` on its own line opens the section `name`,
      provided the name neither starts nor ends with a bracket or a newline. */
  lemma MarkerName(name: string)
    requires name == [] || (name[0] !in MarkerChars && name[|name| - 1] !in MarkerChars)
    ensures IsMarker("[" + name + "]\n")
    ensures SectionKey("[" + name + "]\n") == name
  {
    assert AllIn("[", MarkerChars);
    assert AllIn("]\n", MarkerChars);
    StripWrapped("[", name, "]\n", MarkerChars);
  }

  /** Python's truth value of the current key: neither `None` nor `""`.
      Lines are buffered, and a section is closed, only under an open key. */
  predicate Open(key: Option<string>) {
    key.Some? && key.value != ""
  }

  /** A marker line and the lines that follow it up to the next marker. */
  datatype Segment = Segment(marker: string, body: seq<string>)

  /** A file cut at its markers: the lines before the first marker, then the segments. */
  datatype Layout = Layout(preamble: seq<string>, segments: seq<Segment>)

  predicate NoMarker(lines: seq<string>) {
    forall i :: 0 <= i < |lines| ==> !IsMarker(lines[i])
  }

  predicate WellFormed(layout: Layout) {
    && NoMarker(layout.preamble)
    && forall i :: 0 <= i < |layout.segments| ==>
         IsMarker(layout.segments[i].marker) && NoMarker(layout.segments[i].body)
  }

  /** The lines of a layout, in file order. */
  function Flatten(layout: Layout): seq<string>
    decreases |layout.segments|
  {
    var segs := layout.segments;
    if segs == [] then layout.preamble
    else
      var last := segs[|segs| - 1];
      Flatten(Layout(layout.preamble, segs[..|segs| - 1])) + [last.marker] + last.body
  }

  lemma FlattenSnoc(p: seq<string>, segs: seq<Segment>, s: Segment)
    ensures Flatten(Layout(p, segs + [s])) == Flatten(Layout(p, segs)) + [s.marker] + s.body
  {
    assert (segs + [s])[..|segs|] == segs;
  }

  /** The layout of a file, built line by line as the program reads it:
      a marker starts a new segment, any other line extends the last
      segment, or the preamble while there is none. */
  function Decompose(lines: seq<string>): (layout: Layout)
    ensures |layout.segments| <= |lines|
  {
    if lines == [] then Layout([], [])
    else
      var n := |lines|;
      var prev := Decompose(lines[..n - 1]);
      var l := lines[n - 1];
      if IsMarker(l) then
        Layout(prev.preamble, prev.segments + [Segment(l, [])])
      else if prev.segments == [] then
        Layout(prev.preamble + [l], [])
      else
        var m := |prev.segments|;
        var last := prev.segments[m - 1];
        Layout(prev.preamble, prev.segments[..m - 1] + [Segment(last.marker, last.body + [l])])
  }

  /** The layout cuts the file without losing or reordering a line, and
      marker lines never end up in the preamble or a section's buffer. */
  lemma {:induction false} DecomposeSound(lines: seq<string>)
    ensures WellFormed(Decompose(lines))
    ensures Flatten(Decompose(lines)) == lines
  {
    DecomposeWellFormed(lines);
    DecomposeFlattens(lines);
  }

  lemma {:induction false} DecomposeWellFormed(lines: seq<string>)
    ensures WellFormed(Decompose(lines))
  {
    if lines != [] {
      var n := |lines|;
      DecomposeWellFormed(lines[..n - 1]);
    }
  }

  lemma {:induction false} DecomposeFlattens(lines: seq<string>)
    ensures Flatten(Decompose(lines)) == lines
  {
    if lines != [] {
      var n := |lines|;
      var prev := Decompose(lines[..n - 1]);
      var l := lines[n - 1];
      DecomposeFlattens(lines[..n - 1]);
      LastSplit(lines);
      if IsMarker(l) {
        FlattenSnoc(prev.preamble, prev.segments, Segment(l, []));
      } else if prev.segments != [] {
        FlattenExtend(prev, l);
      }
    }
  }

  /** Appending a line to the last segment appends it to the flattened lines. */
  lemma FlattenExtend(layout: Layout, l: string)
    requires layout.segments != []
    ensures var segs := layout.segments;
      var m := |segs|;
      Flatten(Layout(layout.preamble, segs[..m - 1] + [Segment(segs[m - 1].marker, segs[m - 1].body + [l])]))
        == Flatten(layout) + [l]
  {
    var segs := layout.segments;
    var m := |segs|;
    var last := segs[m - 1];
    LastSplit(segs);
    FlattenSnoc(layout.preamble, segs[..m - 1], last);
    FlattenSnoc(layout.preamble, segs[..m - 1], Segment(last.marker, last.body + [l]));
  }

  lemma DecomposeSnoc(lines: seq<string>, l: string)
    ensures Decompose(lines + [l]) ==
      var prev := Decompose(lines);
      var m := |prev.segments|;
      if IsMarker(l) then Layout(prev.preamble, prev.segments + [Segment(l, [])])
      else if m == 0 then Layout(prev.preamble + [l], [])
      else Layout(prev.preamble, prev.segments[..m - 1] + [Segment(prev.segments[m - 1].marker, prev.segments[m - 1].body + [l])])
  {
    assert (lines + [l])[..|lines|] == lines;
  }

  lemma {:induction false} DecomposePreamble(p: seq<string>)
    requires NoMarker(p)
    ensures Decompose(p) == Layout(p, [])
  {
    if p != [] {
      var n := |p|;
      LastSplit(p);
      DecomposePreamble(p[..n - 1]);
      DecomposeSnoc(p[..n - 1], p[n - 1]);
    }
  }

  /** Lines without a marker after a marker all go to that marker's segment. */
  lemma {:induction false} DecomposeSegment(x: seq<string>, marker: string, body: seq<string>)
    requires IsMarker(marker) && NoMarker(body)
    ensures Decompose(x + [marker] + body) ==
      Layout(Decompose(x).preamble, Decompose(x).segments + [Segment(marker, body)])
  {
    var prev := Decompose(x);
    if body == [] {
      assert x + [marker] + body == x + [marker];
      DecomposeSnoc(x, marker);
    } else {
      var n := |body|;
      var front := body[..n - 1];
      assert x + [marker] + body == (x + [marker] + front) + [body[n - 1]];
      DecomposeSegment(x, marker, front);
      DecomposeSnoc(x + [marker] + front, body[n - 1]);
      var segs := prev.segments + [Segment(marker, front)];
      assert segs[..|segs| - 1] == prev.segments;
      assert front + [body[n - 1]] == body;
    }
  }

  /** A well-formed layout is the only one that flattens to its lines: each
      section's buffer is exactly the lines between its marker and the next
      marker or the end of the file. */
  lemma {:induction false} DecomposeFlatten(layout: Layout)
    requires WellFormed(layout)
    ensures Decompose(Flatten(layout)) == layout
    decreases |layout.segments|
  {
    var segs := layout.segments;
    if segs == [] {
      DecomposePreamble(layout.preamble);
    } else {
      var n := |segs|;
      var front := Layout(layout.preamble, segs[..n - 1]);
      DecomposeFlatten(front);
      DecomposeSegment(Flatten(front), segs[n - 1].marker, segs[n - 1].body);
      LastSplit(segs);
    }
  }

  /** What is buffered for a segment: nothing under an empty name. */
  function Buffered(s: Segment): seq<string> {
    if SectionKey(s.marker) != "" then s.body else []
  }

  /** Whether a section's first buffered line is its header: always for the
      section still open at the end of the file, otherwise unless it is `Heading`. */
  predicate ReadsHeader(key: string, atEnd: bool) {
    atEnd || key != HeadingKey
  }

  /** A later marker closes segment `s`: a section with a non-empty name is
      read and stored under that name, replacing an earlier table of the
      same name; a segment with an empty name is skipped. */
  function Close(dfs: Dict<Table>, s: Segment): (r: Result<Dict<Table>>)
    ensures Stored(dfs) && r.Ok? ==> Stored(r.value)
    ensures r.Ok? <==> SectionKey(s.marker) == "" || ReadTable(s.body, ReadsHeader(SectionKey(s.marker), false)).Ok?
  {
    var key := SectionKey(s.marker);
    if key == "" then Ok(dfs)
    else
      var t :- ReadTable(s.body, ReadsHeader(key, false));
      PutStored(dfs, key, t);
      Ok(Put(dfs, key, t))
  }

  /** Storing a table under a non-empty name keeps the stored names
      distinct and non-empty. */
  lemma PutStored(dfs: Dict<Table>, key: string, t: Table)
    requires key != ""
    ensures Stored(dfs) ==> Stored(Put(dfs, key, t))
  {
    if Stored(dfs) {
      PutNoDup(dfs, key, t);
    }
  }

  /** The names tables are stored under are distinct and non-empty. */
  predicate Stored(dfs: Dict<Table>) {
    NoDup(Keys(dfs)) && forall k :: k in Keys(dfs) ==> k != ""
  }

  /** The tables of the segments that later markers closed, in order; the
      first read that fails aborts. */
  function CloseAll(segs: seq<Segment>): (r: Result<Dict<Table>>)
    ensures r.Ok? ==> Stored(r.value)
  {
    if segs == [] then Ok([])
    else
      var dfs :- CloseAll(segs[..|segs| - 1]);
      Close(dfs, segs[|segs| - 1])
  }

  /** The segments that a later marker has closed. */
  function Closed(lines: seq<string>): seq<Segment> {
    var segs := Decompose(lines).segments;
    if segs == [] then [] else segs[..|segs| - 1]
  }

  /** The tables of a file cut into segments `segs`, keyed by section name
      in order of first appearance. With no segment, or when the last
      marker names no section, nothing is left to read at the end and the
      result is EmptyData. */
  function SplitSegments(segs: seq<Segment>): (r: Result<Dict<Table>>)
    ensures r.Ok? ==> Stored(r.value)
  {
    if segs == [] then Err(EmptyData)
    else
      var dfs :- CloseAll(segs[..|segs| - 1]);
      var last := segs[|segs| - 1];
      var t :- ReadTable(Buffered(last), ReadsHeader(SectionKey(last.marker), true));
      PutNoDup(dfs, SectionKey(last.marker), t);
      Ok(Put(dfs, SectionKey(last.marker), t))
  }

  /** The tables of one file: those of its layout's segments. */
  function SplitFile(lines: seq<string>): (r: Result<Dict<Table>>)
    ensures r.Ok? ==> NoDup(Keys(r.value))
    ensures r.Ok? ==> forall k :: k in Keys(r.value) ==> k != ""
  {
    SplitSegments(Decompose(lines).segments)
  }

  /** What the single pass keeps between lines: the key of the open
      section, the lines buffered for it, and the tables read so far. */
  datatype Scan = Scan(writeKey: Option<string>, buffer: seq<string>, dfs: Dict<Table>)

  /** The pass before its first line. */
  const Start: Scan := Scan(None, [], [])

  /** The pass reads one line: a marker reads the open section, if any, and
      opens its own; another line is buffered while a section is open. A
      read that fails stops the pass. */
  function Step(st: Scan, l: string): Result<Scan> {
    if IsMarker(l) then
      if Open(st.writeKey) then
        var t :- ReadTable(st.buffer, ReadsHeader(st.writeKey.value, false));
        Ok(Scan(Some(SectionKey(l)), [], Put(st.dfs, st.writeKey.value, t)))
      else
        Ok(Scan(Some(SectionKey(l)), [], st.dfs))
    else if Open(st.writeKey) then
      Ok(Scan(st.writeKey, st.buffer + [l], st.dfs))
    else
      Ok(st)
  }

  /** The state of the single pass after the lines `prefix`. */
  ghost predicate Scanned(prefix: seq<string>, st: Scan) {
    var segs := Decompose(prefix).segments;
    if segs == [] then st == Start
    else
      var last := segs[|segs| - 1];
      && st.writeKey == Some(SectionKey(last.marker))
      && st.buffer == Buffered(last)
      && CloseAll(segs[..|segs| - 1]) == Ok(st.dfs)
  }

  lemma ClosedSnoc(lines: seq<string>, l: string)
    ensures Closed(lines) <= Closed(lines + [l])
  {
    DecomposeSnoc(lines, l);
    var segs := Decompose(lines).segments;
    if segs != [] && !IsMarker(l) {
      var m := |segs|;
      var next := segs[..m - 1] + [Segment(segs[m - 1].marker, segs[m - 1].body + [l])];
      assert next[..m - 1] == segs[..m - 1];
    } else if segs != [] {
      assert (segs + [Segment(l, [])])[..|segs|] == segs;
    }
  }

  lemma {:induction false} ClosedPrefix(lines: seq<string>, i: nat)
    requires i <= |lines|
    ensures Closed(lines[..i]) <= Closed(lines)
    decreases |lines|
  {
    if i < |lines| {
      var n := |lines|;
      assert lines[..n - 1][..i] == lines[..i];
      ClosedPrefix(lines[..n - 1], i);
      ClosedSnoc(lines[..n - 1], lines[n - 1]);
      LastSplit(lines);
    } else {
      assert lines[..i] == lines;
    }
  }

  /** A read that fails while closing the first segments fails the whole file. */
  lemma {:induction false} CloseAllAborts(p: seq<Segment>, q: seq<Segment>)
    requires p <= q
    requires CloseAll(p).Err?
    ensures CloseAll(q) == CloseAll(p)
    decreases |q|
  {
    if |q| > |p| {
      assert q[..|q| - 1][..|p|] == p;
      CloseAllAborts(p, q[..|q| - 1]);
    } else {
      assert p == q;
    }
  }

  /** A marker line closes the open section, if any, and opens its own. */
  lemma ScanMarker(lines: seq<string>, i: nat, st: Scan)
    requires i < |lines| && Scanned(lines[..i], st)
    requires IsMarker(lines[i]) && Step(st, lines[i]).Ok?
    ensures Scanned(lines[..i + 1], Step(st, lines[i]).value)
  {
    var prefix := lines[..i];
    var l := lines[i];
    TakeSnoc(lines, i);
    DecomposeSnoc(prefix, l);
    var segs := Decompose(prefix).segments;
    if segs != [] {
      LastSplit(segs);
    }
    SnocFront(segs, Segment(l, []));
  }

  /** Any other line is buffered for the open section, if any. */
  lemma ScanBody(lines: seq<string>, i: nat, st: Scan)
    requires i < |lines| && Scanned(lines[..i], st)
    requires !IsMarker(lines[i])
    ensures Step(st, lines[i]).Ok? && Scanned(lines[..i + 1], Step(st, lines[i]).value)
  {
    var prefix := lines[..i];
    var l := lines[i];
    TakeSnoc(lines, i);
    DecomposeSnoc(prefix, l);
    var segs := Decompose(prefix).segments;
    if segs != [] {
      var m := |segs|;
      var next := segs[..m - 1] + [Segment(segs[m - 1].marker, segs[m - 1].body + [l])];
      assert next[..m - 1] == segs[..m - 1];
    }
  }

  lemma CloseLastFails(segs: seq<Segment>, dfs: Dict<Table>)
    requires segs != [] && CloseAll(segs[..|segs| - 1]) == Ok(dfs)
    requires SectionKey(segs[|segs| - 1].marker) != ""
    requires ReadTable(segs[|segs| - 1].body, ReadsHeader(SectionKey(segs[|segs| - 1].marker), false)).Err?
    ensures CloseAll(segs) == Err(ReadTable(segs[|segs| - 1].body, ReadsHeader(SectionKey(segs[|segs| - 1].marker), false)).error)
  {
  }

  /** A marker closes every segment before it. */
  lemma ClosedAtMarker(x: seq<string>, l: string)
    requires IsMarker(l)
    ensures Closed(x + [l]) == Decompose(x).segments
  {
    DecomposeSnoc(x, l);
    var segs := Decompose(x).segments;
    assert (segs + [Segment(l, [])])[..|segs|] == segs;
  }

  lemma ClosedFails(lines: seq<string>)
    requires CloseAll(Closed(lines)).Err?
    ensures SplitFile(lines) == Err(CloseAll(Closed(lines)).error)
  {
  }

  /** A failed read when a marker closes a section is the file's result. */
  lemma ScanAborts(lines: seq<string>, i: nat, st: Scan)
    requires i < |lines| && Scanned(lines[..i], st)
    requires Step(st, lines[i]).Err?
    ensures SplitFile(lines) == Err(Step(st, lines[i]).error)
  {
    var segs := Decompose(lines[..i]).segments;
    var e := Step(st, lines[i]).error;
    assert IsMarker(lines[i]) && Open(st.writeKey);
    assert e == ReadTable(st.buffer, ReadsHeader(st.writeKey.value, false)).error;
    TakeSnoc(lines, i);
    ClosedAtMarker(lines[..i], lines[i]);
    assert Closed(lines[..i + 1]) == segs;
    CloseLastFails(segs, st.dfs);
    assert CloseAll(segs) == Err(e);
    ClosedPrefix(lines, i + 1);
    CloseAllAborts(segs, Closed(lines));
    ClosedFails(lines);
  }

  /** After the last line, reading the buffer finishes the file. */
  lemma ScanEnds(lines: seq<string>, st: Scan)
    requires Scanned(lines, st)
    ensures ReadTable(st.buffer, true).Ok? ==>
      st.writeKey.Some? && SplitFile(lines) == Ok(Put(st.dfs, st.writeKey.value, ReadTable(st.buffer, true).value))
    ensures ReadTable(st.buffer, true).Err? ==> SplitFile(lines) == Err(ReadTable(st.buffer, true).error)
  {
  }

  /** The single pass of the program over a file's lines: a marker closes
      the open section and opens a new one, any other line is buffered for
      the open section, and the last section is read at the end. */
  method ProcessFile(lines: seq<string>) returns (r: Result<Dict<Table>>)
    ensures r == SplitFile(lines)
  {
    var st := Start;
    var i := 0;
    while i < |lines|
      invariant i <= |lines|
      invariant Scanned(lines[..i], st)
    {
      var next := Step(st, lines[i]);
      if next.Err? {
        ScanAborts(lines, i, st);
        return Err(next.error);
      }
      ScanLine(lines, i, st);
      st := next.value;
      i := i + 1;
    }
    TakeAll(lines);
    ScanEnds(lines, st);
    var t := ReadTable(st.buffer, true);
    if t.Err? {
      return Err(t.error);
    }
    r := Ok(Put(st.dfs, st.writeKey.value, t.value));
  }

  /** A line the pass reads without failing keeps the pass in step with the layout. */
  lemma ScanLine(lines: seq<string>, i: nat, st: Scan)
    requires i < |lines| && Scanned(lines[..i], st)
    requires Step(st, lines[i]).Ok?
    ensures Scanned(lines[..i + 1], Step(st, lines[i]).value)
  {
    if IsMarker(lines[i]) {
      ScanMarker(lines, i, st);
    } else {
      ScanBody(lines, i, st);
    }
  }

  /** The section name each segment's marker opens. */
  function SectionKeys(segs: seq<Segment>): (keys: seq<string>)
    ensures |keys| == |segs|
  {
    seq(|segs|, i requires 0 <= i < |segs| => SectionKey(segs[i].marker))
  }

  /** Every named segment reads as a section closed by a later marker. */
  predicate ClosedRead(segs: seq<Segment>) {
    forall i :: 0 <= i < |segs| && SectionKey(segs[i].marker) != "" ==>
      ReadTable(segs[i].body, ReadsHeader(SectionKey(segs[i].marker), false)).Ok?
  }

  lemma ClosedReadSnoc(segs: seq<Segment>)
    requires segs != []
    ensures var s := segs[|segs| - 1];
      ClosedRead(segs) <==>
        && ClosedRead(segs[..|segs| - 1])
        && (SectionKey(s.marker) == "" || ReadTable(s.body, ReadsHeader(SectionKey(s.marker), false)).Ok?)
  {
    var front := segs[..|segs| - 1];
    assert forall i :: 0 <= i < |front| ==> front[i] == segs[i];
  }

  /** Closing segments succeeds exactly when every named one reads. */
  lemma {:induction false} CloseAllOk(segs: seq<Segment>)
    ensures CloseAll(segs).Ok? <==> ClosedRead(segs)
  {
    if segs != [] {
      CloseAllOk(segs[..|segs| - 1]);
      ClosedReadSnoc(segs);
    }
  }

  /** The closed tables are stored under exactly the non-empty section names. */
  lemma {:induction false} CloseAllKeys(segs: seq<Segment>, k: string)
    requires CloseAll(segs).Ok?
    ensures k in Keys(CloseAll(segs).value) <==> k != "" && k in SectionKeys(segs)
  {
    if segs != [] {
      var front := segs[..|segs| - 1];
      CloseAllKeys(front, k);
      assert SectionKeys(segs) == SectionKeys(front) + [SectionKey(segs[|segs| - 1].marker)];
    }
  }

  lemma CloseAllSnoc(segs: seq<Segment>)
    requires segs != [] && CloseAll(segs[..|segs| - 1]).Ok?
    ensures CloseAll(segs) == Close(CloseAll(segs[..|segs| - 1]).value, segs[|segs| - 1])
  {
  }

  lemma SectionKeysSnoc(segs: seq<Segment>)
    requires segs != []
    ensures SectionKeys(segs) == SectionKeys(segs[..|segs| - 1]) + [SectionKey(segs[|segs| - 1].marker)]
  {
  }

  /** Closing a segment with a new non-empty name appends that name. */
  lemma CloseNewKey(dfs: Dict<Table>, s: Segment)
    requires SectionKey(s.marker) != "" && SectionKey(s.marker) !in Keys(dfs)
    requires Close(dfs, s).Ok?
    ensures Keys(Close(dfs, s).value) == Keys(dfs) + [SectionKey(s.marker)]
  {
  }

  /** Distinct names are stored in the order of their markers. */
  lemma {:induction false} CloseAllOrder(segs: seq<Segment>)
    requires CloseAll(segs).Ok?
    requires forall i :: 0 <= i < |segs| ==> SectionKey(segs[i].marker) != ""
    requires NoDup(SectionKeys(segs))
    ensures Keys(CloseAll(segs).value) == SectionKeys(segs)
  {
    if segs != [] {
      var n := |segs|;
      var front := segs[..n - 1];
      var key := SectionKey(segs[n - 1].marker);
      SectionKeysSnoc(segs);
      NoDupSnoc(SectionKeys(front), key);
      CloseAllOrder(front);
      CloseAllSnoc(segs);
      CloseNewKey(CloseAll(front).value, segs[n - 1]);
    }
  }

  /** A name that repeats keeps the table of its last closed segment. */
  lemma {:induction false} CloseAllLastWins(segs: seq<Segment>, j: nat)
    requires CloseAll(segs).Ok?
    requires j < |segs| && SectionKey(segs[j].marker) != ""
    requires forall i :: j < i < |segs| ==> SectionKey(segs[i].marker) != SectionKey(segs[j].marker)
    ensures var t := ReadTable(segs[j].body, ReadsHeader(SectionKey(segs[j].marker), false));
      t.Ok? && Get(CloseAll(segs).value, SectionKey(segs[j].marker)) == Some(t.value)
  {
    if j < |segs| - 1 {
      CloseAllLastWins(segs[..|segs| - 1], j);
    }
  }

  /** The tables are stored under the non-empty section names the markers open. */
  lemma {:induction false} SegmentKeys(segs: seq<Segment>, k: string)
    requires SplitSegments(segs).Ok?
    ensures k in Keys(SplitSegments(segs).value) <==> k != "" && k in SectionKeys(segs)
  {
    var n := |segs|;
    CloseAllKeys(segs[..n - 1], k);
    SectionKeysSnoc(segs);
  }

  /** One file's tables are stored under the non-empty section names its markers open. */
  lemma {:induction false} SplitKeys(lines: seq<string>, k: string)
    requires SplitFile(lines).Ok?
    ensures k in Keys(SplitFile(lines).value) <==> k != "" && k in SectionKeys(Decompose(lines).segments)
  {
    SegmentKeys(Decompose(lines).segments, k);
  }

  /** The table of the last segment carrying a name is the one stored under it. */
  lemma {:induction false} SegmentLastWins(segs: seq<Segment>, j: nat)
    requires SplitSegments(segs).Ok?
    requires j < |segs| && SectionKey(segs[j].marker) != ""
    requires forall i :: j < i < |segs| ==> SectionKey(segs[i].marker) != SectionKey(segs[j].marker)
    ensures
      var key := SectionKey(segs[j].marker);
      var t := ReadTable(segs[j].body, ReadsHeader(key, j == |segs| - 1));
      t.Ok? && Get(SplitSegments(segs).value, key) == Some(t.value)
  {
    var n := |segs|;
    if j < n - 1 {
      CloseAllLastWins(segs[..n - 1], j);
    }
  }

  /** When a name repeats within a file, the table of its last section wins;
      that table has a header line unless it is a `Heading` section closed by
      a later marker. */
  lemma {:induction false} SplitLastWins(lines: seq<string>, j: nat)
    requires SplitFile(lines).Ok?
    requires j < |Decompose(lines).segments|
    requires SectionKey(Decompose(lines).segments[j].marker) != ""
    requires SectionKey(Decompose(lines).segments[j].marker) !in SectionKeys(Decompose(lines).segments[j + 1..])
    ensures
      var segs := Decompose(lines).segments;
      var key := SectionKey(segs[j].marker);
      var t := ReadTable(segs[j].body, ReadsHeader(key, j == |segs| - 1));
      t.Ok? && Get(SplitFile(lines).value, key) == Some(t.value)
  {
    var segs := Decompose(lines).segments;
    LaterNames(segs, j);
    SegmentLastWins(segs, j);
  }

  /** A name missing from the sections after `j` differs from each of their names. */
  lemma LaterNames(segs: seq<Segment>, j: nat)
    requires j < |segs|
    requires SectionKey(segs[j].marker) !in SectionKeys(segs[j + 1..])
    ensures forall i :: j < i < |segs| ==> SectionKey(segs[i].marker) != SectionKey(segs[j].marker)
  {
    var later := SectionKeys(segs[j + 1..]);
    forall i | j < i < |segs|
      ensures SectionKey(segs[i].marker) != SectionKey(segs[j].marker)
    {
      assert later[i - j - 1] == SectionKey(segs[i].marker);
    }
  }

  /** The lines before the first marker belong to no section. */
  lemma {:induction false} FlattenPreamble(p: seq<string>, segs: seq<Segment>)
    ensures Flatten(Layout(p, segs)) == p + Flatten(Layout([], segs))
    decreases |segs|
  {
    if segs != [] {
      FlattenPreamble(p, segs[..|segs| - 1]);
    }
  }

  lemma PreambleIgnored(pre: seq<string>, rest: seq<string>)
    requires NoMarker(pre)
    requires rest != [] && IsMarker(rest[0])
    ensures SplitFile(pre + rest) == SplitFile(rest)
  {
    var layout := Decompose(rest);
    DecomposeSound(rest);
    FlattenPreamble(layout.preamble, layout.segments);
    if layout.preamble != [] {
      assert false;
    }
    FlattenPreamble(pre, layout.segments);
    assert pre + rest == Flatten(Layout(pre, layout.segments));
    DecomposeFlatten(Layout(pre, layout.segments));
  }

  /** The boundary law: for a file made of a preamble and sections with
      distinct non-empty names, there is one table per marker, in marker
      order, each read from exactly the lines between its marker and the
      next (or the end of the file). */
  lemma {:induction false} BoundaryLaw(pre: seq<string>, segs: seq<Segment>)
    requires WellFormed(Layout(pre, segs))
    requires segs != []
    requires forall i :: 0 <= i < |segs| ==> SectionKey(segs[i].marker) != ""
    requires NoDup(SectionKeys(segs))
    ensures
      var r := SplitFile(Flatten(Layout(pre, segs)));
      && (r.Ok? <==> forall i :: 0 <= i < |segs| ==>
            ReadTable(segs[i].body, ReadsHeader(SectionKey(segs[i].marker), i == |segs| - 1)).Ok?)
      && (r.Ok? ==> Keys(r.value) == SectionKeys(segs))
      && (r.Ok? ==> forall i :: 0 <= i < |segs| ==>
            var t := ReadTable(segs[i].body, ReadsHeader(SectionKey(segs[i].marker), i == |segs| - 1));
            t.Ok? && Get(r.value, SectionKey(segs[i].marker)) == Some(t.value))
  {
    DecomposeFlatten(Layout(pre, segs));
    assert SplitFile(Flatten(Layout(pre, segs))) == SplitSegments(segs);
    BoundaryOk(segs);
    var r := SplitSegments(segs);
    if r.Ok? {
      BoundaryOrder(segs);
      forall i | 0 <= i < |segs|
        ensures var t := ReadTable(segs[i].body, ReadsHeader(SectionKey(segs[i].marker), i == |segs| - 1));
          t.Ok? && Get(r.value, SectionKey(segs[i].marker)) == Some(t.value)
      {
        BoundaryTable(segs, i);
      }
    }
  }

  /** The usual shape of a report: a `Heading` section closed by a `Data`
      section. The heading is read without a header line and the data with
      one; the file splits exactly when both read, into the two tables in
      that order. */
  lemma {:induction false} HeadingThenData(heading: seq<string>, data: seq<string>)
    requires NoMarker(heading) && NoMarker(data)
    ensures
      var r := SplitFile(["[Heading]\n"] + heading + ["[Data]\n"] + data);
      && (r.Ok? <==> ReadTable(heading, false).Ok? && ReadTable(data, true).Ok?)
      && (r.Ok? ==> Keys(r.value) == [HeadingKey, "Data"])
      && (r.Ok? ==> Get(r.value, HeadingKey) == Some(ReadTable(heading, false).value))
      && (r.Ok? ==> Get(r.value, "Data") == Some(ReadTable(data, true).value))
  {
    var segs := [Segment("[Heading]\n", heading), Segment("[Data]\n", data)];
    HeadingDataKeys(heading, data);
    HeadingDataLines(heading, data);
    assert SectionKey(segs[0].marker) == SectionKeys(segs)[0];
    assert SectionKey(segs[1].marker) == SectionKeys(segs)[1];
    BoundaryLaw([], segs);
    assert ReadsHeader(HeadingKey, false) == false;
  }

  /** The two markers open the sections `Heading` and `Data`. */
  lemma HeadingDataKeys(heading: seq<string>, data: seq<string>)
    requires NoMarker(heading) && NoMarker(data)
    ensures var segs := [Segment("[Heading]\n", heading), Segment("[Data]\n", data)];
      && WellFormed(Layout([], segs))
      && SectionKeys(segs) == [HeadingKey, "Data"]
      && NoDup(SectionKeys(segs))
  {
    MarkerName(HeadingKey);
    MarkerName("Data");
    assert "[" + HeadingKey + "]\n" == "[Heading]\n";
    assert "[" + "Data" + "]\n" == "[Data]\n";
  }

  /** The two sections written out are the file's lines. */
  lemma HeadingDataLines(heading: seq<string>, data: seq<string>)
    ensures Flatten(Layout([], [Segment("[Heading]\n", heading), Segment("[Data]\n", data)])) ==
      ["[Heading]\n"] + heading + ["[Data]\n"] + data
  {
    var h := Segment("[Heading]\n", heading);
    var d := Segment("[Data]\n", data);
    FlattenSnoc([], [], h);
    FlattenSnoc([], [h], d);
    assert [h] + [d] == [h, d];
  }

  lemma BoundaryTable(segs: seq<Segment>, j: nat)
    requires SplitSegments(segs).Ok?
    requires j < |segs| && SectionKey(segs[j].marker) != ""
    requires NoDup(SectionKeys(segs))
    ensures
      var key := SectionKey(segs[j].marker);
      var t := ReadTable(segs[j].body, ReadsHeader(key, j == |segs| - 1));
      t.Ok? && Get(SplitSegments(segs).value, key) == Some(t.value)
  {
    var keys := SectionKeys(segs);
    forall i | j < i < |segs|
      ensures SectionKey(segs[i].marker) != SectionKey(segs[j].marker)
    {
      assert keys[i] != keys[j];
    }
    SegmentLastWins(segs, j);
  }

  lemma BoundaryOk(segs: seq<Segment>)
    requires segs != []
    requires forall i :: 0 <= i < |segs| ==> SectionKey(segs[i].marker) != ""
    ensures SplitSegments(segs).Ok? <==> forall i :: 0 <= i < |segs| ==>
      ReadTable(segs[i].body, ReadsHeader(SectionKey(segs[i].marker), i == |segs| - 1)).Ok?
  {
    var n := |segs|;
    var front := segs[..n - 1];
    CloseAllOk(front);
    assert forall i :: 0 <= i < |front| ==> front[i] == segs[i];
  }

  lemma BoundaryOrder(segs: seq<Segment>)
    requires SplitSegments(segs).Ok?
    requires forall i :: 0 <= i < |segs| ==> SectionKey(segs[i].marker) != ""
    requires NoDup(SectionKeys(segs))
    ensures Keys(SplitSegments(segs).value) == SectionKeys(segs)
  {
    var n := |segs|;
    var front := segs[..n - 1];
    var key := SectionKey(segs[n - 1].marker);
    SectionKeysSnoc(segs);
    NoDupSnoc(SectionKeys(front), key);
    CloseAllOrder(front);
    CloseAllKeys(front, key);
  }
}

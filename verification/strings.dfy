/** The Python string operations the splitting step relies on:
    `str.strip(chars)`, the tab-separated field split of the CSV reader,
    the newline a line read from a file keeps, and `str.replace(" ", "_")`.
 */
module Strings {

  const Newline: char := '\n'

  /** `s.lstrip(cs)`: drop leading characters that belong to `cs`. */
  function StripLeft(s: string, cs: set<char>): string {
    if |s| > 0 && s[0] in cs then StripLeft(s[1..], cs) else s
  }

  /** `s.rstrip(cs)`: drop trailing characters that belong to `cs`. */
  function StripRight(s: string, cs: set<char>): string {
    if |s| > 0 && s[|s| - 1] in cs then StripRight(s[..|s| - 1], cs) else s
  }

  /** `s.strip(cs)`: drop characters of `cs` from both ends. */
  function Strip(s: string, cs: set<char>): string {
    StripRight(StripLeft(s, cs), cs)
  }

  lemma {:induction false} StripLeftEnds(s: string, cs: set<char>)
    ensures var r := StripLeft(s, cs); r == [] || r[0] !in cs
  {
    if |s| > 0 && s[0] in cs {
      StripLeftEnds(s[1..], cs);
    }
  }

  lemma {:induction false} StripRightEnds(s: string, cs: set<char>)
    ensures var r := StripRight(s, cs); (r == [] || r[|r| - 1] !in cs) && r <= s
  {
    if |s| > 0 && s[|s| - 1] in cs {
      StripRightEnds(s[..|s| - 1], cs);
    }
  }

  /** The stripped text neither starts nor ends with a character of `cs`. */
  lemma StripEnds(s: string, cs: set<char>)
    ensures var r := Strip(s, cs); r == [] || (r[0] !in cs && r[|r| - 1] !in cs)
  {
    var l := StripLeft(s, cs);
    StripLeftEnds(s, cs);
    StripRightEnds(l, cs);
  }

  /** Every character of `s` belongs to `cs`. */
  predicate AllIn(s: string, cs: set<char>) {
    forall i :: 0 <= i < |s| ==> s[i] in cs
  }

  lemma {:induction false} StripLeftWrapped(p: string, t: string, cs: set<char>)
    requires AllIn(p, cs)
    requires t == [] || t[0] !in cs
    ensures StripLeft(p + t, cs) == t
  {
    if p != [] {
      assert (p + t)[1..] == p[1..] + t;
      StripLeftWrapped(p[1..], t, cs);
    }
  }

  lemma {:induction false} StripRightWrapped(t: string, q: string, cs: set<char>)
    requires AllIn(q, cs)
    requires t == [] || t[|t| - 1] !in cs
    ensures StripRight(t + q, cs) == t
  {
    if q != [] {
      assert (t + q)[..|t + q| - 1] == t + q[..|q| - 1];
      StripRightWrapped(t, q[..|q| - 1], cs);
    }
  }

  /** Stripping recovers a text wrapped in characters of `cs` exactly when
      the text itself neither starts nor ends with one of them. */
  lemma StripWrapped(p: string, name: string, q: string, cs: set<char>)
    requires AllIn(p, cs) && AllIn(q, cs)
    requires name == [] || (name[0] !in cs && name[|name| - 1] !in cs)
    ensures Strip(p + name + q, cs) == name
  {
    assert p + name + q == p + (name + q);
    if name == [] {
      assert name + q == q;
      StripLeftAll(q, cs);
      StripLeftWrapped(p, [], cs);
      assert p + q == (p + q) + [];
      StripLeftAll(p + q, cs);
    } else {
      assert (name + q)[0] == name[0];
      StripLeftWrapped(p, name + q, cs);
      StripRightWrapped(name, q, cs);
    }
  }

  lemma StripLeftAll(s: string, cs: set<char>)
    requires AllIn(s, cs)
    ensures StripLeft(s, cs) == []
  {
  }

  /** Stripping twice is stripping once. */
  lemma StripIdempotent(s: string, cs: set<char>)
    ensures Strip(Strip(s, cs), cs) == Strip(s, cs)
  {
    var r := Strip(s, cs);
    StripEnds(s, cs);
    assert r == [] + r + [];
    StripWrapped([], r, [], cs);
  }

  /** The line without the newline it was read with (if any). */
  function Chomp(l: string): (r: string)
    ensures l == r || l == r + [Newline]
  {
    if |l| > 0 && l[|l| - 1] == Newline then l[..|l| - 1] else l
  }

  /** The fields of `s` between occurrences of `sep`; always at least one. */
  function Split(s: string, sep: char): (fs: seq<string>)
    ensures |fs| >= 1
    ensures forall i :: 0 <= i < |fs| ==> sep !in fs[i]
  {
    if s == [] then [""]
    else
      var rest := Split(s[1..], sep);
      if s[0] == sep then [""] + rest
      else [[s[0]] + rest[0]] + rest[1..]
  }

  /** The fields written out with `sep` between consecutive ones. */
  function Join(fs: seq<string>, sep: char): string
    requires |fs| >= 1
  {
    if |fs| == 1 then fs[0] else fs[0] + [sep] + Join(fs[1..], sep)
  }

  /** Joining the fields of a split gives the text back. */
  lemma {:induction false} JoinSplit(s: string, sep: char)
    ensures Join(Split(s, sep), sep) == s
  {
    if s != [] {
      var rest := Split(s[1..], sep);
      JoinSplit(s[1..], sep);
      if s[0] == sep {
        assert ([""] + rest)[1..] == rest;
      } else {
        var fs := [[s[0]] + rest[0]] + rest[1..];
        if |rest| == 1 {
          assert fs == [[s[0]] + rest[0]];
        } else {
          assert fs[1..] == rest[1..];
          assert Join(rest, sep) == rest[0] + [sep] + Join(rest[1..], sep);
        }
      }
    }
  }

  /** A text with no separator in front of the rest only lengthens the first field. */
  lemma {:induction false} SplitPrefix(a: string, t: string, sep: char)
    requires sep !in a
    ensures Split(a + t, sep) == [a + Split(t, sep)[0]] + Split(t, sep)[1..]
  {
    var ft := Split(t, sep);
    if a == [] {
      assert a + t == t;
      assert a + ft[0] == ft[0];
      assert ft == [ft[0]] + ft[1..];
    } else {
      assert (a + t)[1..] == a[1..] + t;
      SplitPrefix(a[1..], t, sep);
      var rest := Split(a[1..] + t, sep);
      assert rest[0] == a[1..] + ft[0];
      assert rest[1..] == ft[1..];
      assert [a[0]] + (a[1..] + ft[0]) == a + ft[0];
    }
  }

  /** Splitting joined fields that contain no separator gives the fields back. */
  lemma {:induction false} SplitJoin(fs: seq<string>, sep: char)
    requires |fs| >= 1
    requires forall i :: 0 <= i < |fs| ==> sep !in fs[i]
    ensures Split(Join(fs, sep), sep) == fs
  {
    if |fs| == 1 {
      assert fs[0] == fs[0] + [];
      SplitPrefix(fs[0], [], sep);
    } else {
      var tail := Join(fs[1..], sep);
      SplitJoin(fs[1..], sep);
      assert fs[0] + [sep] + tail == fs[0] + ([sep] + tail);
      SplitPrefix(fs[0], [sep] + tail, sep);
      assert ([sep] + tail)[1..] == tail;
      assert Split([sep] + tail, sep) == [""] + fs[1..];
      assert fs[0] + "" == fs[0];
    }
  }

  /** `s.replace(" ", "_")`. */
  function ReplaceSpaces(s: string): string {
    if s == [] then [] else [if s[0] == ' ' then '_' else s[0]] + ReplaceSpaces(s[1..])
  }

  /** The replacement changes each space into `_` and nothing else. */
  lemma {:induction false} ReplaceSpacesSpec(s: string)
    ensures |ReplaceSpaces(s)| == |s|
    ensures forall i :: 0 <= i < |s| ==> ReplaceSpaces(s)[i] == if s[i] == ' ' then '_' else s[i]
  {
    if s != [] {
      ReplaceSpacesSpec(s[1..]);
    }
  }

  /** The replacement leaves no space and works piece by piece. */
  lemma {:induction false} ReplaceSpacesConcat(a: string, b: string)
    ensures ' ' !in ReplaceSpaces(a + b)
    ensures ReplaceSpaces(a + b) == ReplaceSpaces(a) + ReplaceSpaces(b)
  {
    ReplaceSpacesSpec(a + b);
    ReplaceSpacesSpec(a);
    ReplaceSpacesSpec(b);
    var r := ReplaceSpaces(a + b);
    forall i | 0 <= i < |r|
      ensures r[i] != ' '
    {
    }
    forall i | 0 <= i < |r|
      ensures r[i] == (ReplaceSpaces(a) + ReplaceSpaces(b))[i]
    {
      if i >= |a| {
        assert (a + b)[i] == b[i - |a|];
      }
    }
  }

  /** A text without spaces is left as it is. */
  lemma ReplaceSpacesPlain(s: string)
    requires ' ' !in s
    ensures ReplaceSpaces(s) == s
  {
    ReplaceSpacesSpec(s);
  }
}

/**
 * Merging: the manifest of the split directory is cut into lines, every
 * `ProjectSource=` line names a module file, the files that can be read
 * are concatenated into MergeCode.gpl, and a manifest of fixed layout is
 * written beside it.
 */
module Merge {
  import opened Text
  import opened FileSystem
  import opened LineEndings
  import opened ProjectFile

  const MergedFile: string := "MergeCode.gpl"
  const LineKey: string := "ProjectSource="

  /** The modules the fixed manifest lists. */
  const MergedSources: seq<string> := ["MergeCode.gpl", "__init__IOConfig__.gpl", "__init__RobotConfig__.gpl"]

  // ---------------------------------------------------------------------
  // String splitting
  // ---------------------------------------------------------------------

  /** The line a `\r?\n` match closes: a CR right before the LF belongs to the match. */
  function DropCr(p: string): (r: string)
    ensures |p| - 1 <= |r| <= |p| && r == p[..|r|]
  {
    if p != [] && p[|p| - 1] == '\r' then p[..|p| - 1] else p
  }

  /**
   * `s.split(/\r?\n/)`. The first match of the pattern sits at the first
   * LF, or one character earlier when a CR precedes it, so a line is the
   * text before the next LF without a CR at its end; a CR anywhere else
   * stays in its line.
   */
  function SplitLines(s: string): (r: seq<string>)
    ensures |r| >= 1
    decreases |s|
  {
    match IndexOf(s, '\n', 0)
    case None => [s]
    case Some(i) => [DropCr(s[..i])] + SplitLines(s[i + 1..])
  }

  /** `s.split(c)` for a one-character separator. */
  function SplitOn(s: string, c: char): (r: seq<string>)
    ensures |r| >= 1 && (c in s ==> |r| >= 2)
    decreases |s|
  {
    match IndexOf(s, c, 0)
    case None => [s]
    case Some(i) => [s[..i]] + SplitOn(s[i + 1..], c)
  }

  /** `parts.join(sep)`. */
  function JoinWith(parts: seq<string>, sep: string): string
    requires parts != []
  {
    if |parts| == 1 then parts[0] else parts[0] + sep + JoinWith(parts[1..], sep)
  }

  /** The characters `replace(/"|[\r\n]/g, '')` removes. */
  predicate IsStripped(c: char) {
    c == '"' || c == '\r' || c == '\n'
  }

  function Strip(s: string): string {
    if s == [] then [] else (if IsStripped(s[0]) then [] else [s[0]]) + Strip(s[1..])
  }

  // ---------------------------------------------------------------------
  // Reading the manifest
  // ---------------------------------------------------------------------

  /** `line.startsWith('ProjectSource=')`. */
  predicate IsSourceLine(line: string) {
    HasAt(line, 0, LineKey)
  }

  /** `line.split('=')[1]` with quotes and line breaks removed. */
  function MergeName(line: string): string
    requires IsSourceLine(line)
  {
    assert line[..14][13] == '=';
    Strip(SplitOn(line, '=')[1])
  }

  /** What one manifest line contributes to the list of module files. */
  function Pick(line: string): seq<string> {
    if IsSourceLine(line) then [MergeName(line)] else []
  }

  function ManifestSources(lines: seq<string>): seq<string> {
    if lines == [] then [] else Pick(lines[0]) + ManifestSources(lines[1..])
  }

  /** The module files a manifest names, in order, as the merge reads them. */
  function MergeNames(data: string): seq<string> {
    ManifestSources(SplitLines(data))
  }

  // ---------------------------------------------------------------------
  // Writing the merge
  // ---------------------------------------------------------------------

  /** A module file as it enters the merge: its text and a CR LF, or nothing when it cannot be read. */
  function Piece(name: string, split: Disk): string {
    match Read(split, name)
    case Contents(data) => data + "\r\n"
    case _ => []
  }

  /** The merged text of the named files, in order. */
  function MergedText(names: seq<string>, split: Disk): string {
    if names == [] then [] else MergedText(names[..|names| - 1], split) + Piece(names[|names| - 1], split)
  }

  /**
   * The manifest the merge always writes: the layout of a saved manifest
   * with CR LF line endings, project MergeCode starting at MAIN, and the
   * merged file with the two configuration modules as its sources.
   */
  function FixedManifest(ts: string): string {
    Manifest(ts, "MergeCode", "MAIN", MergedSources, "\r\n")
  }

  /**
   * The merge directory after a merge: unchanged when the split manifest
   * cannot be read; otherwise MergeCode.gpl and then Project.gpr written,
   * each write failing on its own.
   */
  function MergeResult(split: Disk, merge: Disk, ts: string): Disk {
    match Read(split, ManifestFile)
    case Contents(data) =>
      Write(Write(merge, MergedFile, MergedText(MergeNames(data), split)), ManifestFile, FixedManifest(ts))
    case _ => merge
  }

  method MergeModules(split: Disk, merge: Disk, ts: string) returns (merge': Disk)
    ensures merge' == MergeResult(split, merge, ts)
  {
    var project := Read(split, ManifestFile);
    if !project.Contents? {
      return merge;
    }
    var lines := SplitLines(project.data);
    var merged := "";
    for i := 0 to |lines|
      invariant merged == MergedText(ManifestSources(lines[..i]), split)
    {
      ghost var before := ManifestSources(lines[..i]);
      ManifestSourcesSnoc(lines, i);
      var line := lines[i];
      if IsSourceLine(line) {
        var name := MergeName(line);
        var moduleData := Read(split, name);
        if moduleData.Contents? {
          merged := merged + (moduleData.data + "\r\n");
        }
        assert (before + [name])[..|before|] == before;
      } else {
        assert before + [] == before;
      }
    }
    assert lines[..|lines|] == lines;
    merge' := Write(merge, MergedFile, merged);
    merge' := Write(merge', ManifestFile, FixedManifest(ts));
  }

  // ---------------------------------------------------------------------
  // Facts about splitting
  // ---------------------------------------------------------------------

  /** Joining the lines with LF gives the text back with every CR LF read as LF. */
  lemma {:induction false} SplitLinesJoin(s: string)
    ensures JoinWith(SplitLines(s), "\n") == ToLf(s)
    decreases |s|
  {
    match IndexOf(s, '\n', 0)
    case None =>
      ToLfNoLf(s);
    case Some(i) =>
      var p, r := s[..i], s[i + 1..];
      SplitLinesJoin(r);
      ToLfLine(p, r);
      assert s == p + "\n" + r;
      assert SplitLines(s)[1..] == SplitLines(r);
  }

  /** A line and its LF read back as the line without a closing CR, then LF. */
  lemma ToLfLine(p: string, r: string)
    requires forall k :: 0 <= k < |p| ==> p[k] != '\n'
    ensures ToLf(p + "\n" + r) == DropCr(p) + "\n" + ToLf(r)
  {
    var d := DropCr(p);
    ToLfNoLf(d);
    if |d| < |p| {
      assert p + "\n" + r == d + ("\r\n" + r);
      ToLfAppend(d, "\r\n" + r);
      ToLfCrLfHead(r);
    } else {
      assert p + "\n" + r == d + ("\n" + r);
      ToLfAppend(d, "\n" + r);
      ToLfLfHead(r);
    }
  }

  lemma ToLfCrLfHead(r: string)
    ensures ToLf("\r\n" + r) == "\n" + ToLf(r)
  {
    var s := "\r\n" + r;
    assert CrLfAt(s, 0) && s[2..] == r;
  }

  lemma ToLfLfHead(r: string)
    ensures ToLf("\n" + r) == "\n" + ToLf(r)
  {
    var s := "\n" + r;
    assert !CrLfAt(s, 0) && s[1..] == r;
  }

  /** Text without LF reads back unchanged. */
  lemma {:induction false} ToLfNoLf(s: string)
    requires forall k :: 0 <= k < |s| ==> s[k] != '\n'
    ensures ToLf(s) == s
    decreases |s|
  {
    if s != [] {
      ToLfNoLf(s[1..]);
      assert [s[0]] + s[1..] == s;
    }
  }

  /** No line holds a line feed. */
  lemma {:induction false} SplitLinesNoLf(s: string)
    ensures forall i, k :: 0 <= i < |SplitLines(s)| && 0 <= k < |SplitLines(s)[i]| ==> SplitLines(s)[i][k] != '\n'
    decreases |s|
  {
    match IndexOf(s, '\n', 0)
    case None =>
    case Some(n) =>
      SplitLinesNoLf(s[n + 1..]);
      var r, rest := SplitLines(s), SplitLines(s[n + 1..]);
      forall i, k | 0 <= i < |r| && 0 <= k < |r[i]| ensures r[i][k] != '\n' {
        if i == 0 {
          assert r[0][k] == s[k];
        } else {
          assert r[i] == rest[i - 1];
        }
      }
  }

  /** Joining the parts with the separator gives the text back, and no part holds the separator. */
  lemma {:induction false} SplitOnJoin(s: string, c: char)
    ensures JoinWith(SplitOn(s, c), [c]) == s
    ensures forall i :: 0 <= i < |SplitOn(s, c)| ==> c !in SplitOn(s, c)[i]
    decreases |s|
  {
    match IndexOf(s, c, 0)
    case None =>
    case Some(n) =>
      var r, rest := SplitOn(s, c), SplitOn(s[n + 1..], c);
      SplitOnJoin(s[n + 1..], c);
      assert r[1..] == rest;
      assert s == s[..n] + [c] + s[n + 1..];
      assert forall k :: 0 <= k < n ==> s[..n][k] != c;
      forall i | 0 <= i < |r| ensures c !in r[i] {
        if i > 0 {
          assert r[i] == rest[i - 1];
        }
      }
  }

  /** Text before the first separator is the first part; the rest is split on. */
  lemma SplitOnFirst(k: string, c: char, rest: string)
    requires forall j :: 0 <= j < |k| ==> k[j] != c
    ensures SplitOn(k + [c] + rest, c) == [k] + SplitOn(rest, c)
  {
    var s := k + [c] + rest;
    forall j | 0 <= j < |k| ensures s[j] != c {
      assert s[j] == k[j];
    }
    IndexOfIs(s, c, 0, |k|);
    assert s[..|k|] == k;
    assert s[|k| + 1..] == rest;
  }

  /** Text without the separator is one part. */
  lemma SplitOnNone(v: string, c: char)
    requires forall j :: 0 <= j < |v| ==> v[j] != c
    ensures SplitOn(v, c) == [v]
  {
  }

  /**
   * Strip removes exactly the quotes, CRs and LFs: none is left, anything
   * else is kept, and a single character goes or stays by that test alone
   * (with StripAppend this fixes Strip on every text).
   */
  lemma {:induction false} StripFacts(s: string)
    ensures forall k :: 0 <= k < |Strip(s)| ==> !IsStripped(Strip(s)[k])
    ensures (forall k :: 0 <= k < |s| ==> !IsStripped(s[k])) ==> Strip(s) == s
    ensures |s| == 1 ==> Strip(s) == (if IsStripped(s[0]) then [] else s)
    decreases |s|
  {
    if |s| == 1 {
      assert s[1..] == [];
      assert [s[0]] == s;
    }
    if s != [] {
      StripFacts(s[1..]);
      var h := if IsStripped(s[0]) then [] else [s[0]];
      var r := Strip(s);
      forall k | 0 <= k < |r| ensures !IsStripped(r[k]) {
        if k >= |h| {
          assert r[k] == Strip(s[1..])[k - |h|];
        }
      }
      if forall k :: 0 <= k < |s| ==> !IsStripped(s[k]) {
        assert forall k :: 0 <= k < |s[1..]| ==> s[1..][k] == s[k + 1];
        assert [s[0]] + s[1..] == s;
      }
    }
  }

  lemma {:induction false} StripAppend(a: string, b: string)
    ensures Strip(a + b) == Strip(a) + Strip(b)
    decreases |a|
  {
    if a == [] {
      assert a + b == b;
    } else {
      assert (a + b)[0] == a[0];
      assert (a + b)[1..] == a[1..] + b;
      StripAppend(a[1..], b);
    }
  }

  // ---------------------------------------------------------------------
  // Facts about reading manifests
  // ---------------------------------------------------------------------

  /** The two line endings a manifest line can have: LF and CR LF. */
  predicate IsLineEnd(eol: string) {
    IsEol(eol) && (|eol| == 2 ==> eol[0] == '\r')
  }

  /** In a line followed by a line ending, the first LF is the last character, and the line is what precedes the ending. */
  lemma OneLineBreak(l: string, eol: string)
    requires forall k :: 0 <= k < |l| ==> l[k] != '\n'
    requires l == [] || l[|l| - 1] != '\r'
    requires IsLineEnd(eol)
    ensures var s := l + eol;
      IndexOf(s, '\n', 0) == Some(|s| - 1) && DropCr(s[..|s| - 1]) == l
  {
    var s := l + eol;
    var n := |s| - 1;
    forall k | 0 <= k < n ensures s[k] != '\n' {
      if k < |l| {
        assert s[k] == l[k];
      } else {
        assert s[k] == eol[0];
      }
    }
    IndexOfIs(s, '\n', 0, n);
    if |eol| == 2 {
      assert s[..n] == l + [eol[0]];
    } else {
      assert s[..n] == l;
    }
  }

  /** A line without LF that does not end in CR, followed by a line ending, splits into that line and an empty rest. */
  lemma SplitLinesOneLine(l: string, eol: string)
    requires forall k :: 0 <= k < |l| ==> l[k] != '\n'
    requires l == [] || l[|l| - 1] != '\r'
    requires IsLineEnd(eol)
    ensures SplitLines(l + eol) == [l, []]
  {
    var s := l + eol;
    OneLineBreak(l, eol);
    SplitLinesAt(s, |s| - 1);
    assert s[|s|..] == [];
  }

  /** The first line ends at the first LF; splitting goes on after it. */
  lemma SplitLinesAt(s: string, n: nat)
    requires IndexOf(s, '\n', 0) == Some(n)
    ensures SplitLines(s) == [DropCr(s[..n])] + SplitLines(s[n + 1..])
  {
  }

  /** Text that ends a line has an LF; appending text after it moves neither that LF nor the line before it. */
  lemma FirstBreakOfAppend(a: string, b: string)
    requires a != [] && a[|a| - 1] == '\n'
    ensures IndexOf(a, '\n', 0).Some?
    ensures var n := IndexOf(a, '\n', 0).value;
      && IndexOf(a + b, '\n', 0) == Some(n)
      && (a + b)[..n] == a[..n]
      && (a + b)[n + 1..] == a[n + 1..] + b
  {
    assert a[|a| - 1] == '\n';
    IndexOfPrefix(a, b, '\n', 0);
  }

  /** Text that ends a line splits independently of what follows. */
  lemma {:induction false} SplitLinesAppend(a: string, b: string)
    requires a != [] && a[|a| - 1] == '\n'
    ensures var sa := SplitLines(a);
      |sa| >= 2 && sa[|sa| - 1] == [] && SplitLines(a + b) == sa[..|sa| - 1] + SplitLines(b)
    decreases |a|
  {
    var n := SplitLinesAppendHead(a, b);
    var a' := a[n + 1..];
    var line := DropCr(a[..n]);
    if a' == [] {
      assert a' + b == b;
      SplitLinesEmpty();
    } else {
      assert a'[|a'| - 1] == '\n';
      SplitLinesAppend(a', b);
    }
    PrependLine(line, SplitLines(a'), SplitLines(b), SplitLines(a' + b));
  }

  /** The first line of text that ends a line is the first line of anything appended to it. */
  lemma SplitLinesAppendHead(a: string, b: string) returns (n: nat)
    requires a != [] && a[|a| - 1] == '\n'
    ensures n < |a| && (n + 1 < |a| ==> a[n + 1..][|a| - n - 2] == '\n')
    ensures SplitLines(a + b) == [DropCr(a[..n])] + SplitLines(a[n + 1..] + b)
    ensures SplitLines(a) == [DropCr(a[..n])] + SplitLines(a[n + 1..])
  {
    FirstBreakOfAppend(a, b);
    n := IndexOf(a, '\n', 0).value;
    SplitLinesAt(a + b, n);
    SplitLinesAt(a, n);
  }

  /** The split of a' + b with the first line of a put in front. */
  lemma PrependLine(line: string, sa: seq<string>, sb: seq<string>, sab: seq<string>)
    requires |sa| >= 1 && sa[|sa| - 1] == [] && sab == sa[..|sa| - 1] + sb
    ensures var s := [line] + sa;
      |s| >= 2 && s[|s| - 1] == [] && [line] + sab == s[..|s| - 1] + sb
  {
    var s := [line] + sa;
    assert s[..|s| - 1] == [line] + sa[..|sa| - 1];
  }

  lemma SplitLinesEmpty()
    ensures SplitLines([]) == [[]]
  {
  }

  lemma {:induction false} ManifestSourcesAppend(xs: seq<string>, ys: seq<string>)
    ensures ManifestSources(xs + ys) == ManifestSources(xs) + ManifestSources(ys)
    decreases |xs|
  {
    if xs == [] {
      assert xs + ys == ys;
    } else {
      assert (xs + ys)[0] == xs[0];
      assert (xs + ys)[1..] == xs[1..] + ys;
      ManifestSourcesAppend(xs[1..], ys);
    }
  }

  lemma ManifestSourcesSnoc(lines: seq<string>, i: nat)
    requires i < |lines|
    ensures ManifestSources(lines[..i + 1]) == ManifestSources(lines[..i]) + Pick(lines[i])
  {
    assert lines[..i + 1] == lines[..i] + [lines[i]];
    ManifestSourcesAppend(lines[..i], [lines[i]]);
  }

  /** Manifest text that ends a line reads independently of what follows. */
  lemma MergeNamesAppend(a: string, b: string)
    requires a != [] && a[|a| - 1] == '\n'
    ensures MergeNames(a + b) == MergeNames(a) + MergeNames(b)
  {
    SplitLinesAppend(a, b);
    var sa := SplitLines(a);
    assert sa == sa[..|sa| - 1] + [[]];
    ManifestSourcesAppend(sa[..|sa| - 1], [[]]);
    ManifestSourcesAppend(sa[..|sa| - 1], SplitLines(b));
  }

  /** One line and its line ending contribute what that line names, if anything. */
  lemma MergeNamesLine(l: string, eol: string)
    requires forall k :: 0 <= k < |l| ==> l[k] != '\n'
    requires l == [] || l[|l| - 1] != '\r'
    requires IsLineEnd(eol)
    ensures MergeNames(l + eol) == Pick(l)
  {
    SplitLinesOneLine(l, eol);
    var ls: seq<string> := [l, []];
    assert ls[1..] == [[]];
    assert ManifestSources([[]]) == [];
  }

  /** A source entry names its module, when the name holds no `=` and nothing Strip removes. */
  lemma SourceEntryName(m: string)
    requires IsPlain(m) && '=' !in m
    ensures IsSourceLine(SourceKey + m + "\"") && MergeName(SourceKey + m + "\"") == m
  {
    var l := SourceKey + m + "\"";
    var v := "\"" + m + "\"";
    assert l == "ProjectSource" + ['='] + v;
    assert l[..14] == LineKey;
    forall k | 0 <= k < |v| ensures v[k] != '=' {
      if 0 < k < |v| - 1 {
        assert v[k] == m[k - 1];
      }
    }
    SplitOnFirst("ProjectSource", '=', v);
    SplitOnNone(v, '=');
    StripAppend("\"" + m, "\"");
    StripAppend("\"", m);
    StripFacts(m);
  }

  /** What the merge needs of a module name in a manifest it reads. */
  predicate IsMergeable(m: string) {
    IsSavable(m) && '=' !in m
  }

  lemma SourceEntryMerges(m: string, eol: string)
    requires IsMergeable(m) && IsLineEnd(eol)
    ensures MergeNames(Entry(SourceKey, m, eol)) == [m]
  {
    var l := SourceKey + m + "\"";
    SourceEntryName(m);
    assert l[|l| - 1] == '"';
    forall k | 0 <= k < |l| ensures l[k] != '\n' {
      if 15 <= k < |l| - 1 {
        assert l[k] == m[k - 15];
      }
    }
    MergeNamesLine(l, eol);
  }

  lemma {:induction false} SourceLinesMerge(mods: seq<string>, eol: string)
    requires forall i :: 0 <= i < |mods| ==> IsMergeable(mods[i])
    requires IsLineEnd(eol)
    ensures MergeNames(SourceLines(mods, eol)) == mods
    decreases |mods|
  {
    if mods != [] {
      var init, last := mods[..|mods| - 1], mods[|mods| - 1];
      assert init + [last] == mods;
      var e := Entry(SourceKey, last, eol);
      SourceLinesMerge(init, eol);
      SourceEntryMerges(last, eol);
      var sl := SourceLines(init, eol);
      assert SourceLines(mods, eol) == sl + e;
      if init != [] {
        SourceLinesEnd(init, eol);
        MergeNamesAppend(sl, e);
      } else {
        assert sl + e == e;
      }
    } else {
      var none: seq<string> := [[]];
      assert none[1..] == [];
      assert SplitLines([]) == none;
    }
  }

  lemma CommentLineMergesNothing(ts: string, eol: string)
    requires IsPlain(ts) && IsLineEnd(eol)
    ensures MergeNames(CommentLine(ts, eol)) == []
  {
    var l := "'" + ts;
    forall k | 0 <= k < |l| ensures l[k] != '\n' && (k == |l| - 1 ==> l[k] != '\r') {
      if k > 0 {
        assert l[k] == ts[k - 1];
      }
    }
    if |l| >= 14 {
      assert l[..14][0] == '\'';
    }
    MergeNamesLine(l, eol);
    assert CommentLine(ts, eol) == l + eol;
  }

  lemma BeginLineMergesNothing(eol: string)
    requires IsLineEnd(eol)
    ensures MergeNames(BeginLine(eol)) == []
  {
    MergeNamesLine("ProjectBegin", eol);
  }

  lemma EndLineMergesNothing(eol: string)
    requires IsLineEnd(eol)
    ensures MergeNames(EndLine(eol)) == []
  {
    MergeNamesLine("ProjectEnd", eol);
  }

  /** A `Key="value"` entry whose key differs from ProjectSource at index i names nothing. */
  lemma EntryMergesNothing(key: string, value: string, eol: string, i: nat)
    requires i < |key| && i < 14 && key[i] != LineKey[i]
    requires '\n' !in key && IsPlain(value) && IsLineEnd(eol)
    ensures MergeNames(Entry(key, value, eol)) == []
  {
    var l := key + value + "\"";
    forall k | 0 <= k < |l| ensures l[k] != '\n' {
      if k < |key| {
        assert l[k] == key[k];
      } else if k < |key| + |value| {
        assert l[k] == value[k - |key|];
      }
    }
    assert l[i] == key[i];
    if |l| >= 14 {
      assert l[..14][i] == l[i];
    }
    MergeNamesLine(l, eol);
  }

  lemma HeaderMergesNothing(ts: string, name: string, start: string, eol: string)
    requires IsPlain(ts) && IsPlain(name) && IsPlain(start) && IsLineEnd(eol)
    ensures MergeNames(Header(ts, name, start, eol)) == []
  {
    var l1, l2 := CommentLine(ts, eol), BeginLine(eol);
    var l3, l4 := Entry("ProjectName=\"", name, eol), Entry("ProjectStart=\"", start, eol);
    CommentLineMergesNothing(ts, eol);
    BeginLineMergesNothing(eol);
    EntryMergesNothing("ProjectName=\"", name, eol, 7);
    EntryMergesNothing("ProjectStart=\"", start, eol, 8);
    LinesEnd(l1, l2, l3, eol);
    FourLinesMergeNothing(l1, l2, l3, l4);
  }

  /** Three texts that each end with the line ending end with LF. */
  lemma LinesEnd(l1: string, l2: string, l3: string, eol: string)
    requires IsEol(eol)
    requires |l1| >= |eol| && l1[|l1| - |eol|..] == eol
    requires |l2| >= |eol| && l2[|l2| - |eol|..] == eol
    requires |l3| >= |eol| && l3[|l3| - |eol|..] == eol
    ensures l1[|l1| - 1] == '\n' && l2[|l2| - 1] == '\n' && l3[|l3| - 1] == '\n'
  {
    assert l1[|l1| - 1] == l1[|l1| - |eol|..][|eol| - 1];
    assert l2[|l2| - 1] == l2[|l2| - |eol|..][|eol| - 1];
    assert l3[|l3| - 1] == l3[|l3| - |eol|..][|eol| - 1];
  }

  lemma FourLinesMergeNothing(l1: string, l2: string, l3: string, l4: string)
    requires l1 != [] && l1[|l1| - 1] == '\n' && MergeNames(l1) == []
    requires l2 != [] && l2[|l2| - 1] == '\n' && MergeNames(l2) == []
    requires l3 != [] && l3[|l3| - 1] == '\n' && MergeNames(l3) == []
    requires MergeNames(l4) == []
    ensures MergeNames(l1 + l2 + l3 + l4) == []
  {
    var a := l1 + l2;
    assert MergeNames(a) == [] by {
      MergeNamesAppend(l1, l2);
    }
    var b := a + l3;
    assert MergeNames(b) == [] by {
      assert a[|a| - 1] == '\n';
      MergeNamesAppend(a, l3);
    }
    assert b[|b| - 1] == '\n';
    MergeNamesAppend(b, l4);
  }

  /**
   * The merge reads a manifest of this layout as its module list: the
   * same list the project file manager reads from it.
   */
  lemma ManifestMergeNames(ts: string, name: string, start: string, mods: seq<string>, eol: string)
    requires IsPlain(ts) && IsPlain(name) && IsPlain(start) && IsLineEnd(eol)
    requires forall i :: 0 <= i < |mods| ==> IsMergeable(mods[i])
    ensures MergeNames(Manifest(ts, name, start, mods, eol)) == mods
  {
    var head, rest := Header(ts, name, start, eol), SourceLines(mods, eol) + EndLine(eol);
    BodyMergeNames(mods, eol);
    HeaderThenMergeNames(ts, name, start, eol, rest);
    assert Manifest(ts, name, start, mods, eol) == head + rest;
  }

  /** The source lines and the closing line read as the listed modules. */
  lemma BodyMergeNames(mods: seq<string>, eol: string)
    requires IsLineEnd(eol)
    requires forall i :: 0 <= i < |mods| ==> IsMergeable(mods[i])
    ensures MergeNames(SourceLines(mods, eol) + EndLine(eol)) == mods
  {
    var body, tail := SourceLines(mods, eol), EndLine(eol);
    SourceLinesMerge(mods, eol);
    EndLineMergesNothing(eol);
    if body != [] {
      SourceLinesEnd(mods, eol);
      MergeNamesAppend(body, tail);
    } else {
      assert body + tail == tail;
    }
  }

  /** The header lines add nothing to what follows them. */
  lemma HeaderThenMergeNames(ts: string, name: string, start: string, eol: string, rest: string)
    requires IsPlain(ts) && IsPlain(name) && IsPlain(start) && IsLineEnd(eol)
    ensures MergeNames(Header(ts, name, start, eol) + rest) == MergeNames(rest)
  {
    var head := Header(ts, name, start, eol);
    HeaderMergesNothing(ts, name, start, eol);
    HeaderLoadsNothing(ts, name, start, eol);
    MergeNamesAppend(head, rest);
  }

  /** The merge and the project file manager read the same modules from a saved manifest. */
  lemma SavedManifestReadsAlike(ts: string, name: string, start: string, mods: seq<string>)
    requires IsPlain(ts) && IsPlain(name) && IsPlain(start)
    requires forall i :: 0 <= i < |mods| ==> IsMergeable(mods[i])
    ensures MergeNames(Serialize(ts, name, start, mods)) == mods
    ensures LoadNames(Serialize(ts, name, start, mods)) == mods
  {
    ManifestMergeNames(ts, name, start, mods, "\n");
    ManifestLoads(ts, name, start, mods, "\n");
  }

  // ---------------------------------------------------------------------
  // Facts about the merge
  // ---------------------------------------------------------------------

  lemma {:induction false} MergedTextAppend(xs: seq<string>, ys: seq<string>, split: Disk)
    ensures MergedText(xs + ys, split) == MergedText(xs, split) + MergedText(ys, split)
    decreases |ys|
  {
    if ys == [] {
      assert xs + ys == xs;
    } else {
      var init := ys[..|ys| - 1];
      MergedTextAppend(xs, init, split);
      assert (xs + ys)[..|xs + ys| - 1] == xs + init;
    }
  }

  /** A file that cannot be read adds nothing: the merge skips it and goes on. */
  lemma MergedTextSkips(xs: seq<string>, name: string, ys: seq<string>, split: Disk)
    requires !Read(split, name).Contents?
    ensures MergedText(xs + [name] + ys, split) == MergedText(xs + ys, split)
  {
    MergedTextAppend(xs + [name], ys, split);
    MergedTextAppend(xs, ys, split);
    assert (xs + [name])[..|xs|] == xs;
  }

  /** Every readable file appears whole, followed by a CR LF, in manifest order. */
  lemma MergedTextReadable(xs: seq<string>, name: string, ys: seq<string>, split: Disk)
    requires Read(split, name).Contents?
    ensures MergedText(xs + [name] + ys, split)
      == MergedText(xs, split) + split.files[name] + "\r\n" + MergedText(ys, split)
  {
    MergedTextAppend(xs + [name], ys, split);
    assert (xs + [name])[..|xs|] == xs;
  }

  /** The fixed manifest, read either way, lists the merged file and the two configuration modules. */
  lemma FixedManifestNames(ts: string)
    requires IsPlain(ts)
    ensures MergeNames(FixedManifest(ts)) == MergedSources
    ensures LoadNames(FixedManifest(ts)) == MergedSources
  {
    MergedSourcesMergeable();
    PlainConstants();
    ManifestMergeNames(ts, "MergeCode", "MAIN", MergedSources, "\r\n");
    ManifestLoads(ts, "MergeCode", "MAIN", MergedSources, "\r\n");
  }

  lemma PlainConstants()
    ensures IsPlain("MergeCode") && IsPlain("MAIN")
  {
  }

  lemma MergedSourcesMergeable()
    ensures forall i :: 0 <= i < |MergedSources| ==> IsMergeable(MergedSources[i])
  {
    WordMergeable("MergeCode");
    WordMergeable("__init__IOConfig__");
    WordMergeable("__init__RobotConfig__");
  }

  lemma WordMergeable(w: string)
    requires w == "MergeCode" || w == "__init__IOConfig__" || w == "__init__RobotConfig__"
    ensures IsMergeable(w + ".gpl")
  {
    assert forall k :: 0 <= k < |w| ==> IsWordChar(w[k]);
    GplNameMergeable(w);
  }

  /** A word followed by `.gpl` is a name both readers give back whole. */
  lemma GplNameMergeable(w: string)
    requires w != [] && forall k :: 0 <= k < |w| ==> IsWordChar(w[k])
    ensures IsMergeable(w + ".gpl")
  {
    var m := w + ".gpl";
    assert m[|m| - 4..] == ".gpl";
    forall k | 0 <= k < |m| ensures m[k] != '"' && !IsLineTerminator(m[k]) && m[k] != '=' {
      if k < |w| {
        assert m[k] == w[k];
      } else {
        assert m[k] == ".gpl"[k - |w|];
      }
    }
  }
}

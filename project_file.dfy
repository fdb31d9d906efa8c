/**
 * The project manifest Project.gpr and the object that keeps it: the list
 * of module files read back from an existing manifest, extended as modules
 * are written, and saved as one `ProjectSource="..."` line per module.
 */
module ProjectFile {
  import opened Text
  import opened FileSystem

  /** The manifest's name, in the split directory and in the merge directory. */
  const ManifestFile: string := "Project.gpr"

  const SourceKey: string := "ProjectSource=\""
  const GplEnding: string := ".gpl\""

  // ---------------------------------------------------------------------
  // Reading: data.match(/ProjectSource="(.+?\.gpl)"/g), then for each
  // match text m, m.match(/ProjectSource="(.+?)"/)[1].
  // ---------------------------------------------------------------------

  /**
   * `.+?\.gpl"` after its first character, which ended just before i:
   * the nearest `.gpl"` reached without crossing a line terminator.
   * The result is the index just past the closing quote.
   */
  function GplEnd(s: string, i: nat): (r: Option<nat>)
    requires i <= |s|
    ensures r.Some? ==> i + 5 <= r.value <= |s| && HasAt(s, r.value - 5, GplEnding)
    decreases |s| - i
  {
    if HasAt(s, i, GplEnding) then Some(i + 5)
    else if i < |s| && !IsLineTerminator(s[i]) then GplEnd(s, i + 1)
    else None
  }

  /** The length of the manifest pattern's match at the start of s, if it matches there. */
  function SourceMatch(s: string): (r: Option<nat>)
    ensures r.Some? ==> 21 <= r.value <= |s| && s[r.value - 1] == '"'
  {
    if HasAt(s, 0, SourceKey) && 15 < |s| && !IsLineTerminator(s[15]) then GplEnd(s, 16)
    else None
  }

  /** The first quote at or after i; m ends with one. */
  function FirstQuote(m: string, i: nat): (q: nat)
    requires i < |m| && m[|m| - 1] == '"'
    ensures i <= q < |m| && m[q] == '"'
    decreases |m| - i
  {
    if m[i] == '"' then i else FirstQuote(m, i + 1)
  }

  /** Group 1 of the inner pattern on a match text: up to the first quote after one character. */
  function InnerName(m: string): string
    requires 16 < |m| && m[|m| - 1] == '"'
  {
    m[15..FirstQuote(m, 16)]
  }

  /**
   * The module names a manifest lists, in file order: the global pattern
   * is tried at each position, and the search resumes after each match.
   */
  function LoadNames(s: string): seq<string>
    decreases |s|
  {
    if s == [] then []
    else match SourceMatch(s)
      case Some(n) => [InnerName(s[..n])] + LoadNames(s[n..])
      case None => LoadNames(s[1..])
  }

  // ---------------------------------------------------------------------
  // Writing
  // ---------------------------------------------------------------------

  /** A `Key="value"` line; keyEq holds the key, the equals sign and the opening quote. */
  function Entry(keyEq: string, value: string, eol: string): string {
    keyEq + value + "\"" + eol
  }

  /** One `ProjectSource="..."` line per module, in the order given. */
  function SourceLines(mods: seq<string>, eol: string): string {
    if mods == [] then [] else SourceLines(mods[..|mods| - 1], eol) + Entry(SourceKey, mods[|mods| - 1], eol)
  }

  /**
   * What the proofs need of a line ending: at most two characters, no
   * quote, a line feed last. Both LF and CR LF qualify.
   */
  predicate IsEol(eol: string) {
    0 < |eol| <= 2 && eol[|eol| - 1] == '\n' && NoQuote(eol)
  }

  /** The lines before the module list: timestamp comment, begin marker, name and start entry. */
  function Header(ts: string, name: string, start: string, eol: string): string {
    CommentLine(ts, eol) + BeginLine(eol) + Entry("ProjectName=\"", name, eol) + Entry("ProjectStart=\"", start, eol)
  }

  /** The first line: the save time as a comment. */
  function CommentLine(ts: string, eol: string): string {
    "'" + ts + eol
  }

  function BeginLine(eol: string): string {
    "ProjectBegin" + eol
  }

  /** The manifest layout: header, one source line per module, end marker. */
  function Manifest(ts: string, name: string, start: string, mods: seq<string>, eol: string): string {
    Header(ts, name, start, eol) + SourceLines(mods, eol) + EndLine(eol)
  }

  function EndLine(eol: string): string {
    "ProjectEnd" + eol
  }

  /** The manifest that saveProjectFile writes, with LF line endings. */
  function Serialize(ts: string, name: string, start: string, mods: seq<string>): string {
    Manifest(ts, name, start, mods, "\n")
  }

  /** Text with no quote and no line terminator. */
  predicate IsPlain(s: string) {
    forall k :: 0 <= k < |s| ==> s[k] != '"' && !IsLineTerminator(s[k])
  }

  /** A module file name that the reading pattern gives back whole. */
  predicate IsSavable(m: string) {
    |m| >= 5 && m[|m| - 4..] == ".gpl" && IsPlain(m)
  }

  predicate NoQuote(s: string) {
    forall k :: 0 <= k < |s| ==> s[k] != '"'
  }

  // ---------------------------------------------------------------------
  // Facts about reading
  // ---------------------------------------------------------------------

  /** A match never runs past a line feed, so text after one cannot change it. */
  lemma {:induction false} GplEndLocal(x: string, y: string, i: nat)
    requires i < |x| && x[|x| - 1] == '\n'
    ensures GplEnd(x + y, i) == GplEnd(x, i)
    ensures GplEnd(x, i).Some? ==> GplEnd(x, i).value < |x|
    decreases |x| - i
  {
    var s := x + y;
    GplEndingHasNoLf();
    if i + 5 <= |x| {
      HasAtStable(x, y, i, GplEnding);
    } else {
      HasAtLf(s, i, |x| - 1, GplEnding);
    }
    assert s[i] == x[i];
    if i + 1 < |x| {
      GplEndLocal(x, y, i + 1);
    }
  }

  lemma GplEndingHasNoLf()
    ensures forall k :: 0 <= k < |GplEnding| ==> GplEnding[k] != '\n'
  {
  }

  /** A pattern that fits inside x is found at i in x + y exactly when it is found there in x. */
  lemma HasAtStable(x: string, y: string, i: nat, pat: string)
    requires i + |pat| <= |x|
    ensures HasAt(x + y, i, pat) == HasAt(x, i, pat)
  {
    assert (x + y)[i..i + |pat|] == x[i..i + |pat|];
  }

  /** A pattern without line feeds is not found across one. */
  lemma HasAtLf(s: string, i: nat, j: nat, pat: string)
    requires i <= j < i + |pat| && j < |s| && s[j] == '\n'
    requires forall k :: 0 <= k < |pat| ==> pat[k] != '\n'
    ensures !HasAt(s, i, pat)
  {
    if i + |pat| <= |s| {
      assert s[i..i + |pat|][j - i] == '\n' != pat[j - i];
    }
  }

  lemma SourceMatchLocal(x: string, y: string)
    requires x != [] && x[|x| - 1] == '\n'
    ensures SourceMatch(x + y) == SourceMatch(x)
    ensures SourceMatch(x).Some? ==> SourceMatch(x).value < |x|
  {
    var s := x + y;
    if |x| > 16 {
      assert s[..15] == x[..15];
      assert s[15] == x[15];
      GplEndLocal(x, y, 16);
    } else {
      assert s[|x| - 1] == '\n';
    }
  }

  /** Manifest text that ends a line reads independently of what follows. */
  lemma {:induction false} LoadNamesAppend(a: string, b: string)
    requires a != [] && a[|a| - 1] == '\n'
    ensures LoadNames(a + b) == LoadNames(a) + LoadNames(b)
    decreases |a|
  {
    var s := a + b;
    SourceMatchLocal(a, b);
    match SourceMatch(a)
    case Some(n) =>
      assert s[..n] == a[..n];
      assert s[n..] == a[n..] + b;
      LoadNamesAppend(a[n..], b);
    case None =>
      if |a| == 1 {
        assert s[1..] == b;
      } else {
        assert s[1..] == a[1..] + b;
        LoadNamesAppend(a[1..], b);
      }
  }

  /** Every match holds a quote at index 14 and ends with another one. */
  lemma SourceMatchQuotes(s: string)
    ensures SourceMatch(s).Some? ==> s[14] == '"' && 20 <= SourceMatch(s).value - 1
  {
    if SourceMatch(s).Some? {
      assert s[..15][14] == '"';
    }
  }

  /**
   * Text whose quotes all sit before index 14, save perhaps the last one,
   * lists no module: a match needs two quotes, the first at its index 14.
   */
  lemma {:induction false} NoNamesWhen(s: string)
    requires forall i, j :: 0 <= i < j < |s| && s[i] == '"' && s[j] == '"' ==> i < 14
    ensures LoadNames(s) == []
    decreases |s|
  {
    if s != [] {
      SourceMatchQuotes(s);
      assert SourceMatch(s).None?;
      var r := s[1..];
      forall i, j | 0 <= i < j < |r| && r[i] == '"' && r[j] == '"' ensures i < 14 {
        assert s[i + 1] == r[i] && s[j + 1] == r[j];
      }
      NoNamesWhen(r);
    }
  }

  /**
   * A `Key="value"` line lists no module when the key and its `="` take
   * at most 14 characters: only the closing quote lies past index 13.
   */
  lemma EntryLoadsNothing(key: string, value: string, eol: string)
    requires |key| <= 14 && NoQuote(value) && NoQuote(eol)
    ensures LoadNames(Entry(key, value, eol)) == []
  {
    var s := Entry(key, value, eol);
    forall k | |key| <= k < |key| + |value| ensures s[k] == value[k - |key|] {
    }
    forall k | |key| + |value| < k < |s| ensures s[k] == eol[k - |key| - |value| - 1] {
    }
    NoNamesWhen(s);
  }

  lemma {:induction false} GplEndFinds(s: string, i: nat, e: nat)
    requires i <= e && e + 5 <= |s| && HasAt(s, e, GplEnding)
    requires forall k :: i <= k < e ==> !IsLineTerminator(s[k])
    requires forall k :: i + 4 <= k < e + 4 ==> s[k] != '"'
    ensures GplEnd(s, i) == Some(e + 5)
    decreases e - i
  {
    if i < e {
      assert s[i..i + 5][4] != GplEnding[4];
      GplEndFinds(s, i + 1, e);
    }
  }

  lemma {:induction false} FirstQuoteFinds(m: string, i: nat, q: nat)
    requires i <= q < |m| && m[q] == '"' && m[|m| - 1] == '"'
    requires forall k :: i <= k < q ==> m[k] != '"'
    ensures FirstQuote(m, i) == q
    decreases q - i
  {
    if i < q {
      FirstQuoteFinds(m, i + 1, q);
    }
  }

  /** A source entry of a savable module reads back as exactly that module, whichever line ending follows. */
  lemma SourceEntryLoads(m: string, eol: string)
    requires IsSavable(m) && |eol| <= 2
    ensures LoadNames(Entry(SourceKey, m, eol)) == [m]
  {
    var s := Entry(SourceKey, m, eol);
    var n := 16 + |m|;
    assert s[..15] == SourceKey;
    assert s[15] == m[0];
    assert s[11 + |m|..16 + |m|] == m[|m| - 4..] + "\"";
    forall k | 16 <= k < 15 + |m| ensures !IsLineTerminator(s[k]) && s[k] != '"' {
      assert s[k] == m[k - 15];
    }
    GplEndFinds(s, 16, 11 + |m|);
    assert SourceMatch(s) == Some(n);
    var t := s[..n];
    forall k | 16 <= k < 15 + |m| ensures t[k] != '"' {
      assert t[k] == m[k - 15];
    }
    FirstQuoteFinds(t, 16, 15 + |m|);
    assert t[15..15 + |m|] == m;
    assert s[n..] == eol;
    NoNamesWhen(eol);
  }

  lemma SourceLinesEnd(mods: seq<string>, eol: string)
    requires mods != [] && IsEol(eol)
    ensures SourceLines(mods, eol) != [] && SourceLines(mods, eol)[|SourceLines(mods, eol)| - 1] == '\n'
  {
    var sl, line := SourceLines(mods[..|mods| - 1], eol), Entry(SourceKey, mods[|mods| - 1], eol);
    assert line[|line| - 1] == eol[|eol| - 1];
    assert (sl + line)[|sl + line| - 1] == line[|line| - 1];
  }

  /** The header holds no source line. */
  lemma HeaderLoadsNothing(ts: string, name: string, start: string, eol: string)
    requires NoQuote(ts) && NoQuote(name) && NoQuote(start) && IsEol(eol)
    ensures LoadNames(Header(ts, name, start, eol)) == []
    ensures Header(ts, name, start, eol)[|Header(ts, name, start, eol)| - 1] == '\n'
  {
    var l1, l2 := CommentLine(ts, eol), BeginLine(eol);
    var l3, l4 := Entry("ProjectName=\"", name, eol), Entry("ProjectStart=\"", start, eol);
    assert LoadNames(l1) == [] && l1[|l1| - 1] == '\n' by {
      CommentLineLoadsNothing(ts, eol);
    }
    assert LoadNames(l2) == [] && l2[|l2| - 1] == '\n' by {
      NoNamesWhen(l2);
    }
    assert LoadNames(l3) == [] && l3[|l3| - 1] == '\n' by {
      EntryLoadsNothing("ProjectName=\"", name, eol);
    }
    assert LoadNames(l4) == [] && l4[|l4| - 1] == '\n' by {
      EntryLoadsNothing("ProjectStart=\"", start, eol);
    }
    FourLinesLoadNothing(l1, l2, l3, l4);
    assert Header(ts, name, start, eol) == l1 + l2 + l3 + l4;
  }

  lemma FourLinesLoadNothing(l1: string, l2: string, l3: string, l4: string)
    requires l1 != [] && l1[|l1| - 1] == '\n' && LoadNames(l1) == []
    requires l2 != [] && l2[|l2| - 1] == '\n' && LoadNames(l2) == []
    requires l3 != [] && l3[|l3| - 1] == '\n' && LoadNames(l3) == []
    requires l4 != [] && l4[|l4| - 1] == '\n' && LoadNames(l4) == []
    ensures LoadNames(l1 + l2 + l3 + l4) == []
    ensures (l1 + l2 + l3 + l4)[|l1 + l2 + l3 + l4| - 1] == '\n'
  {
    LoadNamesAppend(l1, l2);
    LoadNamesAppend(l1 + l2, l3);
    LoadNamesAppend(l1 + l2 + l3, l4);
  }

  lemma CommentLineLoadsNothing(ts: string, eol: string)
    requires NoQuote(ts) && IsEol(eol)
    ensures LoadNames(CommentLine(ts, eol)) == []
  {
    var l := CommentLine(ts, eol);
    forall k | 0 < k < 1 + |ts| ensures l[k] == ts[k - 1] {
    }
    forall k | 1 + |ts| <= k < |l| ensures l[k] == eol[k - 1 - |ts|] {
    }
    NoNamesWhen(l);
  }

  /** The source lines of savable modules read back as the same modules, in order. */
  lemma {:induction false} SourceLinesLoad(mods: seq<string>, eol: string)
    requires forall i :: 0 <= i < |mods| ==> IsSavable(mods[i])
    requires IsEol(eol)
    ensures LoadNames(SourceLines(mods, eol)) == mods
    decreases |mods|
  {
    if mods != [] {
      var init, last := mods[..|mods| - 1], mods[|mods| - 1];
      assert init + [last] == mods;
      SourceLinesLoad(init, eol);
      SourceEntryLoads(last, eol);
      var sl := SourceLines(init, eol);
      assert SourceLines(mods, eol) == sl + Entry(SourceKey, last, eol);
      if init == [] {
        assert SourceLines(mods, eol) == Entry(SourceKey, last, eol);
      } else {
        SourceLinesEnd(init, eol);
        LoadNamesAppend(sl, Entry(SourceKey, last, eol));
      }
    }
  }

  /**
   * Reading a manifest of this layout gives back its module list, whatever
   * the name and start entry hold, as long as no quote appears in them or
   * in the timestamp and every module is a savable name.
   */
  lemma ManifestLoads(ts: string, name: string, start: string, mods: seq<string>, eol: string)
    requires NoQuote(ts) && NoQuote(name) && NoQuote(start) && IsEol(eol)
    requires forall i :: 0 <= i < |mods| ==> IsSavable(mods[i])
    ensures LoadNames(Manifest(ts, name, start, mods, eol)) == mods
  {
    var head, body := Header(ts, name, start, eol), SourceLines(mods, eol) + EndLine(eol);
    HeaderLoadsNothing(ts, name, start, eol);
    BodyLoads(mods, eol, EndLine(eol));
    LoadNamesAppend(head, body);
    assert Manifest(ts, name, start, mods, eol) == head + body;
  }

  /** The module lines followed by a short closing line read back as the modules. */
  lemma BodyLoads(mods: seq<string>, eol: string, tail: string)
    requires forall i :: 0 <= i < |mods| ==> IsSavable(mods[i])
    requires IsEol(eol) && |tail| <= 14
    ensures LoadNames(SourceLines(mods, eol) + tail) == mods
  {
    var body := SourceLines(mods, eol);
    NoNamesWhen(tail);
    SourceLinesLoad(mods, eol);
    if body == [] {
      assert body + tail == tail;
    } else {
      SourceLinesEnd(mods, eol);
      LoadNamesAppend(body, tail);
    }
  }

  /** Every name read is a non-empty stretch of a single line. */
  lemma {:induction false} LoadedNamesOneLine(s: string)
    ensures forall i :: 0 <= i < |LoadNames(s)| ==>
      LoadNames(s)[i] != [] && forall k :: 0 <= k < |LoadNames(s)[i]| ==> !IsLineTerminator(LoadNames(s)[i][k])
    decreases |s|
  {
    if s != [] {
      match SourceMatch(s)
      case Some(n) =>
        LoadedNamesOneLine(s[n..]);
        InnerNameOneLine(s, 16, n);
      case None =>
        LoadedNamesOneLine(s[1..]);
    }
  }

  lemma InnerNameOneLine(s: string, i: nat, n: nat)
    requires i == 16 && SourceMatch(s) == Some(n)
    ensures InnerName(s[..n]) != []
    ensures forall k :: 0 <= k < |InnerName(s[..n])| ==> !IsLineTerminator(InnerName(s[..n])[k])
  {
    var m := s[..n];
    var q := FirstQuote(m, 16);
    GplEndSpan(s, 16);
    forall k | 15 <= k < q ensures !IsLineTerminator(m[k]) {
      if k >= n - 5 {
        assert m[k] == s[n - 5..n][k - (n - 5)];
      }
    }
  }

  /** The characters a match passes over before its closing `.gpl"`. */
  lemma {:induction false} GplEndSpan(s: string, i: nat)
    requires i <= |s|
    ensures GplEnd(s, i).Some? ==> forall k :: i <= k < GplEnd(s, i).value - 5 ==> !IsLineTerminator(s[k])
    decreases |s| - i
  {
    if !HasAt(s, i, GplEnding) && i < |s| && !IsLineTerminator(s[i]) {
      GplEndSpan(s, i + 1);
    }
  }

  // ---------------------------------------------------------------------
  // The module set: a JavaScript Set, which iterates in insertion order.
  // ---------------------------------------------------------------------

  /** `set.add(x)`. */
  function Insert(ms: seq<string>, x: string): seq<string> {
    if x in ms then ms else ms + [x]
  }

  /** Adding each of xs in turn. */
  function InsertAll(ms: seq<string>, xs: seq<string>): seq<string> {
    if xs == [] then ms else Insert(InsertAll(ms, xs[..|xs| - 1]), xs[|xs| - 1])
  }

  /** Adding keeps the set's members unique, keeps what was there in its place, and adds x. */
  lemma InsertFacts(ms: seq<string>, x: string)
    ensures NoDuplicates(ms) ==> NoDuplicates(Insert(ms, x))
    ensures |ms| <= |Insert(ms, x)| && Insert(ms, x)[..|ms|] == ms
    ensures forall y :: y in Insert(ms, x) <==> y in ms || y == x
  {
  }

  lemma {:induction false} InsertAllFacts(ms: seq<string>, xs: seq<string>)
    ensures NoDuplicates(ms) ==> NoDuplicates(InsertAll(ms, xs))
    ensures |ms| <= |InsertAll(ms, xs)| && InsertAll(ms, xs)[..|ms|] == ms
    ensures forall y :: y in InsertAll(ms, xs) <==> y in ms || y in xs
    decreases |xs|
  {
    if xs != [] {
      var init, last := xs[..|xs| - 1], xs[|xs| - 1];
      InsertAllFacts(ms, init);
      InsertFacts(InsertAll(ms, init), last);
      assert xs == init + [last];
      var r := InsertAll(ms, xs);
      assert r[..|ms|] == InsertAll(ms, init)[..|InsertAll(ms, init)|][..|ms|];
    }
  }

  /** Adding the same names again changes nothing: loading a manifest twice equals loading it once. */
  lemma InsertAllAgain(ms: seq<string>, xs: seq<string>)
    ensures InsertAll(InsertAll(ms, xs), xs) == InsertAll(ms, xs)
  {
    InsertAllFacts(ms, xs);
    InsertAllPresent(InsertAll(ms, xs), xs);
  }

  lemma {:induction false} InsertAllPresent(ms: seq<string>, xs: seq<string>)
    requires forall i :: 0 <= i < |xs| ==> xs[i] in ms
    ensures InsertAll(ms, xs) == ms
    decreases |xs|
  {
    if xs != [] {
      InsertAllPresent(ms, xs[..|xs| - 1]);
    }
  }

  /** Into an empty set, a list without repeats goes in unchanged and in order. */
  lemma {:induction false} InsertAllFresh(xs: seq<string>)
    requires NoDuplicates(xs)
    ensures InsertAll([], xs) == xs
    decreases |xs|
  {
    if xs != [] {
      var init := xs[..|xs| - 1];
      InsertAllFresh(init);
      assert xs[|xs| - 1] !in init;
      assert init + [xs[|xs| - 1]] == xs;
    }
  }

  lemma InsertAllSnoc(ms: seq<string>, xs: seq<string>, i: nat)
    requires i < |xs|
    ensures InsertAll(ms, xs[..i + 1]) == Insert(InsertAll(ms, xs[..i]), xs[i])
  {
    assert xs[..i + 1][..i] == xs[..i];
  }

  // ---------------------------------------------------------------------
  // The manager object
  // ---------------------------------------------------------------------

  class ProjectFileManager {
    var filePath: string
    var projectName: string
    var projectStart: string
    var modules: seq<string>

    /** A set holds each module once. */
    predicate Valid()
      reads this
    {
      NoDuplicates(modules)
    }

    constructor (filePath: string, projectName: string := "MergeCode", projectStart: string := "MAIN")
      ensures this.filePath == filePath && this.projectName == projectName && this.projectStart == projectStart
      ensures modules == [] && Valid()
    {
      this.filePath := filePath;
      this.projectName := projectName;
      this.projectStart := projectStart;
      modules := [];
    }

    /** Registers a module file once; the ones already there keep their places. */
    method AddModule(moduleFileName: string)
      requires Valid()
      modifies this`modules
      ensures Valid()
      ensures modules == Insert(old(modules), moduleFileName)
      ensures moduleFileName in modules && modules[..|old(modules)|] == old(modules)
    {
      InsertFacts(modules, moduleFileName);
      if moduleFileName !in modules {
        modules := modules + [moduleFileName];
      }
    }

    /**
     * Adds the modules an existing manifest lists. A missing manifest is
     * not an error and changes nothing; any other read error is reported
     * (ok is false) before anything changes.
     */
    method LoadProjectFile(d: Disk) returns (ok: bool)
      requires Valid()
      modifies this`modules
      ensures Valid()
      ensures ok <==> !Read(d, filePath).ReadFailed?
      ensures Read(d, filePath).Contents? ==> modules == InsertAll(old(modules), LoadNames(Read(d, filePath).data))
      ensures !Read(d, filePath).Contents? ==> modules == old(modules)
    {
      match Read(d, filePath)
      case ReadFailed(_) =>
        return false;
      case NotFound =>
        return true;
      case Contents(data) =>
        var names := LoadNames(data);
        ghost var start := modules;
        for i := 0 to |names|
          invariant modules == InsertAll(start, names[..i])
          invariant NoDuplicates(modules)
        {
          InsertAllSnoc(start, names, i);
          InsertFacts(modules, names[i]);
          if names[i] !in modules {
            modules := modules + [names[i]];
          }
        }
        assert names[..|names|] == names;
        return true;
    }

    /**
     * Writes the manifest, built line by line, to the disk: the result is
     * the disk after that write, which a write error leaves as it was.
     */
    method SaveProjectFile(ts: string, d: Disk) returns (d': Disk)
      ensures d' == Write(d, filePath, Serialize(ts, projectName, projectStart, modules))
    {
      var content := "'" + ts + "\n";
      content := content + "ProjectBegin\n";
      content := content + Entry("ProjectName=\"", projectName, "\n");
      content := content + Entry("ProjectStart=\"", projectStart, "\n");
      assert content == Header(ts, projectName, projectStart, "\n") by {
        assert "ProjectBegin\n" == BeginLine("\n");
      }
      ghost var head := content;
      for i := 0 to |modules|
        invariant content == head + SourceLines(modules[..i], "\n")
      {
        assert modules[..i + 1][..i] == modules[..i];
        content := content + "ProjectSource=\"" + modules[i] + "\"\n";
      }
      content := content + "ProjectEnd\n";
      assert "ProjectEnd\n" == EndLine("\n");
      assert modules[..|modules|] == modules;
      d' := Write(d, filePath, content);
    }
  }

  /**
   * What one manager saves, a fresh manager for the same file loads back:
   * the same modules in the same order, provided the write went through,
   * the modules are names the reading pattern gives back whole, and no
   * quote appears in the timestamp, project name or start entry.
   */
  lemma SaveThenLoad(ts: string, name: string, start: string, mods: seq<string>, d: Disk, path: string)
    requires NoDuplicates(mods) && forall i :: 0 <= i < |mods| ==> IsSavable(mods[i])
    requires NoQuote(ts) && NoQuote(name) && NoQuote(start)
    requires path !in d.unwritable && path !in d.unreadable
    ensures var d' := Write(d, path, Serialize(ts, name, start, mods));
      Read(d', path).Contents? && InsertAll([], LoadNames(Read(d', path).data)) == mods
  {
    ManifestLoads(ts, name, start, mods, "\n");
    InsertAllFresh(mods);
  }
}

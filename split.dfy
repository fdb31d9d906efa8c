/**
 * Splitting: the manifest of the output directory is loaded, every module
 * the pattern finds in the combined source is written to a file of its
 * own with CR LF line endings, its file name is registered when that
 * write went through, and the manifest is saved at the end.
 */
module Split {
  import opened Text
  import opened FileSystem
  import opened LineEndings
  import opened ModuleScan
  import opened ProjectFile

  /** How a run ends. */
  datatype Outcome =
    | LoadFailed       // the existing manifest could not be read: the load rethrows and the run stops
    | InputUnreadable  // the combined source could not be read: reported, nothing saved
    | Saved            // every module written or reported, then the manifest saved

  /** The output directory and the manager's module list, as the loop over matches carries them. */
  datatype SplitState = SplitState(dir: Disk, modules: seq<string>)

  /** The spans of the matches lie inside the text, in the order group 1, group 2. */
  predicate InText(t: string, ms: seq<Match>) {
    forall i :: 0 <= i < |ms| ==> ms[i].start <= ms[i].bodyStart <= ms[i].end <= |t|
  }

  /** What a match's file receives: comments and module with CR LF endings, then an empty line. */
  function ModuleText(t: string, m: Match): string
    requires m.start <= m.end <= |t|
  {
    ToCrlf(t[m.start..m.end]) + "\r\n\r\n"
  }

  /** The file a match is written to: the module's name and `.gpl`. */
  function MatchFile(t: string, m: Match): string
    requires m.bodyStart <= m.end <= |t|
  {
    ModuleFileName(t[m.bodyStart..m.end])
  }

  /** The file names of the matches, in match order. */
  function Files(t: string, ms: seq<Match>): seq<string>
    requires InText(t, ms)
  {
    seq(|ms|, i requires 0 <= i < |ms| => MatchFile(t, ms[i]))
  }

  /** The names of xs that are not in bad, in order. */
  function Kept(xs: seq<string>, bad: set<string>): seq<string> {
    if xs == [] then []
    else Kept(xs[..|xs| - 1], bad) + (if xs[|xs| - 1] in bad then [] else [xs[|xs| - 1]])
  }

  /** One match: its file written, its name registered when the write went through. */
  function WriteModule(t: string, m: Match, st: SplitState): SplitState
    requires m.start <= m.bodyStart <= m.end <= |t|
  {
    var name := MatchFile(t, m);
    SplitState(Write(st.dir, name, ModuleText(t, m)),
               if name in st.dir.unwritable then st.modules else Insert(st.modules, name))
  }

  /** The matches handled one after another. */
  function WriteModules(t: string, ms: seq<Match>, st: SplitState): SplitState
    requires InText(t, ms)
  {
    if ms == [] then st else WriteModule(t, ms[|ms| - 1], WriteModules(t, ms[..|ms| - 1], st))
  }

  /**
   * The output directory after a run on the combined source `input`: the
   * manifest loaded (a missing one lists nothing, an unreadable one stops
   * the run), every match written in order, the manifest saved with the
   * timestamp ts.
   */
  function SplitResult(input: ReadResult, ts: string, dir: Disk): (r: (Outcome, Disk))
    ensures r.0 == LoadFailed <==> Read(dir, ManifestFile).ReadFailed?
    ensures r.0 == InputUnreadable <==> !Read(dir, ManifestFile).ReadFailed? && !input.Contents?
    ensures r.0 != Saved ==> r.1 == dir
  {
    match Read(dir, ManifestFile)
    case ReadFailed(_) => (LoadFailed, dir)
    case NotFound => SplitLoaded(input, ts, dir, [])
    case Contents(data) => SplitLoaded(input, ts, dir, InsertAll([], LoadNames(data)))
  }

  /** The run once the manager holds the modules `loaded`. */
  function SplitLoaded(input: ReadResult, ts: string, dir: Disk, loaded: seq<string>): (r: (Outcome, Disk))
    ensures r.0 != LoadFailed && (r.0 == Saved <==> input.Contents?)
    ensures r.0 != Saved ==> r.1 == dir
  {
    match input
    case Contents(t) =>
      MatchesInText(t, 0);
      var st := WriteModules(t, AllMatches(t, 0), SplitState(dir, loaded));
      (Saved, Write(st.dir, ManifestFile, Serialize(ts, "MergeCode", "MAIN", st.modules)))
    case _ => (InputUnreadable, dir)
  }

  lemma MatchesInText(t: string, from: nat)
    requires from <= |t|
    ensures InText(t, AllMatches(t, from))
  {
    MatchesInOrder(t, from);
  }

  /**
   * The split as the program runs it: a project file manager loads the
   * manifest, the matches are written one by one, and the manager saves.
   */
  method SplitModules(input: ReadResult, ts: string, dir: Disk) returns (outcome: Outcome, dir': Disk)
    ensures (outcome, dir') == SplitResult(input, ts, dir)
  {
    var manager := new ProjectFileManager(ManifestFile);
    var ok := manager.LoadProjectFile(dir);
    if !ok {
      return LoadFailed, dir;
    }
    if !input.Contents? {
      return InputUnreadable, dir;
    }
    var t := input.data;
    dir' := WriteMatches(t, manager, dir);
    dir' := manager.SaveProjectFile(ts, dir');
    outcome := Saved;
  }

  /**
   * The loop over `exec`: each match's file written and, when the write
   * went through, its name handed to the manager.
   */
  method WriteMatches(t: string, manager: ProjectFileManager, dir: Disk) returns (dir': Disk)
    requires manager.Valid()
    modifies manager`modules
    ensures manager.Valid()
    ensures InText(t, AllMatches(t, 0)) &&
      SplitState(dir', manager.modules) == WriteModules(t, AllMatches(t, 0), SplitState(dir, old(manager.modules)))
  {
    MatchesInText(t, 0);
    ghost var start := SplitState(dir, manager.modules);
    ghost var done: seq<Match> := [];
    dir' := dir;
    var from := 0;
    var found := Exec(t, from);
    while found.Some?
      invariant from <= |t| && found == NextMatch(t, from)
      invariant done + AllMatches(t, from) == AllMatches(t, 0)
      invariant InText(t, done)
      invariant manager.Valid()
      invariant SplitState(dir', manager.modules) == WriteModules(t, done, start)
      decreases |t| - from
    {
      var m := found.value;
      var name := MatchFile(t, m);
      var wrote := name !in dir'.unwritable;
      dir' := Write(dir', name, ModuleText(t, m));
      if wrote {
        manager.AddModule(name);
      }
      LoopStep(t, done, from, start);
      done := done + [m];
      from := m.end;
      found := Exec(t, from);
    }
    assert done + [] == done;
  }

  /** One turn of the loop: the next match joins the handled ones, and the fold takes one more step. */
  lemma LoopStep(t: string, done: seq<Match>, from: nat, st: SplitState)
    requires from <= |t| && NextMatch(t, from).Some?
    requires InText(t, done) && done + AllMatches(t, from) == AllMatches(t, 0)
    ensures var m := NextMatch(t, from).value;
      && InText(t, done + [m])
      && done + [m] + AllMatches(t, m.end) == AllMatches(t, 0)
      && WriteModules(t, done + [m], st) == WriteModule(t, m, WriteModules(t, done, st))
  {
    var m := NextMatch(t, from).value;
    AllMatchesStep(t, from);
    WriteModulesSnoc(t, done, m, st);
    Regroup(done, m, AllMatches(t, m.end));
  }

  lemma Regroup(a: seq<Match>, m: Match, b: seq<Match>)
    ensures a + [m] + b == a + ([m] + b)
  {
  }

  /** Handling one more match: the list of matches handled grows by it, and so does the fold. */
  lemma WriteModulesSnoc(t: string, done: seq<Match>, m: Match, st: SplitState)
    requires InText(t, done) && m.start <= m.bodyStart <= m.end <= |t|
    ensures InText(t, done + [m])
    ensures WriteModules(t, done + [m], st) == WriteModule(t, m, WriteModules(t, done, st))
  {
    var ms := done + [m];
    assert ms[..|done|] == done && ms[|done|] == m;
  }

  lemma AllMatchesStep(t: string, from: nat)
    requires from <= |t| && NextMatch(t, from).Some?
    ensures AllMatches(t, from) == [NextMatch(t, from).value] + AllMatches(t, NextMatch(t, from).value.end)
  {
  }

  // ---------------------------------------------------------------------
  // Facts about the split
  // ---------------------------------------------------------------------

  lemma {:induction false} KeptIn(xs: seq<string>, bad: set<string>)
    ensures forall x :: x in Kept(xs, bad) <==> x in xs && x !in bad
    ensures bad == {} ==> Kept(xs, bad) == xs
    decreases |xs|
  {
    if xs != [] {
      var init := xs[..|xs| - 1];
      KeptIn(init, bad);
      assert xs == init + [xs[|xs| - 1]];
    }
  }

  lemma FilesSnoc(t: string, ms: seq<Match>)
    requires InText(t, ms) && ms != []
    ensures Files(t, ms) == Files(t, ms[..|ms| - 1]) + [MatchFile(t, ms[|ms| - 1])]
  {
  }

  /**
   * The modules registered are the loaded ones with, in match order, every
   * file whose write went through added once; writes change no file's
   * readability or writability.
   */
  lemma {:induction false} WriteModulesRegisters(t: string, ms: seq<Match>, st: SplitState)
    requires InText(t, ms)
    ensures var r := WriteModules(t, ms, st);
      && r.dir.unwritable == st.dir.unwritable && r.dir.unreadable == st.dir.unreadable
      && r.modules == InsertAll(st.modules, Kept(Files(t, ms), st.dir.unwritable))
    decreases |ms|
  {
    var bad := st.dir.unwritable;
    if ms == [] {
      assert Files(t, ms) == [];
    } else {
      var init, m := ms[..|ms| - 1], ms[|ms| - 1];
      WriteModulesRegisters(t, init, st);
      FilesSnoc(t, ms);
      var name, fs := MatchFile(t, m), Files(t, init);
      var k := Kept(fs, bad);
      assert (fs + [name])[..|fs|] == fs;
      if name in bad {
        assert k + [] == k;
      } else {
        assert (k + [name])[..|k|] == k;
      }
    }
  }

  /**
   * `addModule` is called exactly after the writes that went through: a
   * name is registered when it was loaded or when one of its writes went
   * through, the loaded ones keep their places, and no name appears twice.
   */
  lemma RegisteredIff(t: string, ms: seq<Match>, st: SplitState)
    requires InText(t, ms)
    ensures var r := WriteModules(t, ms, st);
      && (forall x :: x in r.modules <==> x in st.modules || (x in Files(t, ms) && x !in st.dir.unwritable))
      && |st.modules| <= |r.modules| && r.modules[..|st.modules|] == st.modules
      && (NoDuplicates(st.modules) ==> NoDuplicates(r.modules))
  {
    WriteModulesRegisters(t, ms, st);
    var k := Kept(Files(t, ms), st.dir.unwritable);
    KeptIn(Files(t, ms), st.dir.unwritable);
    InsertAllFacts(st.modules, k);
  }

  /** The file keeps its content at x. */
  predicate SameAt(a: map<string, string>, b: map<string, string>, x: string) {
    (x in a <==> x in b) && (x in a ==> a[x] == b[x])
  }

  /** One match's write: the file gets the match's text, unless the write fails. */
  lemma WriteModuleFiles(t: string, m: Match, st: SplitState)
    requires m.start <= m.bodyStart <= m.end <= |t|
    ensures var r, name := WriteModule(t, m, st), MatchFile(t, m);
      && r.dir.unwritable == st.dir.unwritable
      && (name in st.dir.unwritable ==> r.dir.files == st.dir.files)
      && (name !in st.dir.unwritable ==> r.dir.files == st.dir.files[name := ModuleText(t, m)])
  {
  }

  /** Writes change no file's readability or writability. */
  lemma {:induction false} WriteModulesKeepFlags(t: string, ms: seq<Match>, st: SplitState)
    requires InText(t, ms)
    ensures WriteModules(t, ms, st).dir.unwritable == st.dir.unwritable
    ensures WriteModules(t, ms, st).dir.unreadable == st.dir.unreadable
    decreases |ms|
  {
    if ms != [] {
      WriteModulesKeepFlags(t, ms[..|ms| - 1], st);
    }
  }

  /** A name no write reached, or whose writes all failed, is as it was. */
  lemma {:induction false} WriteModulesUntouched(t: string, ms: seq<Match>, st: SplitState, x: string)
    requires InText(t, ms)
    requires x !in Files(t, ms) || x in st.dir.unwritable
    ensures SameAt(st.dir.files, WriteModules(t, ms, st).dir.files, x)
    ensures WriteModules(t, ms, st).dir.unwritable == st.dir.unwritable
    decreases |ms|
  {
    if ms != [] {
      var init, m := ms[..|ms| - 1], ms[|ms| - 1];
      FilesSnoc(t, ms);
      WriteModulesUntouched(t, init, st, x);
      WriteModuleFiles(t, m, WriteModules(t, init, st));
    }
  }

  /** A write to another name leaves the file at n as it was. */
  lemma WriteModuleElsewhere(t: string, m: Match, st: SplitState, n: string)
    requires m.start <= m.bodyStart <= m.end <= |t| && n != MatchFile(t, m)
    ensures SameAt(st.dir.files, WriteModule(t, m, st).dir.files, n)
  {
  }

  /** A write that goes through leaves the match's text in its file. */
  lemma WriteModuleHere(t: string, m: Match, st: SplitState)
    requires m.start <= m.bodyStart <= m.end <= |t| && MatchFile(t, m) !in st.dir.unwritable
    ensures var files := WriteModule(t, m, st).dir.files;
      MatchFile(t, m) in files && files[MatchFile(t, m)] == ModuleText(t, m)
  {
  }

  /** Each written file holds the text of the last match with its name. */
  lemma {:induction false} WriteModulesLastWins(t: string, ms: seq<Match>, st: SplitState, i: nat)
    requires InText(t, ms) && i < |ms|
    requires MatchFile(t, ms[i]) !in st.dir.unwritable
    requires forall j :: i < j < |ms| ==> MatchFile(t, ms[j]) != MatchFile(t, ms[i])
    ensures var r, name := WriteModules(t, ms, st), MatchFile(t, ms[i]);
      name in r.dir.files && r.dir.files[name] == ModuleText(t, ms[i])
    decreases |ms|
  {
    var init, m := ms[..|ms| - 1], ms[|ms| - 1];
    var prev := WriteModules(t, init, st);
    WriteModulesKeepFlags(t, init, st);
    if i < |init| {
      assert init[i] == ms[i];
      assert forall j :: i < j < |init| ==> MatchFile(t, init[j]) != MatchFile(t, init[i]) by {
        forall j | i < j < |init| ensures MatchFile(t, init[j]) != MatchFile(t, init[i]) {
          assert init[j] == ms[j];
        }
      }
      WriteModulesLastWins(t, init, st, i);
      WriteModuleElsewhere(t, m, prev, MatchFile(t, ms[i]));
    } else {
      WriteModuleHere(t, m, prev);
    }
  }

  /** IsCrlf of the ending the split adds. */
  lemma BlankLineIsCrlf()
    ensures IsCrlf("\r\n\r\n") && ToLf("\r\n\r\n") == "\n\n"
  {
    var e := "\r\n\r\n";
    assert CrLfAt(e, 0) && e[2..] == "\r\n";
    assert CrLfAt(e[2..], 0) && e[2..][2..] == [];
  }

  /**
   * A module file is CR LF text whose lines, read back with CR LF taken as
   * LF, are the lines of the matched text followed by two empty lines.
   */
  lemma ModuleTextShape(t: string, m: Match)
    requires m.start <= m.end <= |t|
    ensures IsCrlf(ModuleText(t, m))
    ensures ToLf(ModuleText(t, m)) == ToLf(t[m.start..m.end]) + "\n\n"
  {
    var x := t[m.start..m.end];
    var e := "\r\n\r\n";
    ToCrlfIsCrlf(x);
    BlankLineIsCrlf();
    CrlfConcat(ToCrlf(x), e);
    ToLfAppend(ToCrlf(x), e);
    ToCrlfKeepsLines(x);
  }

  /** Every module file name is a word followed by `.gpl`. */
  lemma MatchFileShape(t: string, m: Match)
    requires IsMatch(t, m)
    ensures var f := MatchFile(t, m);
      && |f| >= 5 && f[|f| - 4..] == ".gpl"
      && forall k :: 0 <= k < |f| - 4 ==> IsWordChar(f[k])
  {
    MatchedModuleName(t, m);
    var w := t[m.bodyStart + 7..WordEnd(t, m.bodyStart + 7)];
    var f := w + ".gpl";
    assert f[..|w|] == w && f[|f| - 4..] == ".gpl";
  }
}

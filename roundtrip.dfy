/**
 * Splitting and then merging: on a fresh output directory where every
 * write goes through, the merge finds in the manifest the split saved
 * exactly the modules the split wrote, in match order, and joins their
 * files back into one source.
 */
module RoundTrip {
  import opened Text
  import opened FileSystem
  import opened LineEndings
  import opened ModuleScan
  import opened ProjectFile
  import opened Merge
  import opened Split

  /** The file names of all the matches in t, in match order. */
  function SplitFiles(t: string): seq<string> {
    MatchesInText(t, 0);
    Files(t, AllMatches(t, 0))
  }

  /** The texts of the module files, in match order. */
  function ModuleTexts(t: string, ms: seq<Match>): (r: seq<string>)
    requires InText(t, ms)
    ensures |r| == |ms|
  {
    seq(|ms|, i requires 0 <= i < |ms| => ModuleText(t, ms[i]))
  }

  /** Texts joined as the merge joins files: each one followed by a CR LF. */
  function Joined(texts: seq<string>): string {
    if texts == [] then [] else Joined(texts[..|texts| - 1]) + texts[|texts| - 1] + "\r\n"
  }

  /** The same texts read with LF line endings, each followed by a line feed. */
  function LfJoined(texts: seq<string>): string {
    if texts == [] then [] else LfJoined(texts[..|texts| - 1]) + ToLf(texts[|texts| - 1]) + "\n"
  }

  /** What the merge should produce from a split of t: every module file's text and a CR LF. */
  function Rejoined(t: string): string {
    MatchesInText(t, 0);
    Joined(ModuleTexts(t, AllMatches(t, 0)))
  }

  /** A module file name can be saved in a manifest and read back by both readers. */
  lemma MatchFileMergeable(t: string, m: Match)
    requires IsMatch(t, m)
    ensures IsMergeable(MatchFile(t, m)) && MatchFile(t, m) != ManifestFile
  {
    MatchedModuleName(t, m);
    var w := t[m.bodyStart + 7..WordEnd(t, m.bodyStart + 7)];
    GplNameMergeable(w);
    var f := w + ".gpl";
    assert f[|f| - 1] == 'l';
    assert ManifestFile[|ManifestFile| - 1] == 'r';
  }

  /** When each named file holds its text, the merge of the names is the texts joined. */
  lemma {:induction false} MergedTextJoins(names: seq<string>, texts: seq<string>, d: Disk)
    requires |names| == |texts|
    requires forall i :: 0 <= i < |names| ==> Read(d, names[i]) == Contents(texts[i])
    ensures MergedText(names, d) == Joined(texts)
    decreases |names|
  {
    if names != [] {
      var n := |names| - 1;
      assert forall i :: 0 <= i < n ==> Read(d, names[..n][i]) == Contents(texts[..n][i]) by {
        forall i | 0 <= i < n ensures Read(d, names[..n][i]) == Contents(texts[..n][i]) {
          assert names[..n][i] == names[i] && texts[..n][i] == texts[i];
        }
      }
      MergedTextJoins(names[..n], texts[..n], d);
    }
  }

  /** A text followed by the merge's CR LF keeps both shapes. */
  lemma {:induction false} JoinedReadsBack(texts: seq<string>)
    requires forall i :: 0 <= i < |texts| ==> IsCrlf(texts[i]) && texts[i] != [] && texts[i][|texts[i]| - 1] == '\n'
    ensures IsCrlf(Joined(texts))
    ensures ToLf(Joined(texts)) == LfJoined(texts)
    ensures Joined(texts) == [] || Joined(texts)[|Joined(texts)| - 1] == '\n'
    decreases |texts|
  {
    if texts != [] {
      var n := |texts| - 1;
      var init, x := texts[..n], texts[n];
      assert forall i :: 0 <= i < n ==> init[i] == texts[i];
      JoinedReadsBack(init);
      var a := Joined(init);
      CrlfPiece(x);
      var p := x + "\r\n";
      CrlfConcat(a, p);
      ToLfAppend(a, p);
      assert a + x + "\r\n" == a + p;
    }
  }

  /**
   * The merged file is CR LF text; read with CR LF as LF it is, file by
   * file, the matched span (its comments and its module) and three line feeds.
   */
  lemma MergedFileReadsBack(t: string)
    ensures InText(t, AllMatches(t, 0))
    ensures IsCrlf(Rejoined(t))
    ensures ToLf(Rejoined(t)) == LfJoined(ModuleTexts(t, AllMatches(t, 0)))
    ensures var ms := AllMatches(t, 0);
      forall i :: 0 <= i < |ms| ==> ToLf(ModuleTexts(t, ms)[i]) + "\n" == ToLf(t[ms[i].start..ms[i].end]) + "\n\n\n"
  {
    MatchesInText(t, 0);
    var ms := AllMatches(t, 0);
    var texts := ModuleTexts(t, ms);
    forall i | 0 <= i < |ms|
      ensures IsCrlf(texts[i]) && texts[i] != [] && texts[i][|texts[i]| - 1] == '\n'
      ensures ToLf(texts[i]) + "\n" == ToLf(t[ms[i].start..ms[i].end]) + "\n\n\n"
    {
      ModuleTextShape(t, ms[i]);
    }
    JoinedReadsBack(texts);
  }

  /** A module file followed by the merge's CR LF, read with LF line endings. */
  lemma CrlfPiece(x: string)
    requires IsCrlf(x) && x != [] && x[|x| - 1] == '\n'
    ensures IsCrlf(x + "\r\n") && ToLf(x + "\r\n") == ToLf(x) + "\n"
    ensures (x + "\r\n")[0] == x[0]
  {
    CrLfLine();
    CrlfConcat(x, "\r\n");
    ToLfAppend(x, "\r\n");
  }

  /** The split registers every module file, in match order, when no name is repeated. */
  lemma SplitRegisters(t: string, st: SplitState)
    requires st.dir.unwritable == {} && st.modules == []
    requires NoDuplicates(SplitFiles(t))
    ensures InText(t, AllMatches(t, 0))
    ensures var r := WriteModules(t, AllMatches(t, 0), st);
      && r.modules == SplitFiles(t)
      && r.dir.unwritable == {} && r.dir.unreadable == st.dir.unreadable
  {
    MatchesInText(t, 0);
    var ms, fs := AllMatches(t, 0), SplitFiles(t);
    WriteModulesRegisters(t, ms, st);
    KeptIn(fs, {});
    InsertAllFresh(fs);
  }

  /** The split leaves in each module file its match's text, when no name is repeated. */
  lemma SplitWritesFiles(t: string, st: SplitState)
    requires st.dir.unwritable == {}
    requires NoDuplicates(SplitFiles(t))
    ensures InText(t, AllMatches(t, 0))
    ensures var ms, files := AllMatches(t, 0), WriteModules(t, AllMatches(t, 0), st).dir.files;
      forall i :: 0 <= i < |ms| ==> MatchFile(t, ms[i]) in files && files[MatchFile(t, ms[i])] == ModuleText(t, ms[i])
  {
    MatchesInText(t, 0);
    var ms, fs := AllMatches(t, 0), SplitFiles(t);
    forall i | 0 <= i < |ms|
      ensures var files := WriteModules(t, ms, st).dir.files;
        MatchFile(t, ms[i]) in files && files[MatchFile(t, ms[i])] == ModuleText(t, ms[i])
    {
      assert forall j :: i < j < |ms| ==> MatchFile(t, ms[j]) != MatchFile(t, ms[i]) by {
        forall j | i < j < |ms| ensures MatchFile(t, ms[j]) != MatchFile(t, ms[i]) {
          assert fs[i] == MatchFile(t, ms[i]) && fs[j] == MatchFile(t, ms[j]);
        }
      }
      WriteModulesLastWins(t, ms, st, i);
    }
  }

  /**
   * What a split leaves on a fresh, writable output directory when no
   * module name is repeated: the manifest lists every module file in
   * match order, and each module file holds its match's text.
   */
  lemma SplitDisk(t: string, ts: string, dir: Disk)
    requires dir.unreadable == {} && dir.unwritable == {} && ManifestFile !in dir.files
    requires NoDuplicates(SplitFiles(t))
    ensures InText(t, AllMatches(t, 0))
    ensures var d, fs := SplitResult(Contents(t), ts, dir).1, SplitFiles(t);
      && Read(d, ManifestFile) == Contents(Serialize(ts, "MergeCode", "MAIN", fs))
      && forall i :: 0 <= i < |fs| ==> Read(d, fs[i]) == Contents(ModuleTexts(t, AllMatches(t, 0))[i])
  {
    MatchesInText(t, 0);
    var ms, fs := AllMatches(t, 0), SplitFiles(t);
    var st0 := SplitState(dir, []);
    var st := WriteModules(t, ms, st0);
    SplitRegisters(t, st0);
    SplitWritesFiles(t, st0);
    var d1 := Write(st.dir, ManifestFile, Serialize(ts, "MergeCode", "MAIN", fs));
    assert SplitResult(Contents(t), ts, dir).1 == d1;
    forall i | 0 <= i < |fs| ensures Read(d1, fs[i]) == Contents(ModuleTexts(t, ms)[i]) {
      MatchInOrder(t, 0, i);
      MatchFileMergeable(t, ms[i]);
    }
  }

  /** Every name the split registers can be saved and read back by the merge. */
  lemma SplitFilesMergeable(t: string)
    ensures forall i :: 0 <= i < |SplitFiles(t)| ==> IsMergeable(SplitFiles(t)[i])
  {
    MatchesInText(t, 0);
    var ms, fs := AllMatches(t, 0), SplitFiles(t);
    forall i | 0 <= i < |fs| ensures IsMergeable(fs[i]) {
      MatchInOrder(t, 0, i);
      MatchFileMergeable(t, ms[i]);
    }
  }

  /**
   * Split, then merge: from a fresh, writable output directory and with no
   * module name repeated, the merge directory receives the rejoined module
   * files and the fixed manifest.
   */
  lemma SplitThenMerge(t: string, ts: string, ts2: string, dir: Disk, target: Disk)
    requires dir.unreadable == {} && dir.unwritable == {} && ManifestFile !in dir.files
    requires IsPlain(ts)
    requires NoDuplicates(SplitFiles(t))
    ensures MergeResult(SplitResult(Contents(t), ts, dir).1, target, ts2)
      == Write(Write(target, MergedFile, Rejoined(t)), ManifestFile, FixedManifest(ts2))
  {
    SplitDisk(t, ts, dir);
    SplitFilesMergeable(t);
    PlainConstants();
    var fs := SplitFiles(t);
    SavedManifestReadsAlike(ts, "MergeCode", "MAIN", fs);
    MergedTextJoins(fs, ModuleTexts(t, AllMatches(t, 0)), SplitResult(Contents(t), ts, dir).1);
  }
}

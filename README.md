# MergeManager split/merge core in Dafny

MergeManager is a Node.js tool for GPL robot programs. It works in two directions:

- **Split.** It takes one combined `.gpl` source, cuts it into one file per `Module … End Module` block, and registers the files in a `Project.gpr` manifest.
- **Merge.** It reads such a manifest and concatenates the listed module files back into `MergeCode.gpl`. Beside that file it writes a manifest of fixed layout.

This project models that core, all of it in `Split_Gpl_Modules.js`, and proves what the code guarantees.

- **`text.dfy`** has two modules.
  - `Text` holds character classes, meaning JavaScript's `\w` and the line terminators that `.` refuses, plus a character search.
  - `FileSystem` models a directory (the datatype `Disk`) as a map of files. It also keeps the sets of names whose read or write fails. A failed `writeFile` changes nothing.
- **`module_scan.dfy`** handles the global pattern `((?:'[^\n]*\n)+)?(Module \w+[\s\S]*?End Module)`. It models that pattern in two forms.
  - Functions follow the backtracking matcher step by step:
    - the comment-line group tries the most lines first;
    - `\w+` gives characters back;
    - `[\s\S]*?` stops at the nearest `End Module`;
    - a failed attempt moves one character on.
  - Scanner methods implement the same search: comment run, word, closing-marker search. They are proved equal to those functions.
  - On top of these sit the match order, the shape of every match, and the module name.
- **`line_endings.dfy`** models the `replace(/\r?\n/g, '\r\n')` applied to each module file, and the reverse reading (CR LF as LF).
- **`project_file.dfy`** models the `ProjectFileManager` class.
  - Its fields are mutable.
  - `modules` is a JavaScript `Set`, modelled as a duplicate-free sequence in insertion order.
  - The manifest reader is `data.match(/ProjectSource="(.+?\.gpl)"/g)`, followed by the inner pattern.
  - The manifest writer produces the LF layout.
- **`split.dfy`** models `splitModules`.
  - The manager loads the manifest, which aborts the run on a read error other than "not found".
  - Every match is written, and its name is registered only when the write went through.
  - The manifest is saved at the end.
- **`merge.dfy`** models `mergeModules`. It does `split(/\r?\n/)`, `startsWith('ProjectSource=')`, `split('=')[1]` with quotes, CR and LF stripped, and the concatenation that skips unreadable files. It also holds the fixed manifest.
- **`roundtrip.dfy`** states split-then-merge. On a fresh, writable output directory with no module name repeated, the merge rebuilds every module file in match order.

The model follows the code where a reader might expect otherwise:

- **Set order.** The manifest's `Set` iterates in insertion order in JavaScript. The model keeps and proves that order; it does not treat it as unspecified.
- **Sources of the merged manifest.** The fixed manifest of the merge lists `MergeCode.gpl` and the two `__init__…Config__.gpl` modules (line 175), not only the merged file.
- **`UnknownModule` fallback.** `\w` includes digits, so `Module 123` is named `123`. The fallback can never be taken for a matched module (`MatchedModuleName`).
- **Merge keys.** The merge's line test is `startsWith`, so a `ProjectSource=` line with leading blanks is not read.

The clock is a parameter `ts`, and the file system is a `Disk` value. The selected input file arrives as a `ReadResult`.

## Model

| member | source | states |
|---|---|---|
| LineEndings.ToCrlfIsCrlf | Split_Gpl_Modules.js:111 | after the replace, every LF is preceded by a CR |
| LineEndings.ToCrlfFixpoint | Split_Gpl_Modules.js:111 | the replace leaves a text unchanged exactly when it already has no bare LF (both directions) |
| LineEndings.ToCrlfIdempotent | Split_Gpl_Modules.js:111 | replacing twice gives the same as replacing once |
| LineEndings.ToCrlfKeepsLines | Split_Gpl_Modules.js:111 | only line endings change: read back with CR LF as LF, the result equals the input read the same way |
| LineEndings.CrlfConcat | Split_Gpl_Modules.js:111 | CR LF text followed by CR LF text that does not start with a bare LF is CR LF text |
| LineEndings.ToLfAppend | Split_Gpl_Modules.js:111 | reading CR LF as LF distributes over a concatenation that does not cut a CR LF pair |
| ModuleScan.CommentRunShape | Split_Gpl_Modules.js:92 | the greedy comment group is made of whole `'…\n` lines and cannot take one more |
| ModuleScan.FindEndIsFirst | Split_Gpl_Modules.js:92 | the lazy `[\s\S]*?End Module` stops at an `End Module`, and none comes earlier |
| ModuleScan.TryWordLengthsFound | Split_Gpl_Modules.js:92 | `\w+` backtracking: the body ends at the nearest marker after the word, and the word is shortened only when no marker follows the longer one |
| ModuleScan.TryWordLengthsSome | Split_Gpl_Modules.js:92 | some word length succeeds exactly when an `End Module` starts after the word's first character |
| ModuleScan.BodyAtShape | Split_Gpl_Modules.js:92 | group 2 at e is found exactly when `Module ` and a word character are there and a marker follows; it then has the header, a word and the first `End Module` after the word |
| ModuleScan.GreedyComments | Split_Gpl_Modules.js:92-101 | group 1 never gives comment lines back: the match at p takes the whole run of comment lines from p, or there is none |
| ModuleScan.MatchAtShape | Split_Gpl_Modules.js:92-100 | every match at p starts at p and has the shape `IsMatch` (comment run, header, word, first closing marker after the word) |
| ModuleScan.NextMatchIsFirst | Split_Gpl_Modules.js:97 | `exec` from lastIndex returns the match at its own start, and the pattern matches nowhere between lastIndex and that start (nowhere at all when it returns null) |
| ModuleScan.AllMatchesAt | Split_Gpl_Modules.js:97 | the i-th match is what `exec` returns when resumed where the previous match ended |
| ModuleScan.MatchInOrder | Split_Gpl_Modules.js:97-100 | the i-th match lies after the start, has the shape of `IsMatch` and ends before the next one begins |
| ModuleScan.MatchesInOrder | Split_Gpl_Modules.js:97-100 | all matches come left to right, do not overlap, and each has the shape of `IsMatch` |
| ModuleScan.MatchesCoverAll | Split_Gpl_Modules.js:97-101 | wherever the pattern could match, that position lies inside a span found; text outside every span is dropped only because nothing matches there |
| ModuleScan.CommentsAttach | Split_Gpl_Modules.js:92-99 | a module keeps the comment lines written just above it: no run of comment lines that starts after lastIndex and before the match found reaches that match's `Module` header |
| ModuleScan.CommentsAttachAll | Split_Gpl_Modules.js:92-99 | the same for every match of the loop: no comment run starting between the previous match's end and this match's start reaches its header |
| ModuleScan.MatchedModuleName | Split_Gpl_Modules.js:104-106 | the name `/Module (\w+)/` reads from a matched body is the whole word after its `Module `, never empty; the `UnknownModule` fallback is not reached |
| ModuleScan.WordEndUnique | Split_Gpl_Modules.js:104 | a run of word characters followed by a non-word character (or the end) is the run `\w+` takes |
| ModuleScan.SkipCommentRun | Split_Gpl_Modules.js:92 | the scanner's comment state reads line by line to where group 1 ends |
| ModuleScan.SearchLineFeed | Split_Gpl_Modules.js:92 | the scanner finds the line feed that closes a comment line |
| ModuleScan.SearchEndMarker | Split_Gpl_Modules.js:92 | the scanner's search for the closing marker returns the nearest `End Module` |
| ModuleScan.ScanWord | Split_Gpl_Modules.js:92 | the scanner reads the module word as far as `\w+` reaches |
| ModuleScan.GiveBackWord | Split_Gpl_Modules.js:92 | the scanner tries the word at each shorter length in turn, as the backtracking matcher does |
| ModuleScan.ScanBody | Split_Gpl_Modules.js:92 | the scanner's module-body state returns group 2 at e |
| ModuleScan.ScanAt | Split_Gpl_Modules.js:92 | the scanner's attempt at one position returns the match there, if any |
| ModuleScan.Exec | Split_Gpl_Modules.js:97 | the scanner returns exactly what `moduleRegex.exec` returns with lastIndex = from |
| ProjectFile.GplEndLocal | Split_Gpl_Modules.js:248 | a `.+?\.gpl"` search never crosses a line feed, so text after a line cannot change it |
| ProjectFile.LoadNamesAppend | Split_Gpl_Modules.js:248-251 | manifest text that ends a line reads independently of what follows |
| ProjectFile.SourceEntryLoads | Split_Gpl_Modules.js:248-251 | a `ProjectSource="m"` line of a savable name reads back as exactly m, with either line ending |
| ProjectFile.NoNamesWhen | Split_Gpl_Modules.js:248 | text with no two quotes at or past index 14 lists no module |
| ProjectFile.SourceLinesLoad | Split_Gpl_Modules.js:248-251 | the source lines of savable names read back as the same names in order |
| ProjectFile.ManifestLoads | Split_Gpl_Modules.js:248-251 | a manifest of the saved layout reads back as its module list; the name and start entries add nothing |
| ProjectFile.LoadedNamesOneLine | Split_Gpl_Modules.js:248-250 | every name read is non-empty and lies within one line |
| ProjectFile.InsertFacts | Split_Gpl_Modules.js:262-266 | `Set.add` keeps the members unique, keeps those present in place, and adds exactly x |
| ProjectFile.InsertAllFacts | Split_Gpl_Modules.js:249-252 | adding a list of names keeps members unique and in place, and the result holds exactly the old members and the list |
| ProjectFile.InsertAllAgain | Split_Gpl_Modules.js:249-252 | loading the same names twice gives the same set as loading them once |
| ProjectFile.InsertAllPresent | Split_Gpl_Modules.js:249-252 | adding names that are all present changes nothing |
| ProjectFile.InsertAllFresh | Split_Gpl_Modules.js:249-252 | a list without repeats added to an empty set gives the list, in order |
| ProjectFile.ProjectFileManager.constructor | Split_Gpl_Modules.js:226-231 | a manager bound to its path with the given name and start (defaults MergeCode and MAIN) and no modules |
| ProjectFile.ProjectFileManager.AddModule | Split_Gpl_Modules.js:262-266 | the module is added once: present afterwards, earlier ones in place, no duplicates |
| ProjectFile.ProjectFileManager.LoadProjectFile | Split_Gpl_Modules.js:245-260 | a readable manifest adds its names in file order; a missing one changes nothing and is not an error; any other read error is reported and changes nothing |
| ProjectFile.ProjectFileManager.SaveProjectFile | Split_Gpl_Modules.js:268-285 | the disk afterwards holds the serialized manifest (timestamp comment, begin, name, start, one source line per module in set order, end; LF endings), or is unchanged when the write fails |
| ProjectFile.SaveThenLoad | Split_Gpl_Modules.js:245-285 | what a manager saves, a fresh manager for the same file loads back: the same modules in the same order |
| Merge.MergeModules | Split_Gpl_Modules.js:143-181 | the merge directory afterwards is `MergeResult`: unchanged when the split manifest cannot be read, else the merged file and then the fixed manifest written |
| Merge.SplitLinesJoin | Split_Gpl_Modules.js:146 | the lines from `split(/\r?\n/)`, joined with LF, give the text back with each CR LF read as LF |
| Merge.SplitLinesNoLf | Split_Gpl_Modules.js:146 | no line from `split(/\r?\n/)` holds a line feed |
| Merge.SplitLinesAppend | Split_Gpl_Modules.js:146 | text that ends a line splits into lines independently of what follows |
| Merge.SplitOnJoin | Split_Gpl_Modules.js:151 | `split('=')` parts joined with `=` give the text back, and no part holds `=` |
| Merge.StripFacts | Split_Gpl_Modules.js:151 | the replace leaves no quote, CR or LF; text without them comes back unchanged; a single character is removed exactly when it is a quote, CR or LF (with StripAppend this fixes the result on every text) |
| Merge.StripAppend | Split_Gpl_Modules.js:151 | the replace distributes over concatenation |
| Merge.MergeNamesAppend | Split_Gpl_Modules.js:146-163 | manifest text that ends a line gives its module names independently of what follows |
| Merge.MergeNamesLine | Split_Gpl_Modules.js:150-151 | one line with its ending contributes what that line names, if anything |
| Merge.SourceEntryName | Split_Gpl_Modules.js:150-151 | a `ProjectSource="m"` line of a plain name without `=` is a source line naming m |
| Merge.SourceLinesMerge | Split_Gpl_Modules.js:146-163 | the source lines of mergeable names are read back as those names in order |
| Merge.EntryMergesNothing | Split_Gpl_Modules.js:150 | a `Key="value"` line whose key differs from `ProjectSource=` names nothing |
| Merge.ManifestMergeNames | Split_Gpl_Modules.js:146-163 | a manifest of the saved layout, with LF or CR LF endings, is read by the merge as its module list |
| Merge.SavedManifestReadsAlike | Split_Gpl_Modules.js:146-151 | the merge and the project file manager read the same module list from a saved manifest |
| Merge.MergedTextAppend | Split_Gpl_Modules.js:149-164 | the merged text of two name lists is the merged text of each, in order |
| Merge.MergedTextSkips | Split_Gpl_Modules.js:153-162 | a module file that cannot be read adds nothing, and the merge goes on |
| Merge.MergedTextReadable | Split_Gpl_Modules.js:154-155 | a readable module file appears whole, followed by CR LF, between what precedes and what follows it |
| Merge.FixedManifestNames | Split_Gpl_Modules.js:175 | the fixed manifest, read by either reader, lists MergeCode.gpl and the two configuration modules |
| Merge.GplNameMergeable | Split_Gpl_Modules.js:106 | a word followed by `.gpl` is a name both readers give back whole |
| Split.SplitResult | Split_Gpl_Modules.js:77-121 | the run stops with the directory unchanged on a manifest read error, and likewise when the input cannot be read; otherwise it saves |
| Split.SplitLoaded | Split_Gpl_Modules.js:90-121 | once the manifest is loaded, the run saves exactly when the input was read, and otherwise leaves the directory unchanged |
| Split.SplitModules | Split_Gpl_Modules.js:68-122 | the split as the program runs it (manager, load, loop, save) yields `SplitResult` |
| Split.WriteMatches | Split_Gpl_Modules.js:97-117 | the loop over `exec` writes every match's file in order and registers exactly the names whose write went through |
| Split.WriteModulesRegisters | Split_Gpl_Modules.js:110-116 | the registered modules are the loaded ones plus, in match order, each written file's name once; writes leave readability and writability alone |
| Split.RegisteredIff | Split_Gpl_Modules.js:110-116 | a name is registered exactly when it was loaded or one of its writes went through; loaded names keep their places; no name appears twice |
| Split.WriteModulesUntouched | Split_Gpl_Modules.js:109-116 | a file no match is written to, or whose writes all fail, keeps its content |
| Split.WriteModulesLastWins | Split_Gpl_Modules.js:109-111 | a written file holds the text of the last match with its name |
| Split.ModuleTextShape | Split_Gpl_Modules.js:99-111 | a module file is CR LF text; read back with CR LF as LF, it is the matched span (comments and module) read the same way, followed by two line feeds |
| Split.MatchFileShape | Split_Gpl_Modules.js:104-106 | every module file name is a non-empty word followed by `.gpl` |
| RoundTrip.MatchFileMergeable | Split_Gpl_Modules.js:104-106 | a module file name can be saved and read back by both readers, and never clashes with `Project.gpr` |
| RoundTrip.MergedTextJoins | Split_Gpl_Modules.js:149-164 | when each listed file holds its text, the merged text is those texts joined, each followed by CR LF |
| RoundTrip.JoinedReadsBack | Split_Gpl_Modules.js:155 | CR LF module files joined by the merge stay CR LF text, and read back file by file |
| RoundTrip.MergedFileReadsBack | Split_Gpl_Modules.js:111 | the merged file of a split is CR LF text; read back, it is each matched span followed by three line feeds, in match order |
| RoundTrip.SplitRegisters | Split_Gpl_Modules.js:110-118 | on a writable directory with no repeated names, the split registers every module file in match order |
| RoundTrip.SplitWritesFiles | Split_Gpl_Modules.js:109-113 | on a writable directory with no repeated names, each module file holds its match's text |
| RoundTrip.SplitDisk | Split_Gpl_Modules.js:77-118 | on a fresh, writable directory the saved manifest lists every module file in match order, and each file holds its match's text |
| RoundTrip.SplitFilesMergeable | Split_Gpl_Modules.js:104-106 | every name the split registers can be read back by the merge |
| RoundTrip.SplitThenMerge | Split_Gpl_Modules.js:68-181 | split then merge: the merge directory receives every module file rejoined in match order, and the fixed manifest |

## Left out

- The interactive menu, the readline prompts, the file picker (`promptFileSelection`) and `process.exit` are not modelled; they are user interface. The selected input file arrives as a `ReadResult`.
- Console messages and their colours are not modelled. This includes the separate warning for the two `__init__…Config__.gpl` files, which changes only the message and not what is merged.
- Creating the output directories with `fs.access`/`fs.mkdir` is not modelled. The directories are taken to exist, and a write that fails for any reason is a name in the `unwritable` set of a `Disk`.
- `Date().toLocaleString` is not modelled; the timestamp is the parameter `ts`.
- `path.join` is not modelled. The split directory and the merge directory are separate `Disk` values, indexed by bare file name.
- async/await is not modelled; the flow is sequential. The error that `loadProjectFile` rethrows ends `splitModules` as an unhandled rejection, and is modelled as the outcome `LoadFailed`.
- `getCurrentTimestamp` is not modelled; it is the clock (see `ts`).
- JavaScript strings are UTF-16 code units and Dafny `char` is a Unicode scalar value. Surrogate pairs are therefore not modelled. Neither `\w` nor the patterns depend on characters beyond the line terminators listed in `Text.IsLineTerminator`.
- ProjectFile.SaveThenLoad assumes four things. The module list has no repeats, as a `Set` guarantees. Every module name is at least five characters long, ends in `.gpl`, and holds no quote or line terminator (`IsSavable`). The timestamp, project name and start entry hold no quote (`NoQuote`). The manifest path is neither unwritable nor unreadable. The manifest pattern does not read other names back whole.
- ProjectFile.ManifestLoads assumes three things. Every module name is `IsSavable`. The timestamp, project name and start entry hold no quote. The line ending is LF or CR LF, or at least ends in LF, is at most two characters long and holds no quote (`IsEol`).
- Merge.ManifestMergeNames assumes three things. Every module name is `IsSavable` and holds no `=` (`IsMergeable`). The timestamp, project name and start entry hold no quote or line terminator (`IsPlain`). The line ending is LF or CR LF (`IsLineEnd`). `split('=')[1]` and the strip would alter other names, and a quote or line break in an entry could forge a `ProjectSource=` line.
- Merge.SavedManifestReadsAlike assumes two things. Every module name is `IsMergeable`, and the timestamp, project name and start entry are `IsPlain`.
- RoundTrip.SplitThenMerge assumes three things about the split's output directory. Nothing in it is unreadable, nothing in it is unwritable, and it holds no `Project.gpr` yet. It also assumes a split timestamp that is `IsPlain` and no repeated module file name among the matches. With a repeated name the last match wins the file (Split.WriteModulesLastWins), and the merge reads that file once per registration. The merge directory may have unwritable files; the result then shows the failed writes.
- RoundTrip.SplitDisk has the same assumptions as RoundTrip.SplitThenMerge, except for the timestamp.
- RoundTrip.SplitWritesFiles assumes only an output directory with nothing unwritable and no repeated module file name.
- RoundTrip.SplitRegisters assumes an output directory with nothing unwritable, a manager that starts with no modules, and no repeated module file name.

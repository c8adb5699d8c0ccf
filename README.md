# dbdemos tracker updater: the patch-decision engine in Dafny

The updater clones a repository and checks whether it already uses the
`dbdemos-tracker` package. If it does not, the updater adds the package to a
dependency manifest and adds a `dbdemos_tracker.initialize()` call to a Python
entry file, then proposes the change. This project models the part that
decides and computes those edits:

- **Detection** (`check_tracker_exists`) looks in six manifests for the
  substring `dbdemos-tracker`. It then looks in every `.py` file outside
  hidden directories for `from` or `import`, whitespace, and `dbdemos_tracker`.
- **Dependency patch** (`add_dependency`) edits only the first manifest present
  among requirements.txt, pyproject.toml, setup.py and Pipfile, with that
  manifest's editor. If there is none, it creates requirements.txt.
- **Initialization patch** (`add_initialization`, `add_tracker_init_to_file`)
  chooses the target file in a fixed cascade. It then inserts an import line
  and one initialize call, which goes into the `__main__` block, else into
  `def main`, else at the end of the file.
- **Aggregation and the run** (`add_tracker_to_repo`,
  `process_single_repository`) run both patches and report the OR of their
  results. The run stops early when the tracker is detected.
- **Repository list** (`get_repositories_from_file`) keeps stripped lines that
  are neither blank nor `#` comments.

Modules:

| file | module | contents |
|---|---|---|
| `strings.dfy` | `Strings` | Python's `strip` (its whitespace set), `split('\n')` / `'\n'.join`, `in`, `list.insert`, `str.replace`, UTF-8 byte length |
| `patterns.dfy` | `Patterns` | the import regex, the init guard's substring test, the `def\s+main\s*\(` test, first-line search, and the leftmost lazy match of `install_requires\s*=\s*\[(.*?)\]` |
| `manifests.dfy` | `Manifests` | the four editors as functions from content to `Option<content>` (None: no write, False) |
| `entry_patch.dfy` | `EntryPatch` | `add_tracker_init_to_file` on a file's text: spec functions, the scanning methods, and the placement lemmas |
| `updater.dfy` | `Updater` | the repository as a value, detection, both patches, the aggregation and the run, with their lemmas |
| `workspace.dfy` | `Workspace` | class `TrackerUpdater`: the repository as fields changed in place. Each method is proved to produce the state and result given by `Updater` |
| `repo_list.dfy` | `RepoList` | the repository-list line filter |

The repository is modelled as a value `Repo` with four parts:
- a map from relative path (`a/b.py`) to text;
- the order in which the walk meets files (at the root this is the listing order);
- the sizes `getsize` reports, where a missing size stands for a `getsize` failure;
- the set of files whose reading raises.

Proved consequences of the code as written:
- A repository whose files can all be read and that is not yet tracked is
  patched and proposed. Running on the patched repository then stops at
  detection (`Updater.ProcessProposesThenSkips`).
- The initialization patch alone guarantees this. For every target stage it
  leaves a scanned file that the detector's regex matches.
- Appending to a requirements.txt whose last line has no newline glues the
  package name onto that line (`Manifests.RequirementsAppendsToLastLine`).
  The model reproduces this as the code does.
- The detector accepts `import<TAB>dbdemos_tracker`; the init guard's
  substring test does not (`Patterns.DetectorAcceptsTab`,
  `Patterns.GuardRejectsTab`).

## Model

Source paths are relative to the repository root.

| member | source | states |
|---|---|---|
| Patterns.ImportPhraseIsRegex | dbdemos_tracker_updater.py:190 | at position i, "kw, a whitespace run, dbdemos_tracker" holds exactly when the regex alternative `kw\s+dbdemos_tracker` matches there (both directions) |
| Patterns.MentionsTrackerImport | dbdemos_tracker_updater.py:190 | the detector's `re.search`: some position starts `from` or `import`, a whitespace run and `dbdemos_tracker`; `ImportPhraseIsRegex` ties each position to the regex reading |
| Patterns.AlreadyImportsIsDetected | dbdemos_tracker_updater.py:391 | content containing `import dbdemos_tracker` or `from dbdemos_tracker` is matched by the detector's regex |
| Patterns.DetectorAcceptsTab | dbdemos_tracker_updater.py:190 | the detector's regex accepts a tab between `import` and the module name |
| Patterns.GuardRejectsTab | dbdemos_tracker_updater.py:391 | the init guard's substring test does not see `import<TAB>dbdemos_tracker` |
| Patterns.FirstFromFinds | dbdemos_tracker_updater.py:269-273 | the first-line search returns a line that passes the test, and no earlier line passes it |
| Patterns.FirstFromIs | dbdemos_tracker_updater.py:269-273 | conversely, a passing line with no passing line before it is what the search returns |
| Patterns.FirstFromNone | dbdemos_tracker_updater.py:269-273 | with no passing line the search finds nothing |
| Patterns.DefMainAt | dbdemos_tracker_updater.py:424 | `re.match(r'def\s+main\s*\(', line.strip())`, read deterministically; `DefMainIsRegex` gives its meaning |
| Patterns.DefMainIsRegex | dbdemos_tracker_updater.py:424 | the deterministic test holds exactly when `def`, a non-empty whitespace run, `main`, a possibly empty whitespace run and `(` start the text, for some run lengths (both directions) |
| Patterns.FindListFromIsLeftmost | dbdemos_tracker_updater.py:289-290 | the match found is the leftmost start of `install_requires\s*=\s*[`, and the list closes at the first `]` after `[`; no earlier position matches; None means no position matches |
| Patterns.FindListFrom | dbdemos_tracker_updater.py:289-290 | `re.search` of the `install_requires` pattern: the three groups lie in order inside the text, at or after the search start; `FindListFromIsLeftmost` states which match it is |
| Patterns.MatchTextDeterminesMatch | dbdemos_tracker_updater.py:299 | every copy of the matched text is itself a match of the pattern |
| Manifests.RequirementsEdit | dbdemos_tracker_updater.py:247-258 | no write and False exactly when `dbdemos-tracker` is a substring; otherwise the old content is a prefix of the new, and the new content contains the name |
| Manifests.RequirementsIdempotent | dbdemos_tracker_updater.py:252-256 | applying the editor to its own output reports no change |
| Manifests.RequirementsAppendsToLastLine | dbdemos_tracker_updater.py:253-254 | the new lines are the old ones with the name appended to the last line, plus an empty final line |
| Manifests.InsertAfterHeaderLine | dbdemos_tracker_updater.py:268-273 | the for-loop with `insert` and `break` computes the list with the entry after the first exact header line (unchanged if there is none) |
| Manifests.HeaderEdit | dbdemos_tracker_updater.py:265-280 | no write and False exactly when the name is present or the header is not a substring |
| Manifests.PyprojectEdit | dbdemos_tracker_updater.py:260-280 | the header editor with `[tool.poetry.dependencies]`; the `HeaderEdit` contract and lemmas describe it |
| Manifests.PipfileEdit | dbdemos_tracker_updater.py:308-327 | the header editor with `[packages]`; the `HeaderEdit` contract and lemmas describe it |
| Manifests.InsertAfterHeader | dbdemos_tracker_updater.py:268-273 | the line list after the loop with `insert` and `break`; `InsertAfterHeaderLine` and `HeaderEditInsertsAfterFirstHeader` state it |
| Manifests.HeaderLineIsSubstring | dbdemos_tracker_updater.py:267-270 | a line whose strip equals the header makes the substring test pass |
| Manifests.HeaderEditFound | dbdemos_tracker_updater.py:267-276 | with the first exact header line at h, the written text is the line list with `dbdemos-tracker = "*"` inserted at h+1, joined |
| Manifests.HeaderEditInsertsAfterFirstHeader | dbdemos_tracker_updater.py:268-276 | the written file splits into exactly the old lines with one entry line inserted after the first header line |
| Manifests.HeaderEditSubstringOnly | dbdemos_tracker_updater.py:267-278 | when the header is only a substring, the content is rewritten unchanged and True is reported, every time |
| Manifests.HeaderEditIdempotentAfterInsert | dbdemos_tracker_updater.py:265-272 | after an insertion a second application reports no change |
| Manifests.NewDeps | dbdemos_tracker_updater.py:293-297 | non-blank contents are kept and followed by a comma; the new contents always name the package |
| Manifests.Replacement | dbdemos_tracker_updater.py:293-299 | `before + new_deps + after` always names the package |
| Manifests.Rewrite | dbdemos_tracker_updater.py:299 | `content.replace(match.group(0), ...)`; `SetupEditRewritesLeftmostMatch`, `SetupEditRewritesNextCopy` and `SetupEditRewritesAdjacentCopy` state what it writes |
| Manifests.SetupEdit | dbdemos_tracker_updater.py:286-306 | no write and False exactly when the name is present or no `install_requires` list matches |
| Manifests.FoundIsLeftmost | dbdemos_tracker_updater.py:289-290 | the match used is the leftmost one |
| Manifests.SetupEditRewritesLeftmostMatch | dbdemos_tracker_updater.py:291-299 | the text before the match is kept, the match becomes `before + new_deps + after`, and the replacement scan goes on right after the match |
| Manifests.SetupEditRewritesNextCopy | dbdemos_tracker_updater.py:299 | every copy is rewritten, as `str.replace` does: the next copy of the matched text after the match, wherever it starts, gets the new list too, and the text in between is kept |
| Manifests.SetupEditRewritesAdjacentCopy | dbdemos_tracker_updater.py:299 | the special case of a copy that starts right after the match |
| Strings.ReplaceAllFirst | dbdemos_tracker_updater.py:299 | `str.replace` keeps the text before the first occurrence, writes the replacement for it and goes on scanning after it |
| Strings.ReplaceAllTwice | dbdemos_tracker_updater.py:299 | two adjacent occurrences at the first position are both replaced |
| Strings.ReplaceAll | dbdemos_tracker_updater.py:299 | `str.replace` with a non-empty pattern; `ReplaceAllFirst` and `ReplaceAllTwice` state its effect |
| Strings.ReplaceFrom | dbdemos_tracker_updater.py:299 | the scan of `str.replace` from an index; `ReplaceFromNext` states that the text up to the next occurrence is kept and that occurrence replaced |
| Strings.ReplaceFromNext | dbdemos_tracker_updater.py:299 | with no occurrence between j and an occurrence at i, the scan from j keeps `s[j..i]`, writes the replacement and goes on after the occurrence |
| Strings.Strip | dbdemos_tracker_updater.py:59 | `str.strip()`: empty exactly when the text is all whitespace (the `isspace` set); otherwise it starts and ends with a non-space and is no longer than the text; `StripWindow` pins the result down |
| Strings.StripWindow | dbdemos_tracker_updater.py:59 | the result is exactly the text from the end of the leading whitespace run up to a point after which only whitespace follows, and it does not end in whitespace, so both runs are removed and nothing else |
| Strings.StripIsSlice | dbdemos_tracker_updater.py:59 | the stripped text is a contiguous slice of the original |
| Strings.Lines | dbdemos_tracker_updater.py:268 | `split('\n')` gives at least one piece |
| Strings.JoinLines | dbdemos_tracker_updater.py:276 | `'\n'.join` of the pieces of `split('\n')` gives the text back |
| Strings.LinesJoin | dbdemos_tracker_updater.py:394 | pieces without newlines come back from `split('\n')` of their join, so the edited line list is what the next read sees |
| Strings.Join | dbdemos_tracker_updater.py:442 | `'\n'.join`; `JoinLines` and `LinesJoin` make it the inverse of `Lines` |
| Strings.LeadingSpace | dbdemos_tracker_updater.py:430 | `len(x) - len(x.lstrip())`: the length of the leading run of `isspace` characters; the character after it, if any, is not whitespace |
| Strings.Contains | dbdemos_tracker_updater.py:252 | Python's `p in s` on strings: `p` occurs at some position of `s`; `ContainsInfix` and `ContainsPrefix` state how it behaves under concatenation |
| Strings.Insert | dbdemos_tracker_updater.py:272 | `list.insert(j, x)` for `j` within the list: one element longer, `x` at j, everything before kept, everything from j shifted by one |
| Strings.Spaces | dbdemos_tracker_updater.py:431 | `' ' * n`: exactly n space characters |
| Strings.Utf8Len | dbdemos_tracker_updater.py:355 | the size `getsize` reports for text written as UTF-8: one to four bytes per character |
| Manifests.SetupEditAddsName | dbdemos_tracker_updater.py:299 | the written content contains the package name |
| Manifests.SetupEditIdempotent | dbdemos_tracker_updater.py:287 | a second application reports no change |
| EntryPatch.BlankAgrees | dbdemos_tracker_updater.py:413 | the blank-line test equals `line.strip() == ''` |
| EntryPatch.KeywordFirstAgrees | dbdemos_tracker_updater.py:399 | reading from the first non-space character equals `line.strip().startswith(kw)` for a keyword ending in a space |
| EntryPatch.IsImportLikeAgrees | dbdemos_tracker_updater.py:399 | the import-like test equals the `strip().startswith('import ' / 'from ')` test |
| EntryPatch.InGuardBlockAgrees | dbdemos_tracker_updater.py:413 | the block test equals blank-or-starts-with-space-or-tab |
| EntryPatch.IsFillerAgrees | dbdemos_tracker_updater.py:414 | the filler test equals `strip() == ''` or `strip().startswith('#')` |
| EntryPatch.ImportIndexIsAfterLast | dbdemos_tracker_updater.py:397-400 | the import index follows the last import-like line, and no line from it on is import-like (0 when there is none) |
| EntryPatch.ImportIndex | dbdemos_tracker_updater.py:397-400 | the value of `import_line_idx`: at most the number of lines; `ImportIndexIsAfterLast` states which index |
| EntryPatch.WithImport | dbdemos_tracker_updater.py:403 | the import line inserted at the import index; `InitEditLines` states the written lines |
| EntryPatch.FindImportIndex | dbdemos_tracker_updater.py:397-400 | the scan computes that index |
| EntryPatch.GuardScanFinds | dbdemos_tracker_updater.py:412-418 | the block scan returns the first statement line, preceded only by indented or blank fillers; None means the block ends first |
| EntryPatch.GuardScanIs | dbdemos_tracker_updater.py:412-418 | a statement line preceded only by fillers in the block is what the scan returns |
| EntryPatch.GuardScanNone | dbdemos_tracker_updater.py:412-418 | a block of fillers that ends at a non-block line or at the end of the file gives no statement line |
| EntryPatch.SkipFillersStops | dbdemos_tracker_updater.py:426-428 | skipping stops at the first line that is neither blank nor a comment |
| EntryPatch.SkipFillersIs | dbdemos_tracker_updater.py:426-428 | a non-filler preceded only by fillers is where skipping stops |
| EntryPatch.FindFirst | dbdemos_tracker_updater.py:409-410 | the outer `for i, line in enumerate(lines)` loop with its final `break`, shared by both rules: the first line that passes the rule's test, or none |
| EntryPatch.FindGuardSlot | dbdemos_tracker_updater.py:409-419 | the outer scan, then the block loop, give the rule-1 slot |
| EntryPatch.FindMainSlot | dbdemos_tracker_updater.py:423-433 | the outer scan, then the filler loop, give the rule-2 slot |
| EntryPatch.GuardSlot | dbdemos_tracker_updater.py:409-419 | rule 1's slot lies inside the file; `GuardRule` and `GuardScanFinds` state which line it is |
| EntryPatch.IndentedCall | dbdemos_tracker_updater.py:430-431 | the line rule 2 inserts; `IndentedCallKeepsIndent` states its shape |
| EntryPatch.IndentedCallKeepsIndent | dbdemos_tracker_updater.py:430-431 | the line rule 2 inserts has as many leading whitespace characters as line j, and the call follows them |
| EntryPatch.MainSlot | dbdemos_tracker_updater.py:422-433 | rule 2's slot lies inside the file; `MainRule` and `SkipFillersStops` state which line it is |
| EntryPatch.PlaceCall | dbdemos_tracker_updater.py:406-439 | the three-way placement; `GuardRule`, `MainRule`, `EmptyGuardFallsThrough`, `AppendRule` and `PlaceCallOnlyInserts` state it |
| EntryPatch.PlaceInitCall | dbdemos_tracker_updater.py:406-439 | the three-way placement gives the placed line list |
| EntryPatch.InitEdit | dbdemos_tracker_updater.py:391-392 | no write and False exactly when the content contains `import dbdemos_tracker` or `from dbdemos_tracker` |
| EntryPatch.AddTrackerInit | dbdemos_tracker_updater.py:387-445 | the guard, the import insertion and the placement give InitEdit |
| EntryPatch.GuardRule | dbdemos_tracker_updater.py:409-419 | given the first guard line and the first statement of its block, the call goes before that statement, indented by four spaces |
| EntryPatch.MainRule | dbdemos_tracker_updater.py:422-433 | with rule 1 failing, given the first `def main(` line and the first non-filler after it, the call goes there, indented by that line's leading-whitespace count |
| EntryPatch.EmptyGuardFallsThrough | dbdemos_tracker_updater.py:409-433 | stated on the lines: when the first guard line's block holds only indented or blank fillers up to its end, rule 1 finds no slot and placement falls through to rule 2 or the trailer |
| EntryPatch.AppendRule | dbdemos_tracker_updater.py:409-439 | stated on the lines: when there is no guard line or its block holds only fillers, and there is no `def main(` line or only fillers follow it, neither rule finds a slot and the output is the input followed by the three trailer lines |
| EntryPatch.PlaceCallOnlyInserts | dbdemos_tracker_updater.py:406-439 | the output is the input with one line ending in the call inserted, or with the trailer appended; the order of the input is kept |
| EntryPatch.InitEditLines | dbdemos_tracker_updater.py:394-442 | the written text splits back into exactly the edited line list |
| EntryPatch.InitEditIdempotent | dbdemos_tracker_updater.py:391-403 | after an edit the guard holds, so a second application reports no change |
| Updater.RootIsNotHidden | dbdemos_tracker_updater.py:182 | a root-level file is never under a pruned directory |
| Updater.ManifestHasTracker | dbdemos_tracker_updater.py:154-176 | some readable manifest among the six contains the name; `CheckDependencyFiles` is proved to compute it |
| Updater.SourceHasTracker | dbdemos_tracker_updater.py:178-195 | some readable scanned `.py` file matches the import regex; `CheckTrackerImports` is proved to compute it |
| Updater.HasTracker | dbdemos_tracker_updater.py:138-152 | manifest detection or import detection; `Process` stops exactly when it holds |
| Updater.WriteFile | dbdemos_tracker_updater.py:242-243 | a write sets the file's text and changes no other file (`WriteFileKeepsWellFormed`) |
| Updater.RootPyFiles | dbdemos_tracker_updater.py:335-336 | every candidate is a walked root entry ending in `.py` and not starting with `setup`; `RootPyFilesComplete` and `RootPyFilesAppend` add that every such entry is kept, in listing order |
| Updater.RootPyFilesComplete | dbdemos_tracker_updater.py:335-336 | every root entry ending in `.py` and not starting with `setup` is a candidate |
| Updater.RootPyFilesAppend | dbdemos_tracker_updater.py:335-336 | the comprehension keeps listing order: the candidates of a concatenated listing are those of its parts, in turn |
| Updater.FirstPresentSkips | dbdemos_tracker_updater.py:235-237 | no manifest before the one found exists |
| Updater.FirstPresent | dbdemos_tracker_updater.py:235-238 | the index found names an existing manifest at or after the start; `FirstPresentSkips` says none before it exists |
| Updater.ManifestEdit | dbdemos_tracker_updater.py:228-238 | the editor dispatched for each manifest: no change exactly when the name is present, or, for pyproject.toml and Pipfile, the header is not a substring, or, for setup.py, no `install_requires` list matches |
| Updater.ManifestStep | dbdemos_tracker_updater.py:236-238 | running that editor on the repository: it raises exactly when the file cannot be read (the reads at :249, :262, :284 and :310 are not guarded); without a change the repository is untouched; with one, only that manifest gets the edited text |
| Updater.DependencyPatch | dbdemos_tracker_updater.py:225-245 | `add_dependency`; `DependencyPatchCreatesRequirements`, `DependencyPatchEditsFirstPresent`, `DependencyPatchKeepsWellFormed` and `DependencyPatchTwice` state it |
| Updater.DependencyPatchCreatesRequirements | dbdemos_tracker_updater.py:239-245 | with no patched manifest, requirements.txt is created holding exactly `dbdemos-tracker\n`, nothing else changes, and True is reported |
| Updater.DependencyPatchEditsFirstPresent | dbdemos_tracker_updater.py:227-237 | the first present manifest is edited by its own editor and is the only file that changes; an unreadable one makes the step raise |
| Updater.DependencyPatchKeepsWellFormed | dbdemos_tracker_updater.py:225-245 | the walk still lists exactly the files; with every file readable the step does not raise |
| Updater.RequirementLineIsSettled | dbdemos_tracker_updater.py:252 | the created requirements.txt passes the presence guard of `add_to_requirements` |
| Updater.DependencyPatchTwice | dbdemos_tracker_updater.py:225-258 | a second run finds the same manifest, or the created requirements.txt, and reports False whenever that file names the package: always after requirements.txt, setup.py or an unchanged step |
| Updater.FirstExistingIs | dbdemos_tracker_updater.py:340-343 | the first candidate that exists is the target |
| Updater.FirstExisting | dbdemos_tracker_updater.py:340-343 | the result is a candidate that exists; `FirstExistingIs` says it is the first |
| Updater.FirstExistingConcat | dbdemos_tracker_updater.py:338 | entry points are tried before root files |
| Updater.RootPyFilesHead | dbdemos_tracker_updater.py:335-336 | the first qualifying root file in listing order heads the list |
| Updater.InitPicksEntryPoint | dbdemos_tracker_updater.py:332-343 | stage 1: the first existing of main.py, app.py, `__main__.py`, run.py is the target |
| Updater.InitPicksRootFile | dbdemos_tracker_updater.py:335-343 | stage 2: with no entry point, the first qualifying root file is the target |
| Updater.InitFallsBackToLargest | dbdemos_tracker_updater.py:345-382 | stages 3-4: the largest scanned file is the target, or else main.py is created with the scaffold and True is reported |
| Updater.LargestAmongIsMax | dbdemos_tracker_updater.py:346-358 | the running maximum is a scanned file no smaller than any scanned file and strictly larger than every earlier one; None means all sizes met are 0 |
| Updater.LargestAmong | dbdemos_tracker_updater.py:346-358 | the running `largest_file` and `largest_size`; `LargestAmongIsMax` states it |
| Updater.CreatedFilePositionIrrelevant | dbdemos_tracker_updater.py:335-358 | a new file that is not a `.py` file, at any position in the walk, changes neither the root candidates nor the largest file |
| Updater.RequirementsCreationKeepsInitChoice | dbdemos_tracker_updater.py:216-220 | the requirements.txt created by the dependency step leaves the initialization step's choices unchanged |
| Updater.LargestIsNonEmpty | dbdemos_tracker_updater.py:354-356 | a zero-byte file is never chosen |
| Updater.InitFileStep | dbdemos_tracker_updater.py:447-449 | the per-file step never raises |
| Updater.InitPatch | dbdemos_tracker_updater.py:329-382 | the initialization patch never raises |
| Updater.ScaffoldImportsTracker | dbdemos_tracker_updater.py:369-380 | the created main.py passes the import guard |
| Updater.InitFileStepLeavesImport | dbdemos_tracker_updater.py:384-449 | on a readable scanned file, the detector afterwards finds the import there; True unless it was already present |
| Updater.InitPatchLeavesImport | dbdemos_tracker_updater.py:329-382 | whichever stage picks the file, afterwards a scanned file imports the tracker; True when no scanned file did before |
| Updater.Process | dbdemos_tracker_updater.py:96-100 | the run stops exactly when the tracker is detected, and then changes nothing |
| Updater.TrackerPatch | dbdemos_tracker_updater.py:211-223 | both patches, in order, with the OR of their results; `ProcessProposesThenSkips` and `AddTrackerToRepo` state it |
| Updater.ProcessProposesThenSkips | dbdemos_tracker_updater.py:96-112 | a readable untracked repository is patched and proposed, and a second run on the result stops at detection |
| Workspace.TrackerUpdater.CheckDependencyFiles | dbdemos_tracker_updater.py:154-176 | the loop reports exactly whether a readable manifest among the six contains the name |
| Workspace.TrackerUpdater.CheckTrackerImports | dbdemos_tracker_updater.py:178-195 | the walk reports exactly whether a readable scanned file matches the regex |
| Workspace.TrackerUpdater.Write | dbdemos_tracker_updater.py:242-243 | the new state is `WriteFile` of the old: the file gets the text, its UTF-8 size and a place in the walk, and is readable |
| Workspace.TrackerUpdater.CheckTrackerExists | dbdemos_tracker_updater.py:138-152 | the result is manifest detection OR import detection |
| Workspace.TrackerUpdater.AddToRequirements | dbdemos_tracker_updater.py:247-258 | state and result are those of the requirements step |
| Workspace.TrackerUpdater.AddAfterHeader | dbdemos_tracker_updater.py:260-280 | state and result are those of the pyproject (and Pipfile, lines 308-327) step |
| Workspace.TrackerUpdater.AddToSetupPy | dbdemos_tracker_updater.py:282-306 | state and result are those of the setup.py step |
| Workspace.TrackerUpdater.AddDependency | dbdemos_tracker_updater.py:225-245 | state and result are those of DependencyPatch |
| Workspace.TrackerUpdater.AddTrackerInitToFile | dbdemos_tracker_updater.py:384-449 | state and result are those of the per-file step |
| Workspace.TrackerUpdater.RootPythonFiles | dbdemos_tracker_updater.py:335-336 | the listing filter computes the root candidates |
| Workspace.TrackerUpdater.LargestPyFile | dbdemos_tracker_updater.py:346-358 | the accumulator loop computes the largest scanned file |
| Workspace.TrackerUpdater.AddInitialization | dbdemos_tracker_updater.py:329-382 | state and result are those of InitPatch |
| Workspace.TrackerUpdater.AddTrackerToRepo | dbdemos_tracker_updater.py:211-223 | both patches run and the OR of their results is reported |
| Workspace.TrackerUpdater.ProcessRepository | dbdemos_tracker_updater.py:96-112 | the verdict and the final state are those of Process |
| RepoList.RepositoriesFromFile | dbdemos_tracker_updater.py:53-66 | an unreadable file gives no URLs; otherwise the URLs are the kept stripped lines in order |
| RepoList.Entries | dbdemos_tracker_updater.py:58-61 | the kept lines; `EntriesAreKeptLines` and `EntriesAreStripped` state them |
| RepoList.EntriesAppend | dbdemos_tracker_updater.py:58-61 | filtering is line by line: consecutive blocks of lines give consecutive blocks of URLs |
| RepoList.EntriesAreKeptLines | dbdemos_tracker_updater.py:58-61 | x is a URL exactly when some line strips to x and x is neither empty nor a `#` comment |
| RepoList.EntriesAreStripped | dbdemos_tracker_updater.py:59 | every URL is already stripped |

## Left out

- Git operations (clone, branch, commit, push) and the GitHub API (organization listing, pull request creation). The run ends at the verdict `ReadyToPropose`.
- The command line, the token check, logging, the temporary directory, and the per-repository exception handling in `process_repositories`.
- The file system. A repository is a value. `os.path.exists` is membership in the file map, so a directory named like a manifest or `main.py` is not modelled.
- Newline translation on read and write (universal newlines). Text is read and written as given, so `\r\n` and a lone `\r` are not line breaks here.
- Updater.WriteFile: places a newly created file at the end of the walk order; the real position depends on the file system. In one run the only file created before the order is read again is requirements.txt. It is not a `.py` file, so wherever it lands it changes neither the root candidates nor the largest-file choice (`Updater.CreatedFilePositionIrrelevant`). main.py is created last, and detection does not depend on order.
- Failed writes (disk full, permissions) are not modelled. Every write succeeds.
- Python's `str.isspace` set is written out by hand. The Unicode database it comes from is not part of this model.
- The three regular expressions are hand-written predicates, not a general regex engine.
- Manifests.NewDeps: states that non-blank list contents are kept and the name is added. The exact text inserted is stated only by its definition.
- Updater.ProcessProposesThenSkips: requires every file to be readable. With unreadable files the run may raise, or report no change while the repository stays undetected.

# WhatCanIDelete: a Dafny model of the analyzer core

WhatCanIDelete is a read-only disk-cleanup advisor. It walks a folder tree,
reads each file's metadata and classifies the file with a fixed, ordered rule
set as *Likely Safe to Delete*, *Be Careful* or *Do Not Delete*. It then
downgrades the older copies of same-named files and shows the results largest
first, with a summary line and an optional CSV report.

This project models that core in Dafny and proves properties of the model:

- `text.dfy` (`Text`): `string.IsNullOrWhiteSpace`, case folding for
  `StringComparer.OrdinalIgnoreCase`, and decimal rendering of integers with
  its inverse.
- `clock.dfy` (`Clock`): `DateTime` as ticks, `TimeSpan.FromDays`, and the
  `yyyy-MM-dd` rendering.
- `models.dfy` (`Models`): the `FileCategory` enum and the
  `FileAnalysisResult` record with its init-only and settable properties. Also
  `CategoryDescription`, `LastAccessedDescription` and the unit choice of
  `SizeDescription`.
- `classifier.dfy` (`Classifier`): `FileAnalyzer.Classify`, the four
  first-match-wins rules.
- `duplicate_detector.dfy` (`DuplicateDetector`): `FileAnalyzer.EnrichDuplicates`.
- `directory_walker.dfy` (`DirectoryWalker`): the stack walk of
  `FileAnalyzer.AnalyzeFolder`.
  - The filesystem is a finite tree of directories and files. Any enumeration
    or metadata read in it may throw one of four exception kinds.
  - The cancellation token is an oracle: poll `k` reports cancellation once
    `k` reaches a threshold.
  - The walk is specified by an event list (poll, emitted entry, escaping
    exception) built recursively from the tree, plus an interpreter for it.
    The stack loop `Walk` is proved to compute exactly what the interpreter
    does.
- `file_analyzer.dfy` (`FileAnalyzer`): `AnalyzeFolderAsync` and
  `AnalyzeFolder`, which combine argument validation, the walk and the
  duplicate pass.
- `csv.dfy` (`Csv`): the report lines of `ExportReportAsync`, plus a record
  reader following section 2 of RFC 4180. The reader shows that every report
  line gives back the fields it was built from.
- `main_view_model.dfy` (`MainViewModel`): the view model's state. It covers
  `BuildSummary`, the descending-size ordering, `AnalyzeFolderAsync`,
  `ExportReportAsync` and `SetProperty`.
- `wrappers.dfy` (`Wrappers`): `Option` and `Result`.

The clock (`DateTime.Now`) and the exception text of a failed analysis are
parameters. The filesystem is an input value.

Three behaviours of the code that are easy to miss:

- **Directory errors.** Only `UnauthorizedAccessException` and
  `PathTooLongException` are skipped while listing a directory. Any other
  exception ends the walk, such as a `DirectoryNotFoundException` for a
  folder deleted mid-scan (`CaughtForDirectory`, `Walk`'s `Failure`
  outcomes).
- **Duplicate downgrades.** The duplicate pass downgrades an older copy even
  when the classifier said *Do Not Delete*. It leaves the kept copy's verdict
  alone (`DuplicateDetector.DataCsvScenario`).
- **Blank reasons.** When an entry's reason is empty or white space, the pass
  replaces it instead of appending to it (`IsNullOrWhiteSpace`). After
  `Classify` this branch is unreachable.

## Model

| member | source | states |
|---|---|---|
| Text.BlankExamples | Services/FileAnalyzer.cs:30 | The empty string and white-space-only strings are blank; a string with any visible character is not |
| Text.FoldIdempotent | Services/FileAnalyzer.cs:19 | Case folding is idempotent: the case-insensitive key of a key is itself |
| Text.EqualsIgnoreCaseExamples | Services/FileAnalyzer.cs:160 | `.LOG` and `.log` are equal ignoring case, as are `Data.CSV` and `data.csv`; `.logs` and `.log` are not |
| Text.DecimalRoundTrip | ViewModels/MainViewModel.cs:128 | Reading back the decimal text of a size gives the same integer |
| Text.DecimalInjective | ViewModels/MainViewModel.cs:128 | Two different sizes never render as the same text |
| Text.PadValue | Models/FileAnalysisResult.cs:24 | A number of at most `width` digits reads back from its zero-padded text, so `yyyy`, `MM` and `dd` lose nothing |
| Clock.DateOf | Models/FileAnalysisResult.cs:24 | Every tick count maps to a date with year in 1..9999, month in 1..12 and day in 1..31 |
| Clock.DateText | Models/FileAnalysisResult.cs:24 | `yyyy-MM-dd` is ten characters, digits with dashes at positions 4 and 7, and its three digit groups read back as the year, month and day of the tick count's date |
| Clock.DateOfMin | Models/FileAnalysisResult.cs:24 | `DateTime.MinValue` is 0001-01-01 |
| Clock.DateOfMax | Models/FileAnalysisResult.cs:24 | `DateTime.MaxValue` is 9999-12-31 |
| Clock.DateOfLeapDay | Models/FileAnalysisResult.cs:24 | The ticks of 29 February 2024 give 2024-02-29 |
| Clock.DateTextSample | Models/FileAnalysisResult.cs:24 | The ticks of 29 February 2024 render as `2024-02-29` |
| Models.NewEntry | Services/FileAnalyzer.cs:96-104 | The object initialiser sets the six init-only fields; category and reason keep their defaults (the enum's first value and the empty string) |
| Models.DefaultEntry | Models/FileAnalysisResult.cs:7-14 | A default record has empty strings, zero size, `MinValue` for the write time, no access time and category `LikelySafe` |
| Models.Reclassify | Models/FileAnalysisResult.cs:13-14 | Setting category and reason changes only those two properties |
| Models.CategoryDescription | Models/FileAnalysisResult.cs:25-31 | No category is ever described as "Unknown": the default arm is unreachable for the three enum values |
| Models.CategoryDescriptionRoundTrip | Models/FileAnalysisResult.cs:25-31 | Each category's label reads back as that category |
| Models.CategoryDescriptionInjective | Models/FileAnalysisResult.cs:25-31 | Distinct categories have distinct labels |
| Models.CategoryDescriptionPlain | Models/FileAnalysisResult.cs:27-29 | No label contains a comma or a quote, so the report may leave it unquoted |
| Models.LastAccessedDescription | Models/FileAnalysisResult.cs:24 | The text is "Unavailable" exactly when there is no access time; otherwise it is a ten-character date |
| Models.UnitOf | Models/FileAnalysisResult.cs:16-22 | Bytes exactly below 1024; otherwise the largest unit the size reaches, so the shown number is at least 1 and, below GB, under 1024 |
| Models.UnitOfMonotonic | Models/FileAnalysisResult.cs:16-22 | A larger size never gets a smaller unit |
| Models.ByteSizeDescription | Models/FileAnalysisResult.cs:18 | Below 1 KB the text is the exact integer followed by " B", and the integer reads back |
| Classifier.Classify | Services/FileAnalyzer.cs:127-155 | Only category and reason change; the reason is one of the four fixed, non-empty sentences, and the category is the one that goes with it |
| Classifier.Judge | Services/FileAnalyzer.cs:129-154 | The verdict is likely safe exactly for a temporary extension or an age of at least 365 days, and needs caution exactly for a non-temporary file 180 to 365 days old of at least 100 MiB; the reason always goes with the category, and a temporary extension always gives the temporary reason |
| Classifier.TemporaryExtensionIsSafe | Services/FileAnalyzer.cs:129-134 | A temporary extension is likely safe with the temporary reason, whatever the age or size |
| Classifier.TemporaryExtensionCaseInsensitive | Services/FileAnalyzer.cs:19-26 | The extension lookup ignores case; near misses (`.logs`, `log`, empty) are not temporary |
| Classifier.OldFileIsSafe | Services/FileAnalyzer.cs:136-143 | Without a temporary extension, an effective access at least 365 days old is likely safe |
| Classifier.LargeMediumAgedFileNeedsCaution | Services/FileAnalyzer.cs:146-151 | Otherwise, 180 to 365 days old and at least 100 MiB needs caution |
| Classifier.SizeThresholdBoundary | Services/FileAnalyzer.cs:146-151 | The size threshold is inclusive: 104857600 bytes needs caution, 104857599 bytes is kept |
| Classifier.CategoryCharacterisation | Services/FileAnalyzer.cs:127-155 | Each category in both directions, in terms of extension, age and size |
| Classifier.OlderIsNeverMoreCautious | Services/FileAnalyzer.cs:139-154 | An older effective access never yields a more cautious category |
| Classifier.LargerIsNeverMoreCautious | Services/FileAnalyzer.cs:146-154 | A larger file never yields a more cautious category |
| Classifier.ClassifyIdempotent | Services/FileAnalyzer.cs:127-155 | Classifying a classified entry again changes nothing |
| Classifier.ClassifyIgnoresPriorJudgement | Services/FileAnalyzer.cs:127-155 | The result depends only on the init-only fields, not on an earlier category or reason |
| Classifier.Scenarios | Services/FileAnalyzer.cs:127-155 | `a.log` is likely safe as temporary; `report.csv`, written 400 days ago with no access time, is likely safe as stale |
| DuplicateDetector.Downgrade | Services/FileAnalyzer.cs:168-172 | A non-first member becomes `BeCareful`; a non-blank reason gets a space and the sentence appended, a blank one is replaced by the sentence |
| DuplicateDetector.DowngradeChanges | Services/FileAnalyzer.cs:169-172 | A downgraded entry always differs from the original |
| DuplicateDetector.Survivor | Services/FileAnalyzer.cs:165 | Every entry's group has a member that is first in the stable descending order by modification time |
| DuplicateDetector.KeptUnique | Services/FileAnalyzer.cs:165-166 | A group has at most one first member |
| DuplicateDetector.SurvivorIsSelfIffKept | Services/FileAnalyzer.cs:165-166 | An entry is its group's survivor exactly when it is first in its group |
| DuplicateDetector.EnrichedAt | Services/FileAnalyzer.cs:163-173 | At each position the entry is unchanged exactly when it is first in its group; otherwise it is downgraded |
| DuplicateDetector.EnrichDuplicates | Services/FileAnalyzer.cs:157-175 | Positions and init-only fields are kept; an entry is unchanged iff it comes first in its group, and otherwise it is downgraded |
| DuplicateDetector.ExactlyOneSurvivorPerGroup | Services/FileAnalyzer.cs:157-175 | Every group has exactly one untouched member, with the latest modification time; every other member is `BeCareful` |
| DuplicateDetector.UniqueNameUntouched | Services/FileAnalyzer.cs:159-161 | An entry whose name no other entry shares, ignoring case, is left as it was |
| DuplicateDetector.ChangedOnlyInSharedGroups | Services/FileAnalyzer.cs:159-161 | A changed entry shares its name with another entry |
| DuplicateDetector.KeptDependsOnKeys | Services/FileAnalyzer.cs:160-165 | Which member comes first depends only on names and modification times |
| DuplicateDetector.SurvivorsStable | Services/FileAnalyzer.cs:157-175 | After the pass, the same entries come first in their groups |
| DuplicateDetector.DataCsvScenario | Services/FileAnalyzer.cs:157-175 | Of `data.csv` and `Data.csv`, the one written yesterday keeps even `DoNotDelete`; the one ten days old becomes `BeCareful` with the sentence appended |
| DirectoryWalker.ReadEntry | Services/FileAnalyzer.cs:92-104 | Name, path, length, extension and write time come from the file; the access time is dropped exactly when it is `MinValue` or `MaxValue` |
| DirectoryWalker.Inspect | Services/FileAnalyzer.cs:92-106 | The entry added for a readable file has the file's metadata and a classifier verdict |
| DirectoryWalker.InspectAll | Services/FileAnalyzer.cs:83-106 | Built one file at a time, the loop's entries are exactly one inspected entry per file, in the listing's order |
| DirectoryWalker.Readable | Services/FileAnalyzer.cs:83-120 | Only files whose metadata can be read remain, and every one of them remains, as often as it occurs in the listing |
| DirectoryWalker.ReadableAppend | Services/FileAnalyzer.cs:83-120 | Filtering a listing in two parts gives the filtered parts in order, so the readable files keep their listing order |
| DirectoryWalker.ReadOne | Services/FileAnalyzer.cs:85-119 | One file iteration: stop at a cancelled poll, emit the entry of a readable file, skip a caught failure, and let an uncaught exception escape, all as the event interpreter does |
| DirectoryWalker.ReadFiles | Services/FileAnalyzer.cs:83-120 | The file loop computes what the interpreter does on the directory's file events: entries emitted, early stop on cancellation, or the escaping exception |
| DirectoryWalker.Run | Services/FileAnalyzer.cs:45-121 | The interpreter of the walk's events never returns more entries than there are events, and it fails only with an exception that one of the events raises |
| DirectoryWalker.RunReportsEvents | Services/FileAnalyzer.cs:45-121 | Every entry returned was emitted by an event; with no cancellation and no escaping exception the run succeeds |
| DirectoryWalker.Walk | Services/FileAnalyzer.cs:38-121 | The stack loop equals the interpreter on the tree's events; without cancellation on a tree whose failures are all caught, it returns one inspected entry per collected file |
| DirectoryWalker.RunAppend | Services/FileAnalyzer.cs:45-121 | Without cancellation, running two event lists in sequence is running the first, then the second; a failure stops it |
| DirectoryWalker.WalkOfTolerableTree | Services/FileAnalyzer.cs:45-121 | A tree whose failures are all caught is walked to success, emitting the collected files in order |
| DirectoryWalker.EveryFileOnce | Services/FileAnalyzer.cs:45-121 | With no failures and no cancellation, the walk succeeds and collects every file of the tree as often as it occurs |
| DirectoryWalker.CollectsEveryFile | Services/FileAnalyzer.cs:52-58 | With no failures, the collected files are a permutation of the tree's files |
| DirectoryWalker.SubdirListingFailureLosesSubtree | Services/FileAnalyzer.cs:53-67 | A directory whose subdirectories cannot be listed contributes only its poll and no files |
| DirectoryWalker.FileListingFailureKeepsSubdirs | Services/FileAnalyzer.cs:69-81 | A directory whose files cannot be listed still has its subdirectories walked |
| DirectoryWalker.SubdirectoryStillCollected | Services/FileAnalyzer.cs:55-58 | Every file a listed subdirectory collects is also collected by its parent |
| DirectoryWalker.OneUnreadableSubdirectory | Services/FileAnalyzer.cs:53-67 | With one access-denied subdirectory among fault-free ones, the walk succeeds, skips that subtree and collects every file of the others |
| DirectoryWalker.CancellationYieldsPrefix | Services/FileAnalyzer.cs:47-50 | Cancelling never turns a success into a failure, and the entries are a prefix of the uncancelled run's |
| DirectoryWalker.CancelledBeforeStart | Services/FileAnalyzer.cs:47-50 | A token cancelled before the first poll yields an empty result |
| FileAnalyzer.RunClassified | Services/FileAnalyzer.cs:105-106 | Every entry the walk returns has been classified |
| FileAnalyzer.AnalyzeFolder | Services/FileAnalyzer.cs:38-125 | Fails exactly when the walk does, with the same exception; otherwise returns the walk's entries after the duplicate pass, each classified or downgraded and with a non-empty reason |
| FileAnalyzer.EnrichedJudged | Services/FileAnalyzer.cs:157-175 | After the duplicate pass over classified entries, every entry carries a category with a matching reason, and no reason is empty |
| FileAnalyzer.AnalyzeFolderAsync | Services/FileAnalyzer.cs:28-36 | A blank root, and only a blank root, gives the argument error before any walking; otherwise as `AnalyzeFolder` |
| FileAnalyzer.AnalysisCoversEveryFile | Services/FileAnalyzer.cs:38-125 | With no failures, the result has one entry per file of the tree, each carrying that file's metadata |
| Csv.Escape | ViewModels/MainViewModel.cs:128-129 | Doubling quotes never shortens a field and leaves a field without specials unchanged |
| Csv.Quote | ViewModels/MainViewModel.cs:128-129 | A quoted field starts and ends with a quote |
| Csv.QuotedRoundTrip | ViewModels/MainViewModel.cs:128-129 | Reading a doubled-quote field back gives the original text and stops at its closing quote |
| Csv.JoinParses | ViewModels/MainViewModel.cs:126 | Non-empty fields without commas or quotes, joined by commas, read back as exactly those fields |
| Csv.HeaderParses | ViewModels/MainViewModel.cs:126 | The header reads back as the five column names |
| Csv.ReportLine | ViewModels/MainViewModel.cs:127-129 | A report line reads back as exactly five fields: name, size, access date, label and reason |
| Csv.Report | ViewModels/MainViewModel.cs:126-129 | The report has one line more than there are shown entries, and its first line is the header |
| Csv.ReportLineDecodes | ViewModels/MainViewModel.cs:127-129 | The size, category, reason, name and presence of an access time can all be recovered from the line |
| Csv.ReportLineInjective | ViewModels/MainViewModel.cs:127-129 | Entries with the same line agree on name, size, category, reason and whether an access time exists |
| Csv.ReportLayout | ViewModels/MainViewModel.cs:126-129 | The report is the header followed by one line per shown entry, in order |
| Csv.ReportParses | ViewModels/MainViewModel.cs:126-129 | Every report line is a well-formed record with as many fields as the header |
| Csv.QuoteSample | ViewModels/MainViewModel.cs:128 | A quote in a name is doubled in the line and single again when read back |
| MainViewModel.BuildSummary | ViewModels/MainViewModel.cs:142-149 | The three counts are the numbers of entries of each category, and they add up to the number of entries |
| MainViewModel.CountOf | ViewModels/MainViewModel.cs:144-146 | A count never exceeds the number of entries; it is zero exactly when no entry has the category, and the full length exactly when every entry has it |
| MainViewModel.CountsAddUp | ViewModels/MainViewModel.cs:144-146 | Every entry is counted in exactly one category |
| MainViewModel.CountOfPermutation | ViewModels/MainViewModel.cs:144-146 | The counts depend only on which entries are shown, not their order |
| MainViewModel.CountOfRemove | ViewModels/MainViewModel.cs:144-146 | Removing one entry lowers its own category's count by one and leaves the others |
| MainViewModel.SummaryText | ViewModels/MainViewModel.cs:148 | The three counts can be read back from the summary line |
| MainViewModel.SummaryTextInjective | ViewModels/MainViewModel.cs:148 | Different counts give different summary lines |
| MainViewModel.SortBySizeDescending | ViewModels/MainViewModel.cs:92 | The shown order is a permutation of the results, non-increasing in size |
| MainViewModel.SortIsStable | ViewModels/MainViewModel.cs:92 | Entries of equal size keep their relative order |
| MainViewModel.SortKeepsSummary | ViewModels/MainViewModel.cs:91-97 | Reordering the results does not change the summary |
| MainViewModel.Initial | ViewModels/MainViewModel.cs:22-27 | A new view model has no results, no folder, no status, is not analyzing, and shows "Select a folder to begin analyzing." |
| MainViewModel.AnalyzeFolder | ViewModels/MainViewModel.cs:76-109 | A blank folder changes nothing. Otherwise the folder is recorded and analysis ends. On success the results are replaced by a stable largest-first permutation of the analyzer's results, with their summary and the "Packed" status. On failure results and summary stay and the status reports the failure |
| MainViewModel.ExportReport | ViewModels/MainViewModel.cs:111-133 | Without a usable target nothing changes; otherwise the header plus one line per shown entry is written and the status names the target |
| MainViewModel.SetProperty | ViewModels/MainViewModel.cs:157-179 | The field ends up holding the value; it reports a change exactly when the value differs; one notification is raised exactly when it changed and a name is given |
| MainViewModel.SetPropertyTwice | ViewModels/MainViewModel.cs:157-167 | Setting the same value again reports no change and raises nothing |

## Left out

- Filesystem access (`Directory.GetDirectories`, `Directory.GetFiles`,
  `FileInfo`) is replaced by an input tree. `FileInfo`'s derivation of `Name`
  and `Extension` from a path is therefore not modelled: they are fields of
  the file.
- `FileInfo.LastAccessTime` is read twice in the source, once for the check
  and once for the value. The model reads it once, as a file whose metadata
  does not change during the walk.
- `DateTime.Now` is a parameter. Local-time conversion and time zones are
  not modelled.
- `Task.Run`, `async`/`await` and the `CancellationToken` mechanics are not
  modelled. Cancellation is the polling oracle described above. The view
  model passes no token, so its analysis is uncancelled.
- FileAnalyzer.AnalyzeFolderAsync: with a token that is already cancelled,
  `Task.Run` never starts the walk and the returned task is cancelled. The
  model runs the walk, whose first poll stops it, and gives `Success([])`
  instead of a cancelled task.
- Exceptions are values. A failed view-model analysis takes the exception's
  message as a parameter.
- Models.ByteSizeDescription: the KB, MB and GB texts of `SizeDescription`
  format a `double` with one decimal (`F1`). Floating-point rendering is not
  modelled; only the unit choice and the exact bytes text are.
- Text.FoldIdempotent: case-insensitive comparison folds ASCII letters only.
  `OrdinalIgnoreCase` also folds non-ASCII letters, which is not modelled.
- Clock.DateOf: the days-to-date conversion is proved to give a year in
  1..9999, a month in 1..12 and a day in 1..31, and is checked at three
  concrete dates. It is not proved correct against the Gregorian calendar for
  every day, and days beyond a month's length are not excluded.
- Clock.DateText: `ToString("yyyy-MM-dd")` formats with the current
  culture's calendar. Under a culture such as th-TH, with the Thai Buddhist
  calendar, the year differs. The model always uses the Gregorian calendar.
- DirectoryWalker.EveryFileOnce: directory links and cycles (junctions,
  symbolic links) are outside the model, whose filesystem is a finite tree.
  The source keeps no set of visited directories and pushes whatever
  `GetDirectories` returns (Services/FileAnalyzer.cs:55-58), so a link back
  to an ancestor repeats files until the path grows too long. The "every
  file once" promise holds only for link-free trees, and so does
  FileAnalyzer.AnalysisCoversEveryFile.
- The dialogs (`FolderBrowserDialog`, `SaveFileDialog`), `PickFolderAsync`,
  commands, `CanExecute` and `RaiseCommandCanExecute` are user-interface code
  outside the model.
- `File.WriteAllLinesAsync` is not modelled: `ExportReport` returns the lines
  it would write. A failing write, which would propagate out of the command,
  is not modelled.
- MainViewModel.AnalyzeFolder: the "Scanning, please wait..." status and the
  summary recomputed after each single `Add` to the collection are
  intermediate states. The model states only the final state.
- `PropertyChanged` events, including the `HasResults` notification on each
  collection change, are modelled only through `SetProperty`'s list of raised
  notifications.
- `SizeInBytes` is a 64-bit `long`. `FileInfo.Length` never exceeds its
  range, so no wrap-around arises and none is modelled.

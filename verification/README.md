# EPV test orchestration and event-name rule, in Dafny

This project models two pieces of the phpBB Extension Pre Validator (EPV):

- **The test runner** (`TestRunner`). It is built in three steps:
  - it derives the extension's base directory from the single `ext.php` it finds;
  - it loads the rule classes (`epv_test_*.php`), stopping at the first class that does not implement `TestInterface`, which aborts construction;
  - it reads the extension's files into memory, together with a listing of their paths.

  `runTests` then calls the rules in a fixed order:
  - first `validateDirectory` on every rule that asks for the directory listing;
  - then, file by file, `validateFile` on the rules that want that file type;
  - then, line by line, `validateLine` on the rules that want that file type's lines.

  The run is modelled as a pure function that returns the trace of invocations (`Dir`, `File`, `Line`). Its specification is a membership predicate (`Expected`) plus a strict order (`Before`). `RunTests` returns exactly the expected invocations, in that order. Any ordered sequence of exactly those invocations is that same trace (`TraceIsDeterminedBySpecification`).
- **The event-name rule** (`epv_test_validate_event_names::validateDirectory`). It works in four steps:
  - it hands every `.php` entry of the listing to the event extractor, and the first extraction failure ends the crawl;
  - on a failure it declares one progress unit and reports a FATAL;
  - it declares two progress units per collected event;
  - it checks every event twice: once against the reserved `phpbb` / `core` prefixes, and once against the extension's own `vendor.namespace` prefix. Each check yields a message or a pass tick.

  The rule's output is modelled as an append-only sequence of progress declarations, messages and pass ticks. `ProgressBalances` proves that the declared units equal the units emitted.

The PHP built-ins the code relies on are modelled in `PhpStrings`:
- `str_replace`: a single left-to-right pass over non-overlapping matches. An empty search string leaves the subject unchanged.
- `strtolower`: ASCII only.
- `substr`: the prefix and suffix forms used here.
- `basename`.

Files: `wrappers.dfy` (Option/Result), `php_strings.dfy`, `test_runner.dfy` (the run), `test_runner_setup.dfy` (construction), `event_names.dfy` (the event-name rule).

### Behaviour worth noting

- The base directory is the path of `ext.php` with every occurrence of `ext.php` removed. It is the marker's directory only when `ext.php` occurs nowhere else in the path; `BasedirIsMarkerDirectory` states that case.
- `runTests` has no `try`/`catch` around rule calls, so an exception thrown by a rule propagates out of the run. The model has no rule failures at all.
- In `validateDirectory` the `try` encloses the whole crawl loop, so the first extraction failure stops the crawl of every later file.
- The empty-rule-set check happens in `runTests`, after the constructor has already loaded the files.
- `TestRunner.php` (namespace `epv\Tests`) constructs rules with three arguments. `epv_test_validate_event_names.php` (namespace `Phpbb\Epv\Tests\Tests`) declares a five-argument constructor that also takes the extension's namespace. The model takes that namespace as a parameter of `ValidateDirectory`.

## Model

| member | source | states |
|---|---|---|
| TestRunner.RunTests | src/epv/Tests/TestRunner.php:54-110 | With no rules the run fails with "not initialised" and makes no call. Otherwise the trace holds exactly the expected directory, file and line invocations, each ordered by phase, file, line number and rule position. |
| TestRunner.TraceIsDeterminedBySpecification | src/epv/Tests/TestRunner.php:65-109 | Any ordered sequence of exactly the expected invocations equals the trace `runTests` produces, so the ordering promise fixes the trace completely. |
| TestRunner.OrderedEnumerationUnique | src/epv/Tests/TestRunner.php:65-109 | Two traces ordered by the runner's order that hold the same invocations are identical. |
| TestRunner.OrderedHoldsOnce | src/epv/Tests/TestRunner.php:65-109 | In an ordered trace each invocation occurs at most once. |
| TestRunner.PhasesInOrder | src/epv/Tests/TestRunner.php:62-108 | The phases are ordered: every directory call precedes all file and line calls, and files are visited in list order. A file's line calls come after that file's file calls and before the next file's. |
| TestRunner.DirectoryCalledOnce | src/epv/Tests/TestRunner.php:65-71 | A rule that asks for the directory receives the full listing exactly once. A rule that does not ask is never called in that phase. |
| TestRunner.DirPhase | src/epv/Tests/TestRunner.php:65-71 | The directory loop calls, in rule order, exactly the rules whose `doValidateDirectory()` holds, each with the listing. |
| TestRunner.FileCalls | src/epv/Tests/TestRunner.php:81-87 | For one file, `validateFile` goes, in rule order, to exactly the rules whose `doValidateFile(type)` holds. |
| TestRunner.LineSubscribers | src/epv/Tests/TestRunner.php:88-94 | The line subscribers of a file are exactly the rules whose `doValidateLine(type)` holds, listed in increasing rule position. |
| TestRunner.LineCalls | src/epv/Tests/TestRunner.php:101-105 | One line is handed, with its number and text, to every subscriber in subscriber order. |
| TestRunner.LinesPhase | src/epv/Tests/TestRunner.php:96-107 | The line loop numbers the lines from 1, and line k carries the file's k-th text. Each line goes to every subscriber, in line order then subscriber order. With no subscriber there is no line call. |
| TestRunner.FileStep | src/epv/Tests/TestRunner.php:77-108 | One file's invocations are its file calls followed by its line calls, ordered, and they are exactly that file's expected invocations. |
| TestRunner.FilesPhase | src/epv/Tests/TestRunner.php:77-109 | The file loop makes exactly the expected file and line invocations for the files from a position on, file by file, in order. |
| TestRunner.LinesReceived | src/epv/Tests/TestRunner.php:99-107 | Selecting one rule's line calls for one file keeps exactly those calls. |
| TestRunner.LinesReceivedOrdered | src/epv/Tests/TestRunner.php:99-107 | The selection keeps the order the calls have in an ordered trace. |
| TestRunner.NumberedLines | src/epv/Tests/TestRunner.php:98-106 | The numbered lines 1..N of a file, line k carrying the k-th text, form an ordered sequence holding exactly those line calls. |
| TestRunner.LinesDeliveredInOrder | src/epv/Tests/TestRunner.php:96-107 | A rule that wants a file's lines receives all of them, numbered 1..N in ascending order, line k carrying the file's k-th line. |
| TestRunnerSetup.SetBasedir | src/epv/Tests/TestRunner.php:116-137 | Construction fails with the "cannot find ext.php" error exactly when the number of `ext.php` matches is not one, and the base directory is never longer than the marker's path. What the base directory is comes from `BasedirIsMarkerDirectory`, `BasedirRemovesEveryMarker` and `BasedirOfRepeatedMarker`. |
| TestRunnerSetup.BasedirRemovesEveryMarker | src/epv/Tests/TestRunner.php:136 | Every `ext.php` in the path is removed: the part before the first occurrence is kept, and the part after it loses its own occurrences. |
| TestRunnerSetup.BasedirOfRepeatedMarker | src/epv/Tests/TestRunner.php:136 | `/x/ext.php/ext.php` yields the base directory `/x//`: a directory named `ext.php` loses its name too. |
| TestRunnerSetup.BasedirIsMarkerDirectory | src/epv/Tests/TestRunner.php:136 | When `ext.php` occurs in its path only as the file name, the base directory is exactly the directory part. |
| TestRunnerSetup.ReadablePaths | src/epv/Tests/TestRunner.php:157-166 | A path is kept exactly when some entry resolves to it, so unreadable entries are dropped. There are at most as many paths as entries. When every entry is readable, the paths are the entries' real paths, one per entry, in walk order. |
| TestRunnerSetup.ReadablePathsAppend | src/epv/Tests/TestRunner.php:157-166 | The readable paths of a walk split in two are those of the first part followed by those of the second. With the single-entry case of the definition, the kept paths are the readable entries' real paths in walk order. |
| TestRunnerSetup.ListingEntry | src/epv/Tests/TestRunner.php:167 | The listing entry of a file is its real path with every copy of the root removed. Its meaning is carried by `ListingEntryOfFileUnderRoot` and `ListingEntryRemovesEveryRoot`. |
| TestRunnerSetup.LoadFiles | src/epv/Tests/TestRunner.php:142-169 | Unreadable entries are counted and skipped. `files` and `dirList` have the same length and line up position by position with the readable paths: each file is that path loaded, and each listing entry is that path with the root removed. |
| TestRunnerSetup.ListingEntryOfFileUnderRoot | src/epv/Tests/TestRunner.php:167 | A file at root + rest is listed as rest, provided the root string does not occur again in rest. |
| TestRunnerSetup.ListingEntryRemovesEveryRoot | src/epv/Tests/TestRunner.php:167 | Every copy of the root in a real path is removed: the part before the first copy is kept, and the part after it loses its own copies. |
| TestRunnerSetup.ClassName | src/epv/Tests/TestRunner.php:199-201 | The class a test file names: the rule namespace, then the file's base name with `.php` removed. Its contract lives in `ClassNameOfTestFile`. |
| TestRunnerSetup.ClassNameOfTestFile | src/epv/Tests/TestRunner.php:199-201 | The test file `dir/stem.php` names the class `\epv\Tests\Tests\stem`. |
| TestRunnerSetup.TryToLoadTest | src/epv/Tests/TestRunner.php:196-211 | A test loads exactly when the instantiated class implements the test interface, and yields that object. Otherwise the error names the class. |
| TestRunnerSetup.LoadTests | src/epv/Tests/TestRunner.php:174-189 | Loading succeeds exactly when every class conforms, giving one rule per test file in file order. A failure names the first non-conforming class. |
| TestRunnerSetup.Construct | src/epv/Tests/TestRunner.php:37-47 | The constructor works in three steps: base directory, then rules, then files. A bad `ext.php` count stops it first. A non-conforming class stops it before any file is read, and the error names the first such class. On success every field is as the three steps define it. |
| EventNames.IsPhpFile | src/Tests/Tests/epv_test_validate_event_names.php:36 | The `.php` test on a listing entry: its last four characters are `.php`. `PhpFilesOfOne` ties it to the crawl, and `TailIsSuffixTest` shows it is exactly "ends with `.php`". |
| EventNames.PhpFiles | src/Tests/Tests/epv_test_validate_event_names.php:34-39 | Exactly the listing entries ending in `.php` are crawled. |
| EventNames.PhpFilesAppend | src/Tests/Tests/epv_test_validate_event_names.php:34-39 | Filtering a listing split in two is filtering each part in turn. Together with `PhpFilesOfOne`, the crawled files are the `.php` entries in listing order, each as often as it is listed. |
| EventNames.PhpFilesOfOne | src/Tests/Tests/epv_test_validate_event_names.php:36-39 | A single entry is crawled exactly when its last four characters are `.php`. |
| EventNames.Collected | src/Tests/Tests/epv_test_validate_event_names.php:38-47 | The events the extractor holds after the visited files: each file's events in visit order, including those a failing file had already recorded. It is pinned to the crawl by the `CrawlList` and `CrawlFiles` contracts. |
| EventNames.CrawlList | src/Tests/Tests/epv_test_validate_event_names.php:32-46 | Files go to the extractor in order, and the crawl stops at the first failure. Every visited file except a failing last one was extracted, and the collected events are those of the visited files in order. |
| EventNames.CrawlFiles | src/Tests/Tests/epv_test_validate_event_names.php:32-46 | The crawl visits a prefix of the listing's PHP files: all of them without a failure, or up to and including the first failing file. The events collected so far are kept. |
| EventNames.CrawlFailsIffSomeFileFails | src/Tests/Tests/epv_test_validate_event_names.php:32-46 | The crawl reports a failure exactly when some PHP file of the listing cannot be extracted. |
| EventNames.Vendor | src/Tests/Tests/epv_test_validate_event_names.php:49 | The vendor prefix is the namespace with every `/` replaced by `.`, all else unchanged. |
| EventNames.ReservedCheck | src/Tests/Tests/epv_test_validate_event_names.php:53-64 | The reserved-prefix check of one event. It is characterised against a character-by-character case-insensitive prefix test by `ReservedCheckClassifies`. |
| EventNames.VendorCheck | src/Tests/Tests/epv_test_validate_event_names.php:65-72 | The vendor-prefix check of one event. It is characterised by `VendorCheckClassifies` and `UppercaseVendorAlwaysWarns`. |
| EventNames.ReservedCheckClassifies | src/Tests/Tests/epv_test_validate_event_names.php:53-64 | Each event gets exactly one reserved-prefix output. It is ERROR iff the name starts with `phpbb` in any case. It is FATAL iff the name does not, but starts with `core` in any case. Otherwise it is a pass tick. |
| EventNames.VendorCheckClassifies | src/Tests/Tests/epv_test_validate_event_names.php:65-72 | Each event gets a WARNING iff its name does not start with the vendor prefix, ignoring the case of the name only, and a pass tick otherwise. |
| EventNames.UppercaseVendorAlwaysWarns | src/Tests/Tests/epv_test_validate_event_names.php:65 | Since the vendor prefix itself is not lower-cased, a namespace with an upper-case letter makes every event draw the warning. |
| EventNames.EventChecks | src/Tests/Tests/epv_test_validate_event_names.php:51-73 | The event loop emits exactly two outputs per event and declares no progress; `EventChecksInOrder` fixes which outputs. |
| EventNames.EventChecksInOrder | src/Tests/Tests/epv_test_validate_event_names.php:51-73 | Event i yields outputs 2i and 2i+1: its reserved-prefix result, then its vendor-prefix result. The two checks are thus independent and events are processed in extractor order. |
| EventNames.ValidateDirectory | src/Tests/Tests/epv_test_validate_event_names.php:28-74 | A crawl failure first adds one progress unit and one FATAL naming the failing file. Then 2 × (collected events) units are declared before any per-event output, and every collected event is checked, failure or not. |
| EventNames.EventChecksCount | src/Tests/Tests/epv_test_validate_event_names.php:51-73 | The event checks declare no progress and emit exactly two units per event. |
| EventNames.ProgressBalances | src/Tests/Tests/epv_test_validate_event_names.php:44-72 | The progress the rule declares equals the number of messages and pass ticks it emits, with or without a crawl failure. |
| EventNames.OfficialVendorEvent | src/Tests/Tests/epv_test_validate_event_names.php:53-67 | `phpbbFoo` in namespace `acme/demo` draws one ERROR and one WARNING. |
| EventNames.CoreEvent | src/Tests/Tests/epv_test_validate_event_names.php:57-59 | `core.foo` draws one FATAL from the reserved-prefix check. |
| EventNames.AcmeDemoVendor | src/Tests/Tests/epv_test_validate_event_names.php:49 | Namespace `acme/demo` gives the vendor prefix `acme.demo`. |
| EventNames.CompliantEvent | src/Tests/Tests/epv_test_validate_event_names.php:61-71 | `acme.demo.widget.created` in namespace `acme/demo` draws two pass ticks and no message. |
| EventNames.NotReserved | src/Tests/Tests/epv_test_validate_event_names.php:53-64 | A name whose first character, lower-cased, is neither `p` nor `c` passes the reserved-prefix check. |
| PhpStrings.ReplaceAll | src/epv/Tests/TestRunner.php:136 | `str_replace` with one search string, also used at lines 167 and 199 and for the vendor prefix. `ReplaceAllFirstOccurrence` and `ReplaceAllWithoutOccurrence` together fix it for every non-empty search string. `ReplaceAllSoleSuffix`, `ReplaceSingleChar` and `ReplaceAllShrinks` state the cases the code relies on. |
| PhpStrings.ReplaceAllFirstOccurrence | src/epv/Tests/TestRunner.php:136 | `str_replace` keeps the text before the first occurrence, replaces that occurrence, and carries on with the rest in the same way. |
| PhpStrings.ReplaceAllShrinks | src/epv/Tests/TestRunner.php:136 | Removing a search string never lengthens the subject. |
| PhpStrings.Lower | src/Tests/Tests/epv_test_validate_event_names.php:53 | `strtolower` keeps the length. Its character-by-character meaning is `LowerIsPointwise`. |
| PhpStrings.ReplaceAllWithoutOccurrence | src/epv/Tests/TestRunner.php:167 | `str_replace` leaves a subject in which the search string never occurs unchanged. |
| PhpStrings.ReplaceAllSoleSuffix | src/epv/Tests/TestRunner.php:136 | When the search string occurs only as the final part of the subject, `str_replace` swaps just that suffix. |
| PhpStrings.ReplaceSingleChar | src/Tests/Tests/epv_test_validate_event_names.php:49 | Replacing one character by another keeps the length and substitutes position by position. |
| PhpStrings.LowerIsPointwise | src/Tests/Tests/epv_test_validate_event_names.php:53 | `strtolower` works character by character and leaves no upper-case letter. Only upper-case letters change, each to its lower-case letter. |
| PhpStrings.Head | src/Tests/Tests/epv_test_validate_event_names.php:53 | `substr(s, 0, n)`, also used at lines 57 and 65, is the first n characters, or all of `s` when it is shorter. Its use as a case-insensitive prefix test is `LowerHeadIsPrefixTest`. |
| PhpStrings.Tail | src/Tests/Tests/epv_test_validate_event_names.php:36 | `substr(s, -n)` for n > 0 is the last n characters, or all of `s` when it is shorter. Its use as a suffix test is `TailIsSuffixTest`. |
| PhpStrings.LowerHeadIsPrefixTest | src/Tests/Tests/epv_test_validate_event_names.php:53 | `strtolower(substr(s, 0, strlen(t))) == t` holds exactly when `s` is at least as long as `t` and each of its first `strlen(t)` characters, lower-cased, equals the character of `t` at that position. |
| PhpStrings.TailIsSuffixTest | src/Tests/Tests/epv_test_validate_event_names.php:36 | For a non-empty `t`, `substr(s, -strlen(t)) === t` holds exactly when `s` ends with `t`. |
| PhpStrings.ComponentStart | src/epv/Tests/TestRunner.php:199 | The last path component starts just after the last `/`, or at 0, and holds no `/`. |
| PhpStrings.Basename | src/epv/Tests/TestRunner.php:199 | `basename(p)` is the part of `p` after its last `/`. Its meaning is carried by `ComponentStart` and `BasenameAfterSlash`. |
| PhpStrings.BasenameAfterSlash | src/epv/Tests/TestRunner.php:199 | `basename(dir/name)` is `name` when `name` holds no `/`. |

## Left out

- Symfony `Finder` traversal (name filters, sorting, VCS and dot-file handling): file-system I/O. Its results are parameters: the list of `ext.php` matches, the list of test files, and the list of found entries, each with an optional real path.
- Console output (`writeln`, `writelnIfDebug`, `write`, the "Running tests" line and the unreadable-file notice): side-effecting I/O. `LoadFiles` returns the number of skipped entries instead of printing a notice for each.
- Dynamic instantiation `new $class(...)` and `instanceof TestInterface`: runtime reflection. They are the parameter `instantiate`, which maps a class name and base directory to a rule and an "implements the interface" flag.
- `FileLoader::loadFile`, `Line` and `php_exporter` are not part of this model. A loaded file is its type and its lines (the parameter `load`). The extractor is a per-file oracle that returns events, or a failure together with the events it had already recorded.
- The bodies of the rules' `validateDirectory`, `validateFile` and `validateLine`, except the event-name rule's: the runner is modelled only by the calls it makes. Exceptions thrown by rules, which the runner does not catch, are not modelled.
- The rule's constructor and the `BaseTest` capability probes: a rule is its capability predicates, taken as given sets of file types.
- EventNames.CrawlFiles: `ExtractionFailed` stands for a `\LogicException` from `crawl_php_file`, the only exception the rule catches. Any other exception escapes `validateDirectory` and, since `runTests` catches nothing, ends the whole run; that path is not modelled.
- TestRunnerSetup.SetBasedir: the error for a wrong number of `ext.php` files is one error, `ExtNotFound`, for zero and for several matches alike, as in the source; its message text is not modelled.
- PhpStrings.Tail: `substr(s, -n)` is modelled for n > 0 only; `substr(s, -0)` returns the whole string, and the code never asks for it.
- Message wording and `sprintf` formatting: a message is a severity, a file and an event. The crawl-failure FATAL carries the failing file in place of the exception text.
- EventNames.VendorCheck: PHP's loose `!=` compares two numeric strings as numbers. The model compares strings exactly, which differs only when both the name's prefix and the vendor are numeric strings.
- PhpStrings.Lower: `strtolower` is modelled for ASCII letters only, as in PHP 8.2 and later. Locale-dependent lowering of other bytes is not modelled, and strings are sequences of characters, not bytes.
- PhpStrings.Basename: `basename` is modelled as the part after the last `/`. Trailing slashes and the suffix argument are not handled.
- The `$debug` flag and the `$fl` path built for unreadable files: they only affect console output.

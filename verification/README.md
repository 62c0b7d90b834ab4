# sipnab: verified models of the release and analysis tooling

This project models the algorithmic core of sipnab's tooling in Dafny 4.11 and proves what that tooling
promises. Each module follows one script or source file:

* the pcapng rewriter that adds a missing timestamp resolution to capture files
  (draft-ietf-opsawg-pcapng, sections 3.1, 3.5, 4.1 and 4.2), in either byte order;
* the Rust scanner behind the `unwrap` gate, and its brace-depth stack of test exemptions;
* the two schedulers that split feature combinations and test targets over CI runners, the merge of
  sharded test runs, and the counter that reads the merged output back;
* the feature-dependency walk, the cfg reader beside it, and the crate publisher;
* the Markdown fence scanners and the substitution that leaves code alone;
* the Rust comment blanker, bracket matcher and table rewriter behind the "Since" column;
* panic containment in `src/crash.rs`, over every interleaving of threads;
* the scan for codebook table values, and the Internet checksum (RFC 1071; section 3.1 of RFC 791).

A loop in the source is a method with its invariants here, proved equal to a specification function or
predicate; the theorems are then lemmas about that specification. Where an object is updated in place
(the feature walk's visited set, the topological sorter, the crate registry, the panic runtime) the model
is a class. Answers of the outside world (registry statuses, exit codes, test reports, Python's
`str.isalnum`, a pattern's substitution) are parameters, so each theorem holds for all of them.

`dafny verify dfyconfig.toml` checks the whole project.

## What is proved, in short

* Repairing a capture preserves its blocks and their order, changes exactly the interfaces it may, is
  idempotent, leaves every eligible interface with a stated resolution, and moves every declared section
  length exactly with its section; which files are repaired at all is decided on their bytes.
* The jump-ahead Rust scanner equals an automaton that reads one character at a time, and what it keeps of a
  line is what its tokens, each given by its form, leave of it; over a whole file the count it carries is the
  nesting of the open comment, and a line is exempt exactly when it lies in a test item.
* Heaviest-first placement is within 4/3 - 1/(3m) of any other split; the shard split is optimal; a merge
  accepts exactly the complete runs; what is counted from merged shards is what is counted from one unsharded
  run: its passed tests, unless a test fails or has a path that starts with `result`, which refuses the count.
* The dependency walk ends on cyclic tables with exactly the reachable crates; for every condition, `not`
  included, it is decided whether a clean report means that each build compiling the module has its imports.
* Every upload of every release run, stopped runs included, starts with all its dependencies held.
* Comment blanking and the table rewrite are fixpoints that change only what they say they change, and all of
  it: the comment tokens of the source, and the headers, rules and sound rows of the flag tables.
* What opens and closes a fence, separates arguments, cells, words and fields, or is a line, is in each case
  decided by an if-and-only-if on the text.
* Over every interleaving, a panic inside a scope reaches the innermost scope of its own thread, a panic
  outside ends the process, depths are restored, and no panic is lost from the count.

## Where the code and its documentation differ

The model follows the code. For each difference the lemmas named say when the documented behaviour holds.

* The feature split is documented to depend only on the set of combinations. That holds exactly when no two
  different listed combinations share features and weight (`PartitionForgetsOrderIff`); any two that do come
  out in the order listed (`PartitionKeepsOrderOfTwins`). Accepted files never list such a pair
  (`CombosDiffer`, `SplitIgnoresLineOrder`).
* The test counter is documented to read one line per test binary. The line of a passing test at the root of
  an integration test whose name starts with `result` is taken for one too, cannot be read, and makes the
  counter refuse the whole run (`CountByNames`, `CountRefusesResultTest`).
* The merge is documented to find nothing wrong with a complete run. A target called
  `<lib, bins and doctests>` would make even a complete run unacceptable (`ReportedRunAccepted`,
  `ReservedNameIsRefused`). The script does not check for that name; it relies on cargo, which gives no test
  target a name that is not a crate name.
* The cfg reader is documented to fall back to the strict reading for shapes it does not recognise. A `not`
  inside an `all` is read permissively; `AlternativesCoverIff` says for every condition whether its reading
  covers the builds, and `NotIsMisread` shows one it misses.
* The comment blanker is documented to keep string literals. A raw string with more than six hashes, or with
  the `b` or `c` of a byte or C string before its `r`, is not noticed and is read as a plain string from its
  quote on (`RawStringReadIff`); with a backslash before its closing quote that string never ends
  (`ByteStringIsMisread`).

## Model

| member | source | states |
|---|---|---|
| `Bytes.ValueOfPut` | scripts/repair_pcapng_tsresol.py:59-64 | A number packed in either byte order reads back as itself whenever it fits the width. |
| `Bytes.PutOfValue` | scripts/repair_pcapng_tsresol.py:46-52 | Packing what was read gives the same bytes back, so reading and packing are inverse both ways. |
| `Bytes.OrdersMirror` | scripts/repair_pcapng_tsresol.py:46-52 | The two byte orders read the same bytes from opposite ends. |
| `Bytes.LittleOrder` | scripts/repair_pcapng_tsresol.py:46-52 | The little order gives each byte 256 times the weight of the byte before it. |
| `Pcapng.Options` | scripts/repair_pcapng_tsresol.py:41-56 | The option scan returns the options up to and including the end marker or the end of the area, and refuses exactly where an option runs past the area. |
| `PcapngAccepts.OptionsIff` | scripts/repair_pcapng_tsresol.py:41-56 | An option area is readable exactly when it is options written one after another, each filled up to a multiple of four, up to an end marker or its end; what is read is what is written. |
| `Pcapng.ParsedBlocksAreChained` | scripts/repair_pcapng_tsresol.py:114-144 | Every block an accepted stream is cut into has equal leading and trailing lengths, a multiple of 4, in its section's byte order; together the blocks are the stream. |
| `Pcapng.ChainedBlocksReparse` | scripts/repair_pcapng_tsresol.py:114-144 | Conversely, any sequence of such blocks is exactly what its own bytes are cut into. |
| `PcapngAccepts.BlocksIff` | scripts/repair_pcapng_tsresol.py:114-144 | So a stream is cut into these blocks exactly when they are framed so and joined are the stream. |
| `PcapngRepair.RepairInterface` | scripts/repair_pcapng_tsresol.py:155-186 | An interface block becomes what `RepairIdb` says, with its report line, or is refused; `RepairedIff`, `RepairNotes` and `RepairAcceptsIff` say on options and bytes which interfaces that changes, what is reported and what is refused. |
| `PcapngRepair.CutBlock` | scripts/repair_pcapng_tsresol.py:114-144 | The header and trailer checks cut off exactly the block the specification cuts off, or refuse. |
| `PcapngRepair.ReadSectionHeader` | scripts/repair_pcapng_tsresol.py:146-154 | A section header yields its declared length and whether sipnab wrote the section, and is refused when malformed. |
| `PcapngRepair.RepairBytes` | scripts/repair_pcapng_tsresol.py:92-192 | The single pass that appends, patches the section in progress and flushes it equals cutting the whole file into blocks, rewriting them backwards with their growth, and joining them; which blocks that changes is `RepairedIff`. |
| `PcapngChoice.RepairedIff` | scripts/repair_pcapng_tsresol.py:155-186 | Of the blocks that are no section headers a repair changes exactly the interfaces without a resolution option that are forced, or whose last section header before them has a first user-application option holding `sipnab` at some offset, or whose own first description does. |
| `PcapngChoice.RepairNotes` | scripts/repair_pcapng_tsresol.py:67-186 | The report lists exactly the interfaces, by number, that got the option, that lack it and may not be changed, and that were left with another resolution. |
| `PcapngAccepts.RepairAcceptsIff` | scripts/repair_pcapng_tsresol.py:92-192 | A file is repaired exactly when it has 28 bytes or more, starts with a section header, is framed blocks throughout, and each header and interface among them is well formed and has room for what is added. |
| `PcapngTheorems.SplicedOptions` | scripts/repair_pcapng_tsresol.py:67-89 | Reading the options after the splice gives the old options with the resolution among them, wherever the splice went in. |
| `PcapngTheorems.InsertedMeaning` | scripts/repair_pcapng_tsresol.py:67-89 | After insertion the first resolution option says nanoseconds, and every other option but the end marker reads as before. |
| `PcapngTheorems.RepairedIdb` | scripts/repair_pcapng_tsresol.py:67-89 | A repaired interface block is still one, 8 or 12 bytes longer with every old byte kept in front of or behind the insertion, states a resolution, and is left alone by a second repair. |
| `PcapngTheorems.RewriteLengths` | scripts/repair_pcapng_tsresol.py:107-112 | The growth tracked for a section is the growth of its bytes, and its declared length moves by as much. |
| `PcapngTheorems.RepairPreservesBlocks` | scripts/repair_pcapng_tsresol.py:92-192 | Same number, types and order of blocks; each byte-identical except a section header's 8-byte length and the bytes spliced into an interface that gained the option, padding and bytes behind an end marker included; the output is well framed again. |
| `PcapngTheorems.RepairIdempotent` | scripts/repair_pcapng_tsresol.py:92-192 | Whenever a repair succeeds, repairing its output succeeds, returns the same bytes, reports no change and no insertion. |
| `PcapngTheorems.RepairShowsResolution` | scripts/repair_pcapng_tsresol.py:67-192 | Every interface eligible in the output shows a resolution to the option reader. |
| `PcapngTheorems.RepairKeepsSectionLengths` | scripts/repair_pcapng_tsresol.py:107-112 | An unspecified section length stays unspecified; any other is right after exactly when it was right before, and otherwise off by as much. |
| `PcapngTheorems.RepairChangedIffInserted` | scripts/repair_pcapng_tsresol.py:174-192 | The result counts as changed exactly when some interface got the option, and then the file grew. |
| `RustLexer.CountHashes` | scripts/check-unwrap.py:169-189 | Reading backwards from a quote gives the number of hashes of the raw string it opens, or none; `RawHashesIff` says when. |
| `RustLexer.RawHashesIff` | scripts/check-unwrap.py:169-189 | A quote opens a raw string with n hashes exactly when `r`, `br` or `cr` and n hashes stand before it and are not the tail of a longer identifier. |
| `RustScan.SkipChar` | scripts/check-unwrap.py:236-246 | Scanning an escaped character literal to its closing quote does what the automaton does over the same characters; `TokenRuns` says where that is. |
| `RustScan.SkipString` | scripts/check-unwrap.py:252-262 | Scanning inside a string, escapes and the end of the line included, does what the automaton does. |
| `RustScan.RawRun` | scripts/check-unwrap.py:263-270 | The automaton leaves a raw string exactly where `find` finds the quote and hashes, and stays in it when there is none. |
| `RustScan.SkipBlock` | scripts/check-unwrap.py:271-283 | Scanning inside a nested block comment does what the automaton does, count included. |
| `RustScan.StripNoncode` | scripts/check-unwrap.py:192-284 | For every line and carried state the jump-ahead scanner keeps the same text and carries the same sound state as the one-character automaton, which `StripIff` gives a meaning on the text. |
| `RustTokens.TokenRuns` | scripts/check-unwrap.py:192-284 | From code, every token by its form - a plain character, a comment, a lifetime, a character literal, a string of units up to its first unescaped quote, a raw string, a nested block comment - is passed over whole, and what is never closed drops the rest of the line. |
| `RustTokens.StripIff` | scripts/check-unwrap.py:192-284 | For every line and carried state: the text kept is the plain characters among the tokens that tile the line, and the state carried is what the last token leaves open. |
| `RustFile.StripFile` | scripts/check-unwrap.py:313-316 | Folding the scanner over a file equals folding the automaton. |
| `RustFile.StatesValid` | scripts/check-unwrap.py:192-284 | After any line of any file, code and strings carry count 0 and an open comment is nested at least once. |
| `RustNesting.CarriedIsNesting` | scripts/check-unwrap.py:271-283 | A line that stays inside a comment adds its openings to the carried count and takes its closings away, whatever other slashes and stars stand in it. |
| `RustNesting.CodeAfterClosing` | scripts/check-unwrap.py:271-283 | The closing that takes the count to zero ends the comment, and the rest of the line is read as code. |
| `RustNesting.NestingIff` | scripts/check-unwrap.py:192-284 | At the end of any file a comment is open with count n exactly when a slash and star in code opened it on some line, the text since never closed it, and n is one more than the openings less the closings in that text. |
| `RustFile.StrippedLine` | scripts/check-unwrap.py:192-284 | In any file, what is kept of a line is the line with characters taken out, holds no double quote, and is the whole line when the line is plain code outside every literal. |
| `TestCfg.SplitLoop` | scripts/check-unwrap.py:153-165 | The loop returns the arguments that `SplitIff` finds in any text. |
| `TestCfg.CheckTestCfg` | scripts/check-unwrap.py:129-166 | The answer is the one that `TestCfgTextIff` gives for every line, with no overlap of the opening and the closing. |
| `TestCfgText.SplitIff` | scripts/check-unwrap.py:153-165 | For every text the arguments are, stripped, what stands between the commas before which as many parentheses close as open. |
| `TestCfgText.TestCfgTextIff` | scripts/check-unwrap.py:129-166 | For every line, condition or not: it is taken for a test attribute exactly when it is `#[cfg(...)]` around `test`, or around an `all` one of whose arguments is `test`. |
| `TestCfg.TestCfgIff` | scripts/check-unwrap.py:129-166 | For every condition over `all`, `any` and `not`, however spaced and nested, the line is taken for a test item exactly when the condition is `test` or an `all` with `test` as a direct argument. |
| `TestCfg.TestCfgIsSound` | scripts/check-unwrap.py:139-144 | Whenever the check says yes, the condition is false in every build without `test`. |
| `TestCfg.TestCfgIsNarrow` | scripts/check-unwrap.py:139-144 | The converse fails: `all(all(test))` needs `test` and is still scanned as production. |
| `TestScopes.ScanFile` | scripts/check-unwrap.py:309-348 | The loop over depth, stack and pending flag exempts exactly the lines that `ExemptIff` characterises, and ends at the depth the braces add up to. |
| `TestScopes.PopLoop` | scripts/check-unwrap.py:347-348 | The pop loop removes exactly the exemptions at or above the depth. |
| `TestScopes.AlwaysNested` | scripts/check-unwrap.py:309-348 | After every line of every file the exemption stack is strictly increasing and lies below the current depth. |
| `TestScopes.ExemptIff` | scripts/check-unwrap.py:309-348 | A line is exempt exactly when it is a one-line test item, or some test item opened at or before it and the braces have stayed deeper than where that item started; other items opening and closing in between make no difference. |
| `TestScopes.StartsItemIff` | scripts/check-unwrap.py:322-323 | A line starts an item exactly when, white space aside, it holds something that is no attribute. |
| `TestScopes.HasBodyIff` | scripts/check-unwrap.py:324-328 | An item has a body exactly when it is a module or its line opens more braces than it closes. |
| `ComboFile.ParseCombos` | scripts/check-feature-matrix.py:117-150 | The loop over the lines gives the combinations or the error that `CombosIff` and `CombosRefusedIff` characterise. |
| `ComboFile.ReadAnnotations` | scripts/check-feature-matrix.py:132-144 | The annotation loop gives the combination or the error that `AnnotationsIff` and `RefusedIff` characterise. |
| `ComboLines.UncommentedIff` | scripts/check-feature-matrix.py:127-127 | What is left of a line is the text before its first `#`. |
| `ComboLines.WordsIff` | scripts/check-feature-matrix.py:130-130 | A line comes apart at exactly its runs of white space. |
| `ComboLines.StripOfIff` | scripts/check-feature-matrix.py:131-131 | A quote is taken off both ends of the features as often as it stands there, and nowhere else. |
| `ComboLines.AnnotationsIff` | scripts/check-feature-matrix.py:132-144 | Annotations are accepted exactly when each is known and `lib` stands there once; the combination then has the suite, the library, the tests and the tools they name, in order. |
| `ComboLines.RefusedIff` | scripts/check-feature-matrix.py:135-144 | They are refused at the first word that is unknown or a second `lib`, with that word or that error. |
| `ComboLines.CombosIff` | scripts/check-feature-matrix.py:117-150 | A file is accepted exactly when its lines that are not blank list at least one combination, in this order, and none twice. |
| `ComboLines.CombosRefusedIff` | scripts/check-feature-matrix.py:117-150 | It is refused exactly for its first line that is refused, with the error and the number of that line, or because nothing is listed. |
| `ComboFile.CombosDiffer` | scripts/check-feature-matrix.py:145-149 | Every accepted file lists at least one combination and no features twice. |
| `ComboTheorems.FileRoundTrip` | scripts/check-feature-matrix.py:117-150 | A file written from distinct printable combinations parses back to exactly those, in order. |
| `ComboTheorems.SplitIgnoresLineOrder` | scripts/check-feature-matrix.py:163-198 | Two accepted files listing the same combinations in any order are split identically. |
| `FeatureMatrix.PartitionLoop` | scripts/check-feature-matrix.py:163-198 | Running groups and loads: heaviest first with names breaking ties, each to the least loaded capable group of lowest index; refused for no group, an unknown pool, a combination nothing can run, or an idle group. |
| `Sorting.BeforeIff` | scripts/check-feature-matrix.py:188-188 | In name order one string comes before another exactly when it is a proper beginning of it or has the smaller character where they first differ. |
| `FeatureMatrixTheorems.PartitionCovers` | scripts/check-feature-matrix.py:163-198 | Every combination is in exactly one group, as often as listed, on a pool that can run it, and no group is empty. |
| `FeatureMatrixTheorems.PartitionRespectsNeeds` | scripts/check-feature-matrix.py:106-111 | No group gets a combination whose tools its pool lacks, and none that tests a target, the library or the whole suite goes to a pool that cannot run tests. |
| `FeatureMatrixTheorems.CanRunIff` | scripts/check-feature-matrix.py:189-189 | Nothing but such a tool or such tests keeps a combination from a group. |
| `FeatureMatrixTheorems.WeightLaws` | scripts/check-feature-matrix.py:113-114 | A lint weighs one; each test target and the library add one, the suite eight. |
| `FeatureMatrixTheorems.PartitionListBound` | scripts/check-feature-matrix.py:188-194 | With every group able to run everything, m times a group's weight is at most the total plus m - 1 times the last combination put in it. |
| `FeatureMatrixTheorems.PartitionNearOptimal` | scripts/check-feature-matrix.py:188-194 | No group weighs more than 4/3 - 1/(3m) times the heaviest group of any other split of the same combinations. |
| `LoadBalancing.HeaviestFirstBound` | scripts/check-feature-matrix.py:188-194 | Graham's bound for the greedy rule on jobs in descending weight, against every placement within a limit. |
| `LoadBalancing.LargeJobsFit` | scripts/check-feature-matrix.py:188-194 | With every job over a third of a limit, greedy placement stays within the limit whenever any placement does. |
| `FeatureMatrixTheorems.PartitionAccepts` | scripts/check-feature-matrix.py:188-197 | With every group able to run everything, a list is refused exactly when it has fewer combinations than groups. |
| `FeatureMatrixTheorems.PartitionForgetsOrder` | scripts/check-feature-matrix.py:171-176 | Without two different listed combinations that share features and weight, any shuffle of the list is split identically, or refused identically. |
| `FeatureMatrixTheorems.PartitionForgetsOrderIff` | scripts/check-feature-matrix.py:171-176 | A list is split the same in every order, for all groups and pools, exactly when it has no such two. |
| `FeatureMatrixTheorems.PartitionKeepsOrderOfTwins` | scripts/check-feature-matrix.py:171-176 | Any two different combinations with equal features and weight, among any others, come out in the order listed on one group that can run everything. |
| `Shards.PartitionLoop` | scripts/parallel-tests.py:258-283 | Running shards and loads: the unit tests to shard 0, then each target in name order to the least loaded shard of lowest index; refused for a bad count, a repeated name or an idle shard. |
| `ShardTheorems.PartitionCovers` | scripts/parallel-tests.py:258-283 | Every target is in exactly one shard, the unit tests lead shard 0, and no shard is empty. |
| `ShardTheorems.PartitionOptimal` | scripts/parallel-tests.py:272-279 | No shard is above max(U, ceil((U + n) / count)), and one is at it. |
| `ShardTheorems.SomeShardAtOptimum` | scripts/parallel-tests.py:272-279 | Every other placement of the unit tests and the targets has a shard at or above that value, so the split is optimal. |
| `ShardTheorems.PartitionAccepts` | scripts/parallel-tests.py:268-283 | A list is accepted exactly when its names are distinct and there is enough to give every shard an item. |
| `ShardTheorems.PartitionForgetsOrder` | scripts/parallel-tests.py:258-283 | The shards depend only on the names, the count and the unit tests' weight. |
| `Shards.FindMergeProblems` | scripts/parallel-tests.py:288-321 | The tallying loops find every disagreement, every index not reported once and every target not run once, in the order the script reports them. |
| `ShardTheorems.ProblemIff` | scripts/parallel-tests.py:288-321 | Problem by problem: counts or target lists disagree exactly when two manifests do; a shard is reported with its number of manifests exactly when that is not one; and the sets of indices out of range and of targets never run, run twice or not listed are complete, and named only when not empty. |
| `ShardTheorems.MergeAcceptsIff` | scripts/parallel-tests.py:288-321 | No problem is found exactly when the manifests agree, carry each index from 0 to count - 1 once, and run each listed target exactly once. |
| `ShardTheorems.ReportedRunAccepted` | scripts/parallel-tests.py:445-455 | The manifests written by the shards of a split are accepted exactly when each shard reported once and no target bears the reserved name of the unit tests; a dropped or repeated shard is refused. |
| `ShardTheorems.ReservedNameIsRefused` | scripts/parallel-tests.py:240-242 | The one target `<lib, bins and doctests>` is split into one shard whose own manifest is then refused. |
| `TestCount.CountLoop` | scripts/published-test-count.py:40-59 | The passed columns of the result lines are added up; an unreadable line, a verdict other than ok, no result line or a zero total is refused. `PassedIff` says which lines those are. |
| `ResultLines.StripAnsiIff` | scripts/published-test-count.py:45-45 | Exactly the color codes, an escape character, a bracket, digits and semicolons and an `m`, are taken out of a line. |
| `ResultLines.FieldsIff` | scripts/published-test-count.py:48-48 | A line comes apart at exactly its runs of spaces and semicolons. |
| `ResultLines.PassedIff` | scripts/published-test-count.py:45-53 | A line counts n exactly when without its color codes it starts with `test result`, its third field is `ok.` and its fourth is n in digits; it is skipped exactly when it does not start so. |
| `TestReport.RenderSuite` | scripts/parallel-tests.py:177-225 | One test binary is printed as its heading, a line per test, the failures with their own output, and a result line with its counts. |
| `FailureBlocks.VerdictIff` | scripts/parallel-tests.py:184-200 | In the text of a binary a test is said to be ok, or FAILED, exactly when a case of that name passed, or failed. |
| `FailureBlocks.OwnOutputIs` | scripts/parallel-tests.py:131-156 | A test's own output is the captured lines the harness did not print, in order, without the blank ones at either end. |
| `FailureBlocks.FailureBodyIff` | scripts/parallel-tests.py:201-210 | What stands in a failing test's block, blank lines aside, is the note about a timeout, the reason, or else the message, and all the test wrote; nothing else. |
| `FailureBlocks.FailureBodyIsOwn` | scripts/parallel-tests.py:131-156 | No line of it can be taken for a result line. |
| `TestReport.RenderLoop` | scripts/parallel-tests.py:158-228 | The binaries are printed in name order with their totals, and a report that holds no test is refused. |
| `CountTheorems.ResultLineReading` | scripts/published-test-count.py:46-54 | A printed result line reads back as its passed count, and as a failure if anything failed. |
| `CountTheorems.TestLineReading` | scripts/published-test-count.py:46-47 | A test's own line is skipped unless its name starts with `result`. |
| `CountTheorems.CountOfPassingReport` | scripts/published-test-count.py:40-59 | What is printed for an all-passing report, whatever its names hold, counts as its passed tests exactly when no heading and no test's own line adds anything. |
| `CountTheorems.CountOfOrdinaryReport` | scripts/published-test-count.py:40-59 | In particular it does for one-line names of which no test's starts with `result`. |
| `CountTheorems.CountByNames` | scripts/published-test-count.py:40-59 | For tests named by their paths, an all-passing run counts as its passed tests if no path starts with `result`, and is refused whole otherwise. |
| `CountTheorems.ResultPathIsBad` | scripts/published-test-count.py:46-53 | The line of a passing test whose path starts with `result` is taken for a result line and cannot be read as one. |
| `CountTheorems.CountRefusesResultTest` | scripts/published-test-count.py:46-59 | So a passing run of one test called `result_is_kept` is refused. |
| `CountTheorems.CountRefusesFailingReport` | scripts/published-test-count.py:40-59 | A report with a failing test is never counted, whatever its tests are called or print. |
| `CountTheorems.CountMisledByName` | scripts/published-test-count.py:46-53 | With a name that holds spaces, which only a custom harness can report, the line can even be counted: a run of one test named `result: ok. N` is counted as N + 1. |
| `MergedRuns.MergeLoop` | scripts/parallel-tests.py:324-350 | The copying loop concatenates the outputs in shard order, after the same refusals. |
| `MergedRuns.MergedInOrder` | scripts/parallel-tests.py:324-350 | The shards of an accepted set have distinct indices, and the merged text is their outputs from the lowest index to the highest, in whatever order they were given. |
| `MergedRuns.CountOfMergedRun` | scripts/parallel-tests.py:324-350 | The merged output of an accepted set of shards that each count their own targets counts as the sum over the listed targets. |
| `MergedTheorems.PrintedIsFaithful` | scripts/parallel-tests.py:350-442 | A shard whose binaries all pass quietly, printed behind the build's output and before the doctests, counts exactly the tests of its targets. |
| `MergedTheorems.MergedCountsAsUnsharded` | scripts/parallel-tests.py:324-442 | Sharding does not show in the count: however the tests end and whatever they are called, the merged output of an accepted set of shards is counted, or refused, as the output of one unsharded run of all the targets. |
| `MergedTheorems.MergedCountRefused` | scripts/parallel-tests.py:324-442 | One failing test, or one passing test whose path starts with `result`, in any shard makes the counter refuse the merged output. |
| `MergedTheorems.MergedCountByNames` | scripts/parallel-tests.py:324-442 | For tests named by their paths, the merged output counts as the passed tests of all targets and the doctests if there is no such test, and is refused otherwise. |
| `FeatureDeps.FeatureWalk.DepsOf` | scripts/check-feature-deps.py:43-60 | The recursive walk with its one shared visited set ends on every table, adds exactly the features newly reachable, and returns exactly their crates. |
| `FeatureDeps.WalkFindsSupply` | scripts/check-feature-deps.py:43-60 | A walk from nothing visited has visited exactly the reachable features and returned exactly the crates they declare. |
| `FeatureDeps.Supply` | scripts/check-feature-deps.py:43-60 | `deps_of` returns exactly the `dep:` crates of the features reachable from its argument, on cyclic tables too. |
| `FeatureDeps.CrateIff` | scripts/check-feature-deps.py:52-60 | An entry declares a crate exactly when it is the name behind `dep:`. |
| `FeatureDeps.LinkIff` | scripts/check-feature-deps.py:52-60 | A feature pulls in exactly the features of the table among its entries, unless named `dep:`. |
| `FeatureGates.AlternativesOfText` | scripts/check-feature-deps.py:63-88 | For every well-formed condition, with any white space around its arguments, the reader gets all its features at once for an `all` without any `any`, each alone otherwise, none if it names none. |
| `GateText.FindNamesIff` | scripts/check-feature-deps.py:82-82 | For every text, a condition or not, the names read are those of its mentions `feature = "name"`, left to right. |
| `GateText.AlternativesIs` | scripts/check-feature-deps.py:82-88 | For every text they are one alternative exactly when the text without its padding starts with `all(` and holds no `any(`, and each is one otherwise. |
| `FeatureCover.AlternativesCoverIff` | scripts/check-feature-deps.py:63-88 | For every condition, `not` included, the alternatives cover each build that compiles the module exactly when the condition cannot hold without features, or, where it is read as one alternative, without any one of the features it names. |
| `FeatureCover.PlainCoverableIff` | scripts/check-feature-deps.py:63-88 | Without `not` that is so exactly when the condition's form demands a feature: an `all` with such an argument, an `any` of nothing else. |
| `FeatureCover.LiteralsCoverableIff` | scripts/check-feature-deps.py:63-88 | For an `all` over literals that is so exactly when it negates no feature or contradicts itself. |
| `FeatureCover.PureIsCoverable` | scripts/check-feature-deps.py:63-88 | Every condition built from `all` and `any` over features alone is covered. |
| `FeatureCover.NotIsMisread` | scripts/check-feature-deps.py:63-88 | `all(a, not(b))` is read as needing both features, which misses a build that compiles the module. |
| `FeatureCover.SupplyOfAll` | scripts/check-feature-deps.py:147-149 | The loop over an alternative unions exactly the supplies of its features. |
| `FeatureCover.CheckModule` | scripts/check-feature-deps.py:140-159 | A problem is reported for exactly the alternatives and imported crates that the alternative does not supply. |
| `FeatureCover.CleanReportIff` | scripts/check-feature-deps.py:140-159 | Over all feature tables, a clean report means that every build that compiles the module pulls in its imported crates exactly for the covered conditions; for any other that names a feature, some table passes the check and leaves a build without the crate. |
| `PublishOrder.Sorter.Visit` | scripts/publish-crates.py:90-101 | A visit keeps the order sound, extends it, and fails only where the trail closes a cycle. |
| `PublishOrder.Publishable` | scripts/publish-crates.py:75-105 | The order is refused exactly when the dependencies among published members form a cycle; otherwise it lists each member once, after all it depends on. |
| `PublishOrder.FoundIff` | scripts/publish-crates.py:75-86 | The packages are the published members, the last one under each name, with its version and its dependencies. |
| `PublishOrder.OrderedHasNoCycle` | scripts/publish-crates.py:90-101 | Members with such an order have no cycle. |
| `PublishRelease.PlanLoop` | scripts/publish-crates.py:108-124 | The crates answered 404, in order; one answer that is neither 200 nor 404 refuses the whole plan. |
| `PublishRelease.PlanRefusesIff` | scripts/publish-crates.py:108-124 | A plan is refused exactly when some answer is neither 200 nor 404. |
| `PublishRelease.PlanIs` | scripts/publish-crates.py:108-124 | A plan holds exactly the crates answered 404, each as often as listed. |
| `PublishRelease.PlannedIsReady` | scripts/publish-crates.py:108-124 | When a planned crate's turn comes, everything it depends on is on the registry, provided the uploads before it succeeded. |
| `PublishRelease.PlanCompletes` | scripts/publish-crates.py:108-124 | Once all planned crates are uploaded, the registry holds every published member. |
| `PublishRelease.Registry.UploadAll` | scripts/publish-crates.py:157-167 | The loop uploads in order and stops at the first failure. |
| `PublishRelease.Release` | scripts/publish-crates.py:137-167 | In every run, stopped runs included, each upload starts with all its dependencies held; a refused run uploads nothing; a run that ends with 0 leaves every published member held. |
| `Markdown.FindFences` | scripts/lib_markdown.py:121-150 | Each block runs from its opening line through the first line that closes it, or to the end of the text, in document order, and nothing inside a block opens another; which lines open and close is `FenceOpenIff` and `FenceCloseIff`. |
| `MarkdownFences.FenceOpenIff` | scripts/lib_markdown.py:171-182 | A line opens a fence exactly when it is at most three spaces, a run of three or more backticks or tildes, and an info string that behind backticks holds none (section 4.5 of CommonMark). |
| `MarkdownFences.FenceCloseIff` | scripts/lib_markdown.py:185-193 | A line closes a fence exactly when it is at most three spaces, at least as many of the same mark as opened it, and white space. |
| `MarkdownFences.InfoIs` | scripts/lib_markdown.py:121-150 | A block's info string is what stands behind the marks of its opening line, without the white space around it. |
| `Text.LinesIff` | scripts/lib_markdown.py:121-150 | A text is cut into exactly the lines it is made of, at each of the breaks `str.splitlines` knows, with carriage return and line feed one break. |
| `Markdown.FenceMask` | scripts/lib_markdown.py:153-166 | The mask is true exactly on the lines of those blocks. |
| `Markdown.FencesAscend` | scripts/lib_markdown.py:121-150 | Blocks lie in the document one after another, never empty, never overlapping. |
| `Markdown.FencesEnd` | scripts/lib_markdown.py:121-150 | Every block starts at its marker's line and ends with the first later line that closes that marker, or with the document if none does. |
| `Markdown.MaskIsScan` | scripts/lib_markdown.py:153-166 | On every line of every text the mask agrees with a scanner that reads one line at a time and only remembers the open fence. |
| `Markdown.EndDoesNotMatter` | scripts/lib_markdown.py:171-193 | A line break at the end of a line changes neither whether it opens nor whether it closes a fence. |
| `MarkdownRegions.FindFenced` | scripts/lib_markdown.py:202-223 | The offset and block loops give each fenced block as the character range of its lines, markers included. |
| `MarkdownRegions.FencedRegionsAreFences` | scripts/lib_markdown.py:196-223 | The fenced ranges are the ranges of the blocks `fences` finds, one for one. |
| `MarkdownRewrite.SpansSound` | scripts/lib_markdown.py:168-168 | Each inline span found runs from a run of backticks through the next run of the same length, and spans follow each other. |
| `MarkdownRewrite.SpansComplete` | scripts/lib_markdown.py:168-168 | Wherever such a span could start, a span that was found covers the place. |
| `MarkdownRewrite.FindCode` | scripts/lib_markdown.py:196-233 | Fenced ranges first, then the inline spans of the gaps between them. |
| `MarkdownRewrite.SubOutsideCode` | scripts/lib_markdown.py:236-261 | Sorting, merging and weaving copy the merged code regions and pass each stretch between them to the substitution once. |
| `MarkdownRewrite.MergedCovers` | scripts/lib_markdown.py:247-253 | Merging keeps exactly the positions covered and leaves no two regions touching. |
| `MarkdownRewrite.CodeSurvives` | scripts/lib_markdown.py:236-261 | Under any substitution every code region, fenced or inline, stands verbatim and in one piece in the result. |
| `MarkdownRewrite.CodeKeepsOrder` | scripts/lib_markdown.py:236-261 | Code positions keep their order. |
| `MarkdownRewrite.RewrittenByIdentity` | scripts/lib_markdown.py:236-261 | A substitution that changes nothing gives the document back. |
| `MarkdownRewrite.RewriteSeesNoCode` | scripts/lib_markdown.py:236-261 | Two substitutions that agree on text outside code give the same result. |
| `Comments.SkipBlock` | scripts/flag-since.py:89-97 | The nesting loop ends just past the closing that matches the first opening, or at the end of the text. |
| `Comments.FindStringEnd` | scripts/flag-since.py:132-140 | The escape loop finds the end of a string, or reports it as unterminated. |
| `Comments.LiteralIff` | scripts/flag-since.py:110-140 | A literal starts at a place and ends at another exactly when a string of escapes and plain characters, a raw string up to its first matching closer, or a character literal is written there. |
| `Comments.RawStringReadIff` | scripts/flag-since.py:113-117 | A raw string as Rust writes it is read as one literal exactly when it has at most six hashes and no identifier character stands before its `r`. |
| `Comments.ByteStringIsMisread` | scripts/flag-since.py:113-140 | So a raw byte string that holds one backslash is read as a plain string that never ends. |
| `Comments.StripComments` | scripts/flag-since.py:78-107 | Comments are blanked but for newlines, literals and everything else copied; an unterminated string or raw string is an error with its offset. `BlankedIff` and `BlankingFailsIff` say on the text what that means. |
| `CommentTokens.PieceIff` | scripts/flag-since.py:84-107 | What is taken as one piece at a place is the token its characters make: a line comment up to the newline, a block comment by its nesting, a literal, or one other character. |
| `CommentTokens.BlankedIff` | scripts/flag-since.py:78-107 | Blanking gives a text exactly when such tokens tile the source and the text is the source with precisely the comment tokens blank. |
| `CommentTokens.BlankingFailsIff` | scripts/flag-since.py:78-140 | It fails exactly where the tokens come to a string or raw string that is never closed, with its offset. |
| `CommentTheorems.BlankingKeepsPositions` | scripts/flag-since.py:78-107 | Whenever it succeeds: same length, newlines exactly where they were, every position outside comments untouched, every position inside blank. |
| `CommentTheorems.BlockCommentIff` | scripts/flag-since.py:89-99 | A block comment of any text is one piece that ends where its closings first match its openings, and at the end of the source if they never do. |
| `CommentTheorems.SameLiteral` | scripts/flag-since.py:110-140 | A literal kept verbatim is read as the same literal again. |
| `CommentTheorems.BlankingIsFixpoint` | scripts/flag-since.py:78-107 | Blanking its own output changes nothing. |
| `Brackets.BalancedEnd` | scripts/flag-since.py:143-161 | The stack loop, stepping over literals, returns the end that `BalancedEndIff` characterises, or the error. |
| `Brackets.BalancedEndIff` | scripts/flag-since.py:143-161 | From an opening bracket, an end is returned exactly when the source up to it is one group of nested groups, literals and other characters, where a closer that does not match the innermost bracket is such a character (`(])` is one group). |
| `Brackets.SplitItems` | scripts/flag-since.py:164-182 | The depth loop, stepping over literals, cuts at top-level commas and returns the items that are not blank. |
| `Brackets.ItemsJoin` | scripts/flag-since.py:164-182 | Before trimming, the items joined with commas are the body again. |
| `Brackets.ListedComesApart` | scripts/flag-since.py:164-182 | Items with properly closed brackets come apart exactly at the commas between them, whatever commas stand inside brackets and literals. |
| `Brackets.TrimmedIs` | scripts/flag-since.py:164-182 | What is returned are the items that are not blank, in order, without the white space around them. |
| `SinceTable.FindCells` | scripts/flag-since.py:373-384 | The loop over characters and the open backslash gives the cells of the row; `CellsIff` says which those are. |
| `SinceLines.CellsIff` | scripts/flag-since.py:373-384 | A row is cut at exactly the pipes with an even number of backslashes right before them. |
| `SinceTable.JoinCells` | scripts/flag-since.py:373-384 | Joining the cells of any row with `\|` gives the row back, escaped pipes included. |
| `SinceTable.CellsOfJoin` | scripts/flag-since.py:373-384 | Cells that split off whole come apart again as they were joined. |
| `SinceTable.SetSince` | scripts/flag-since.py:414-434 | A sound flag row gets the release of its flags in the Since cell; a row that names no known flag, flags of different releases, or has the wrong width is kept and complained about. |
| `SinceTable.RewriteLoop` | scripts/flag-since.py:397-435 | Headers and rules of flag tables are replaced, their rows set, everything else copied, and all complaints collected in order; `RewriteIs` says it line by line. |
| `SinceLines.SplitOnIff` | scripts/flag-since.py:401-401 | A text is split at exactly the places where the character stands. |
| `SinceLines.TokenNamesIff` | scripts/flag-since.py:387-394 | A token names the flag behind its two dashes up to an equals sign, space or bracket, or the argument in angle brackets without dots at its end, or nothing. |
| `SinceLines.RowNamesAre` | scripts/flag-since.py:387-394 | A cell names, in order, what stands between its backticks. |
| `SinceLines.ComplaintsIff` | scripts/flag-since.py:413-434 | A row is complained about for a missing or unknown name, else for names of different releases, else for a width that is neither four nor five, and is sound otherwise. |
| `SinceLines.HeaderIff` | scripts/flag-since.py:402-405 | A line is the header of a flag table exactly when it is the one text or the other followed by white space. |
| `SinceLines.RewriteIs` | scripts/flag-since.py:397-435 | Every header becomes the header with Since. Below a header, through lines that all start with a pipe, each rule becomes the longer rule, each sound row has its Since cell set to the release of its flags and each other row is kept. Everything else is copied, and the errors are the complaints of exactly those rows, in order. |
| `SinceTheorems.NewRowCells` | scripts/flag-since.py:425-434 | A rewritten row has the old row's cells with the Since cell set, or put in where there was none. |
| `SinceTheorems.RewriteChanges` | scripts/flag-since.py:397-435 | A rewrite, with complaints or without, keeps the number of lines and changes only headers, rules and, in sound flag rows, the Since cell, which then holds the release of every flag the row names. |
| `SinceTheorems.RewriteIsFixpoint` | scripts/flag-since.py:397-435 | Rewriting its own output changes nothing and complains about the same rows. |
| `PanicScopes.Runtime.Run` | src/crash.rs:412-425 | For code with any nesting of scopes and panics: the outcome, the errors in order, the count raised by exactly as many, and the depth restored. |
| `PanicScopes.ScopeOfFinished` | src/crash.rs:412-425 | A scope around code that finishes is as if it were not there. |
| `PanicScopes.ScopeOfPanic` | src/crash.rs:412-425 | A scope around code that panics, whatever ran before and would have run after, adds one error with its own name and the message of the panic, and goes on with what follows an error. |
| `PanicScopes.ScopesContain` | src/crash.rs:412-425 | Inside a scope no code ends the process; outside every scope nothing is left unwinding. |
| `PanicScopes.DepthDecidesTheRest` | src/crash.rs:541-563 | How deep code runs changes neither the errors its own scopes give nor whether it finishes, only what becomes of a panic none of them contains. |
| `PanicRuns.AlwaysSound` | src/crash.rs:412-463 | In every reachable state of every interleaving a thread's depth is the number of its scopes whose guard is not dropped. |
| `PanicTheorems.DepthCountsEvents` | src/crash.rs:439-463 | Over every run the depth is the scopes entered less the guards dropped. |
| `PanicTheorems.NeverSaturates` | src/crash.rs:459-463 | The saturating decrement never saturates. |
| `PanicTheorems.ScopeRestoresDepth` | src/crash.rs:412-425 | From entering a scope to returning from it a thread's depth is restored, panic or not, whatever other threads do. |
| `PanicTheorems.PanicReachesInnermost` | src/crash.rs:541-563 | A panic at depth 1 or more never ends the process and is caught by the innermost scope of its own thread, with its message. |
| `PanicTheorems.CaughtIsReturned` | src/crash.rs:412-425 | What was caught is counted once and returned as the error, with the scope's name and the panic's message. |
| `PanicTheorems.EndsOnlyOutside` | src/crash.rs:541-615 | The process has ended exactly when the last event was the hook of a thread with no scope, and then by the action of the core policy. |
| `PanicTheorems.PanicOutsideEnds` | src/crash.rs:541-615 | A panic at depth 0 ends the process as soon as its thread goes on. |
| `PanicTheorems.CountedAreErrors` | src/crash.rs:412-431 | The count is the number of errors returned plus those counted and about to be returned. |
| `PanicTheorems.ContainedEqualsErrors` | src/crash.rs:412-431 | With no thread in between, the count equals the number of errors returned. |
| `PanicTheorems.PanicsAreConserved` | src/crash.rs:412-425 | Every panic is counted or still under way on its thread; none is lost and none counted twice. |
| `TableFile.ReadTableFile` | scripts/no-itu-values.py:54-76 | The cursor loop returns the entries, or says whether the magic is wrong, the file cut short or too long. |
| `TableFile.TableRoundTrip` | scripts/no-itu-values.py:54-76 | A table file written for any storable entries, whatever version and indices, reads back as those entries. |
| `TableFile.AcceptsOnlyTables` | scripts/no-itu-values.py:54-76 | Whatever is accepted is byte for byte such a file; truncated or longer files are refused. |
| `TableScan.ForbiddenWindows` | scripts/no-itu-values.py:79-85 | The windows are exactly the runs of six consecutive values of the entries, each with the first entry that has it. |
| `IntegerRuns.FindRuns` | scripts/no-itu-values.py:88-130 | The byte loop collects literals into runs and closes a run at anything but a separator; `WindowIff` gives the meaning of the runs. |
| `IntegerRuns.SeparatorIff` | scripts/no-itu-values.py:51-51 | The separators are white space, commas, semicolons and brackets. |
| `IntegerRuns.WordIff` | scripts/no-itu-values.py:100-102 | What touches a word is a letter, a digit, an underscore or a dot. |
| `IntegerRuns.DecimalOfConcat` | scripts/no-itu-values.py:88-130 | The digits of a literal count by their place in base ten. |
| `IntegerRuns.DecimalOfDigit` | scripts/no-itu-values.py:88-130 | One digit stands for its distance from `0`. |
| `RunTheorems.WindowIff` | scripts/no-itu-values.py:88-130 | Six values are in a run, on a line, exactly when they stand in the file as 32-bit integer literals touching no word character, with only separators between, the first on that line. |
| `TableScan.BinaryKeys` | scripts/no-itu-values.py:133-142 | The keys are exactly the three encodings of every window, filed by length, each with an entry and encoding it stands for. |
| `TableScan.PackedReads` | scripts/no-itu-values.py:133-142 | Each encoded value has two or four bytes that read back, in the order its encoding names, as the value or its two's complement. |
| `TableScan.PackedOfConcat` | scripts/no-itu-values.py:133-142 | An encoded window is its values encoded one after another. |
| `TableScan.ScanBytes` | scripts/no-itu-values.py:145-161 | First one text report for each run that holds a forbidden window, at the run's first such window, in file order; then each encoded hit once; every report is true, and a file with a window in its text gets a text report. |
| `TableScan.ScanBinary` | scripts/no-itu-values.py:154-160 | Each encoded hit that occurs at some offset is reported exactly once, and nothing else. |
| `TableTheorems.Scan` | scripts/no-itu-values.py:79-161 | From table entries to reports: a file is reported exactly when six consecutive values of an entry stand in it as literals or, in one of three encodings, at some offset. |
| `TableTheorems.PrintedIsReported` | scripts/no-itu-values.py:88-161 | Six or more consecutive table values printed anywhere in a file, with separators around and between, are always reported. |
| `Checksum.ComputeChecksum` | bench/carrier.py:71-80 | The summing loop, odd bytes padded, and the folding loop end with the one's complement of the folded word sum. |
| `Checksum.FoldedMeans` | bench/carrier.py:78-79 | Folding ends below 2^16, keeps the sum modulo 65535, and gives zero only for zero. |
| `Checksum.FieldVerifiesIff` | bench/carrier.py:71-80 | A value in a zero field makes the checksum of the whole zero exactly when it is the checksum, or all ones where the checksum is zero. |
| `Checksum.ChecksumVerifies` | bench/carrier.py:116-116 | Writing the checksum into the zero field makes the checksum of the whole zero. |
| `Checksum.FrameHeaderVerifies` | bench/carrier.py:92-123 | Every frame header built has a verifying IPv4 part, length fields that count what follows, its addresses and ports in place, and the fixed bytes of a UDP datagram that is not to be fragmented. |

## Left out

- The SIP, RTP and TUI engine under `src/` other than panic containment, and everything that benchmarks or drives it.
- Input and output: files, archives, git, cargo, the network, exit codes and printed messages; their answers are parameters.
- Regular-expression rewrites in other scripts; here a pattern's substitution is any function on text.
- The site, wiki, icon and notice generators, which fill in templates, and the scripts that compare one number with a recorded one.
- XML parsing of test reports: the model starts from the parsed suites; seconds are taken as printed text.
- Digits outside ASCII in the test counter, and `str.isalnum` and `str.isspace` beyond the characters written out; `isalnum` is a parameter where it matters.
- The language tag within a fence's info string, the waiver and gate-marker comments of the `unwrap` gate, and the wording of error messages.
- Overflow of the machine-word depth and of the 64-bit panic counter in `src/crash.rs`, a second panic while unwinding, terminal restoring and report writing.
- The order in which Python's dictionaries are walked where the result does not depend on it; where two encodings of different windows coincide, which of the two a report names is left open.
- FeatureGates.AlternativesOfText: conditions are written with each word directly before its parenthesis, as rustfmt leaves them; spacing around arguments is free.
- FeatureMatrixTheorems.PartitionNearOptimal: stated for groups that can all run everything, as when they share one pool; with unequal pools the greedy rule has no such bound.
- CountTheorems.CountOfPassingReport: the times are single-line text without escape sequences, as numbers are; names are free.
- IntegerRuns.FindRuns: reads a literal of any length, while recent Pythons refuse to convert more than 4300 digits.
- TestCount.CountLoop: likewise reads a passed column of any length.
- SinceTheorems.RewriteIsFixpoint: like `RewriteChanges`, stated for releases free of pipes, backslashes and newlines, which release tags are.
- SinceLines.RewriteIs: what a Since cell then holds is stated for the same releases; every other clause holds for all.
- PublishOrder.FoundIff: members are given with their manifests parsed, dependencies as lists of names.
- CommentTheorems.BlankingIsFixpoint: asks of `isalnum` only that it is false for a slash and a space.

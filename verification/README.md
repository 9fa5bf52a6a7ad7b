# fqn-renamer: a verified functional model of the search-and-classify core

fqn-renamer renames a Java class. It runs ripgrep over a source tree for the
class's simple name. It splits ripgrep's `--json` output into records and
folds the records into one `MatchedFile` per file. Then it narrows every
match to the part of the fully qualified class name (FQCN) that it names: the
package, the identifier or the whole name. Finally it keeps only the files
that show corroborating evidence, such as a package declaration, an import or
the full name.

The repository holds two generations of this logic side by side, and both
are modelled here:

- the older one: single-range `Match` lines (`src/matched_file.rs`), the
  AND-rule classifier (`src/fqcn_replacer.rs`) and the worker of
  `src/rg_worker_thread.rs`;
- the newer one: multi-submatch lines, the OR/AND-rule classifier
  (`src/fqcn_processor.rs`) and the worker of `src/rg_worker.rs`.

The model also covers the name parser (`src/fqcn.rs`) and two small pieces
of UI state: `Scrollable` (`src/scrollable.rs`) and the bounded event log
(`src/event_log.rs`).

Modules and files:

| file | module | what it holds |
|---|---|---|
| `strings.dfy` | `Strings` | `Option`, `Range`, slicing, `starts_with`, `contains`, `find` as used by the program |
| `fqcn.dfy` | `FqcnParser` | the anchored name expression as a grammar; `Fqcn::new` and its accessors |
| `matched_file.dfy` | `MatchModel` | the older `Match` / `Line` / `MatchedFile` and their `before`/`middle`/`after`/`replace` |
| `line_model.dfy` | `LineModel` | the newer `Line` with several submatches, its spans and `adjust_submatches` |
| `fqcn_replacer.dfy` | `FqcnReplacer` | the older classifier, with its unit test as lemmas |
| `fqcn_processor.dfy` | `FqcnProcessor`, `FqcnProcessorExamples` | the newer classifier, with its three unit tests as lemmas |
| `record_stream.dfy` | `RecordStream` | the chunk-to-record loop shared by both workers, as a method with loop invariants |
| `rg_message.dfy` | `RgMessage` | ripgrep's records after decoding |
| `rg_worker.dfy` | `RgWorker` | `handle_command`, `push_context` and `MatchedFileBuilder` of the newer worker |
| `rg_worker_thread.dfy` | `RgWorkerThread` | `handle_command` and `push_context` of the older worker |
| `scrollable.dfy` | `ScrollWindow` | `Scrollable::{new, push, get}` |
| `event_log.dfy` | `Events` | `EventLog::{info, error, push, list}` |

Modelling choices:

- Strings are `seq<char>`. Ranges are pairs of naturals.
- Each panic of the program is modelled in one of three ways:
  - as an error value: an invalid name is `None`; an `adjust_submatches`
    call that breaks the submatch invariant is `None`; the older worker's
    `[0]` on an empty submatch array sets a `panicked` flag, after which the
    worker state never changes;
  - as a precondition: the slicing in `Match::before`, `middle` and `after`
    (`src/matched_file.rs:70-78`) requires the range to lie within the line
    (`MatchModel.InRange`); the older classifier's `m.value[start..]`
    (`src/fqcn_replacer.rs:33`, `:38`) requires the start to lie within the
    line unless the line is a package declaration, which is never sliced
    (`FqcnReplacer.Sliceable`); a record's line number is at least 1 (the
    type `RgMessage.LineNumber`), so the newer worker's `- 1` cannot
    underflow;
  - not at all: the `unwrap`s on reading, UTF-8 decoding and JSON decoding
    (see "Left out").
- Every operation is a pure function over immutable values. The only method
  with loops is the record splitter.
- The reading loop receives the text already decoded, as a sequence of
  chunks. An empty chunk is `read` returning 0. Each record's JSON decoding is
  a parameter `decode: string -> Record`.

Behaviours of the code that the model pins down:

- **Name grammar.** Both name groups are required: `src/fqcn.rs:17-19`
  returns `None` unless both the package group and the identifier group
  matched. `FqcnParser.BothGroupsRequired` states this.
- **Older classifier.** `src/fqcn_replacer.rs:33-43` searches a line only for
  the full name and then for the identifier, never for the bare package; the
  package is recognised only on a line that starts with `package `
  (`src/fqcn_replacer.rs:28-32`).
- **Line numbers.** Only the newer worker subtracts one from ripgrep's
  1-based line number (`src/rg_worker.rs:195`). The older worker stores the
  number as ripgrep reports it (`src/rg_worker_thread.rs:186`).

## Model

| member | source | states |
|---|---|---|
| Strings.FindFrom | src/fqcn_replacer.rs:33-42 | `value[start..].find(needle)` shifted back into `value`: the first index at or after `start` where the needle occurs, and `None` exactly when it occurs nowhere from `start` on |
| Strings.Find | src/fqcn_processor.rs:32-42 | `find` of a string gives the first occurrence, and `None` exactly when the text does not contain the needle |
| Strings.FindChar | src/rg_worker.rs:120-123 | `find('\n')` gives the first position holding a newline, with no newline before it; `None` means the text has no newline |
| Strings.FindsFirstAt | src/fqcn_processor.rs:32-39 | an occurrence with no earlier copy of the needle's first character is the one `find` reports |
| Strings.Slice | src/matched_file.rs:73-75 | slicing by an in-bounds range yields exactly the range's length of text |
| FqcnParser.FirstUpperFrom | src/fqcn.rs:16 | finds the first upper-case character: every character before it is not upper-case, and the one it names is |
| FqcnParser.SegmentsAreOneSegment | src/fqcn.rs:16 | any run of repetitions of `[a-z0-9][a-z0-9.]+` is itself one repetition, so the captured package is the whole prefix before the last dot |
| FqcnParser.NoUpperInSegments | src/fqcn.rs:16 | a package contains no upper-case character |
| FqcnParser.SplitIsUnique | src/fqcn.rs:16-19 | a name splits into package and identifier at only one place: just before its first upper-case character |
| FqcnParser.Parse | src/fqcn.rs:13-26 | `Fqcn::new` gives `Some` exactly when the text is a package, a dot and an identifier; the package range starts at 0 and the identifier range starts one past its end and runs to the end of the text |
| FqcnParser.ParseMeaning | src/fqcn.rs:16-19 | the executable first-upper-case split agrees with the grammar in both directions |
| FqcnParser.Package | src/fqcn.rs:32-34 | the package is at least two characters of `[a-z0-9.]`, starting with `[a-z0-9]`, and is a prefix of the name |
| FqcnParser.PackageWithTrailing | src/fqcn.rs:36-38 | `package_with_trailing` is the package followed by one dot, and is a prefix of the name |
| FqcnParser.Ident | src/fqcn.rs:40-42 | the identifier starts with `[A-Z]`, continues with word characters, and ends the name |
| FqcnParser.ValueIsPackageDotIdent | src/fqcn.rs:16-19 | a parsed name is its package, a dot and its identifier, and the identifier range starts one past the end of the package range |
| FqcnParser.Value | src/fqcn.rs:28-30 | the value of a valid name is its package, a dot and its identifier |
| FqcnParser.ComposeSplits | src/fqcn.rs:16 | any package joined to any identifier by a dot is split by the grammar exactly at that dot |
| FqcnParser.ParseCompose | src/fqcn.rs:13-42 | round trip: parsing a package, a dot and an identifier succeeds and returns that package and that identifier |
| FqcnParser.ComposeParse | src/fqcn.rs:13-42 | round trip: re-parsing a parsed name's package, dot and identifier gives back the same `Fqcn` |
| FqcnParser.BothGroupsRequired | src/fqcn.rs:16-19 | among the texts the expression matches, `new` rejects exactly the empty text, a bare identifier and a bare package with a trailing dot |
| FqcnParser.ParsesFooBarBaz | src/fqcn.rs:53-56 | `foo.bar.Baz` parses, with package `foo.bar`, identifier `Baz` and value `foo.bar.Baz` |
| FqcnParser.NoSplitWithoutUpper | src/fqcn.rs:16-19 | a text without an upper-case letter has no identifier, so it cannot be parsed |
| FqcnParser.RejectsPackageOnly | src/fqcn.rs:58 | `foo.bar` is rejected |
| FqcnParser.NoSplitAfterBrokenIdent | src/fqcn.rs:16 | a non-word character after the first upper-case letter makes the text unparsable |
| FqcnParser.RejectsTrailingContent | src/fqcn.rs:59 | `foo.bar.Baz.Smaz` is rejected |
| MatchModel.Before | src/matched_file.rs:70-72 | `before` has as many characters as the range start |
| MatchModel.Middle | src/matched_file.rs:73-75 | `middle` has as many characters as the range is long |
| MatchModel.After | src/matched_file.rs:76-78 | `after` has the characters from the range end to the end of the line |
| MatchModel.BeforeMiddleAfter | src/matched_file.rs:70-78 | for an in-bounds range, `before`, `middle` and `after` put back together are the line |
| MatchModel.Replace | src/matched_file.rs:52-68 | `Match::replace` keeps `before` and `after`, makes `middle` the replacer's output on the old middle, keeps the range start, makes the range as long as the replacement, and keeps `match_type` and `line_num` |
| MatchModel.ReplaceLine | src/matched_file.rs:89-104 | `Line::replace` copies context lines, replaces match lines as `Match::replace` does, and keeps `line_num` |
| MatchModel.Matches | src/matched_file.rs:17-22 | `matches` yields exactly the matches held by match lines, and no more of them than there are lines |
| MatchModel.LineNum | src/matched_file.rs:89-94 | carries no contract: `line_num` reads the number off either kind of line; `MatchModel.ReplaceLine` states that replacing keeps it |
| MatchModel.MatchesAppend | src/matched_file.rs:17-22 | the matches of two runs of lines are the matches of the first followed by those of the second, so order is kept |
| MatchModel.MatchesSkipContext | src/matched_file.rs:17-22 | context lines yield no match |
| MatchModel.UpdateMatches | src/matched_file.rs:10-15 | mutating through `matches_mut` changes each match line's match and leaves context lines as they are, position for position |
| MatchModel.MatchesOfUpdate | src/matched_file.rs:10-22 | after such a mutation, `matches` yields the updated matches in the original order, one for one |
| MatchModel.ReplaceFile | src/matched_file.rs:24-33 | `MatchedFile::replace` keeps the path and maps the lines one for one: context lines are copied, and match lines keep `before` and `after` and get the replaced `middle` |
| MatchModel.SlicingExample | src/matched_file.rs:114-134 | range `3..6` over `0123456789` slices to `012`, `345` and `6789`; replacing the middle with `bar` or `foosmaz` keeps `012` and `6789` around it |
| LineModel.SortedWithinInBounds | src/fqcn_processor.rs:73-86 | a line's submatches lie inside its text and do not overlap, in order |
| LineModel.SpansFrom | src/fqcn_processor.rs:97-127 | spans are never empty, and no two unmatched spans are adjacent |
| LineModel.Spans | src/fqcn_processor.rs:97-127 | `Line::iter` yields non-empty spans in which unmatched text never follows unmatched text |
| LineModel.SpansCoverText | src/fqcn_processor.rs:97-127 | the spans of a line put back together are its text, and its matched spans are exactly its submatches' texts, in order |
| LineModel.SpansFromJoin | src/fqcn_processor.rs:97-127 | the spans from a position to the end cover exactly the text from that position |
| LineModel.SpansFromMatched | src/fqcn_processor.rs:97-127 | the matched spans from a position on are the texts of the submatches still ahead |
| LineModel.SpansFromCover | src/fqcn_processor.rs:97-127 | both of the above together, for any starting position |
| LineModel.Reanchor | src/fqcn_processor.rs:29-43 | a range chosen inside a submatch is re-anchored into the line by adding the submatch's start, and keeps its length |
| LineModel.AdjustedRanges | src/fqcn_processor.rs:29-43 | adjusting never yields more ranges than there were submatches, and never an empty one |
| LineModel.NonEmptyAdjusterKeepsAll | src/fqcn_processor.rs:29-43 | when the closure never picks an empty range, each submatch is replaced, in order, by the re-anchored range the closure picked |
| LineModel.AdjustSubmatches | src/fqcn_processor.rs:29-43 | `adjust_submatches` keeps the line's number and text and sets its submatches to the adjusted ranges; it succeeds exactly when those ranges are still sorted and in bounds |
| LineModel.NarrowingKeepsOrder | src/fqcn_processor.rs:29-43 | a closure that picks ranges inside its argument keeps the submatches sorted and in bounds |
| LineModel.NarrowingAdjustSucceeds | src/fqcn_processor.rs:29-43 | with such a closure, `adjust_submatches` always succeeds |
| LineModel.EmptyAdjusterDropsAll | src/fqcn_processor.rs:29-43 | a closure that only picks empty ranges drops every submatch |
| LineModel.EmptyAdjusterClears | src/fqcn_processor.rs:29-43 | the line is then one unmatched span, or no span when its text is empty |
| LineModel.AdjustExample | src/fqcn_processor.rs:29-43 | `foo bar baz` with submatches `0..4` and `4..11`, where the closure picks `0..3` and `4..7`, ends up with `0..3` and `8..11`, because each pick is relative to its own submatch |
| LineModel.AdjustExampleSpans | src/fqcn_processor.rs:97-127 | that line is shown as `foo`, ` bar `, `baz`, matched, unmatched, matched |
| FqcnReplacer.NarrowMatch | src/fqcn_replacer.rs:24-43 | narrowing keeps a match's line number and text |
| FqcnReplacer.NarrowMatchMeaning | src/fqcn_replacer.rs:24-43 | a `package ` line gets range `8..8+|package|` of type `Package`, whatever its old range was; any other line gets the first full name at or after the old start as `FqcnFull`, failing that the first identifier there as `FqcnIdent`, and failing that stays exactly as it was |
| FqcnReplacer.PackageLineNarrowsToPackage | src/fqcn_replacer.rs:28-32 | on a line `package <package>...` the narrowed middle is exactly the package |
| FqcnReplacer.ScanImport | src/fqcn_replacer.rs:20-22 | the import flag is raised exactly when some match line starts with `import `, whatever it imports |
| FqcnReplacer.Scan | src/fqcn_replacer.rs:19-44 | carries no contract: the three flags raised while visiting the matches in order; their meaning is stated by `FqcnReplacer.ScanImport`, `FqcnReplacer.ScanPackage` and `FqcnReplacer.ScanIdent` |
| FqcnReplacer.ScanPackage | src/fqcn_replacer.rs:28-32 | the package flag is raised exactly when some match line starts with `package ` |
| FqcnReplacer.ScanIdent | src/fqcn_replacer.rs:33-43 | the identifier flag is raised exactly when some non-package match line has the identifier (alone or inside the full name) at or after its range start |
| FqcnReplacer.IdentHitMeaning | src/fqcn_replacer.rs:33-42 | finding the full name or finding the identifier from a position is the same as finding the identifier from there |
| FqcnReplacer.KeepsOnTwoWitnesses | src/fqcn_replacer.rs:46 | a package or import line together with an identifier hit is enough to keep the file |
| FqcnReplacer.NarrowFile | src/fqcn_replacer.rs:19-44 | narrowing a file keeps its path and line count, leaves context lines alone and narrows each match line in place |
| FqcnReplacer.RetainFile | src/fqcn_replacer.rs:14-47 | the closure keeps a file exactly when `(saw_package or saw_import) and saw_ident`, and a kept file is the narrowed file |
| FqcnReplacer.Process | src/fqcn_replacer.rs:6-50 | the result never has more files than the input |
| FqcnReplacer.ProcessSound | src/fqcn_replacer.rs:14-47 | every file that comes out is some input file that meets the keep rule, narrowed |
| FqcnReplacer.ProcessComplete | src/fqcn_replacer.rs:14-47 | every input file that meets the keep rule comes out, narrowed |
| FqcnReplacer.ProcessKeepsExactly | src/fqcn_replacer.rs:14-47 | every result is the narrowing of some input file that passes the rule, and every such file's narrowing is in the result |
| FqcnReplacer.ProcessAppend | src/fqcn_replacer.rs:14-47 | each file is judged on its own, and kept files stay in input order: processing two lists joined is processing each and joining |
| FqcnReplacer.ProcessOne | src/fqcn_replacer.rs:14-47 | a single file comes back narrowed when it passes the rule, and is dropped otherwise |
| FqcnReplacer.ProcessBothKept | src/fqcn_replacer.rs:14-47 | two files that both pass come back narrowed, in order |
| FqcnReplacer.FooBarBazParts | src/fqcn_replacer.rs:63-64 | the name `foo.bar.Baz` has package `foo.bar` and identifier `Baz` |
| FqcnReplacer.NarrowsToFullAtStart | src/fqcn_replacer.rs:33-37 | a full name right at the range start becomes an `FqcnFull` range of the name's length there |
| FqcnReplacer.NarrowsToIdentAtStart | src/fqcn_replacer.rs:38-42 | with no full name ahead, an identifier at the range start becomes an `FqcnIdent` range there |
| FqcnReplacer.PackageDeclNarrowing | src/fqcn_replacer.rs:115-119 | `package foo.bar;` with range `0..16` becomes type `Package` showing `package ` / `foo.bar` / `;` |
| FqcnReplacer.ClassDeclNarrowing | src/fqcn_replacer.rs:121-125 | `class Baz {};` becomes type `FqcnIdent` on `Baz` |
| FqcnReplacer.DeclaringFileNarrowing | src/fqcn_replacer.rs:112-125 | the declaring file of the test is narrowed line by line as the test expects |
| FqcnReplacer.DeclaringFileKept | src/fqcn_replacer.rs:109-113 | the declaring file passes the rule |
| FqcnReplacer.ImportLineNarrowing | src/fqcn_replacer.rs:130-134 | `import foo.bar.Baz;` becomes type `FqcnFull` showing `import ` / `foo.bar.Baz` / `;` |
| FqcnReplacer.UseLineFacts | src/fqcn_replacer.rs:136-140 | `   Baz myBaz = new Baz()` is no package line, has no full name from 3, and has the identifier at 3 |
| FqcnReplacer.UseLineNarrowing | src/fqcn_replacer.rs:136-140 | that line becomes type `FqcnIdent` on its first `Baz` |
| FqcnReplacer.NewLineNarrowing | src/fqcn_replacer.rs:142-146 | ` new foo.bar.Baz(1, 2);` becomes type `FqcnFull` on the full name |
| FqcnReplacer.ImportingFileNarrowing | src/fqcn_replacer.rs:127-146 | the importing file of the test is narrowed line by line as the test expects |
| FqcnReplacer.ImportingFileKept | src/fqcn_replacer.rs:109-110 | the importing file passes the rule |
| FqcnReplacer.ReplacerExample | src/fqcn_replacer.rs:61-147 | the whole test: both files are kept, in order, with exactly the expected types and ranges |
| FqcnProcessor.NeedlesOf | src/fqcn_processor.rs:10-12 | the three search strings are the name, its package and its identifier, and the name is package, dot and identifier |
| FqcnProcessor.NarrowSubmatch | src/fqcn_processor.rs:29-43 | the closure picks a range inside the submatch; it raises `saw_fqcn` exactly when the submatch contains the full name, and `saw_ident` exactly when it contains the identifier but neither the name nor the package |
| FqcnProcessor.NarrowSubmatchMeaning | src/fqcn_processor.rs:32-42 | the chosen range is the first full name, else the first package, else the first identifier, each as long as what it found, else the whole submatch; it is empty only for an empty submatch |
| FqcnProcessor.Adjuster | src/fqcn_processor.rs:29-43 | the closure only ever narrows |
| FqcnProcessor.NarrowedRanges | src/fqcn_processor.rs:29-43 | one narrowed range per submatch |
| FqcnProcessor.NarrowNonEmpty | src/fqcn_processor.rs:29-43 | a non-empty submatch is never narrowed to nothing |
| FqcnProcessor.AdjusterKeepsAll | src/fqcn_processor.rs:29-43 | `adjust_submatches` with the closure succeeds and replaces every submatch by its narrowed range |
| FqcnProcessor.NarrowLine | src/fqcn_processor.rs:20-44 | a narrowed line keeps its number and text, stays well formed, and has the narrowed ranges |
| FqcnProcessor.SubmatchFlags | src/fqcn_processor.rs:32-39 | over a line's submatches, `saw_fqcn` is raised exactly when one contains the name, and `saw_ident` exactly when one contains only the identifier; a package-only hit raises neither |
| FqcnProcessor.LineFlags | src/fqcn_processor.rs:23-43 | one line raises the import flag exactly when it starts with `import ` and contains the name, and the package flag exactly when it starts with `package ` and contains the package; the import check comes first, yet each flag means exactly its own evidence |
| FqcnProcessor.ScanImport | src/fqcn_processor.rs:23-24 | after all lines, the import flag is raised exactly when some line imports the full name |
| FqcnProcessor.ScanLines | src/fqcn_processor.rs:20-44 | carries no contract: the four flags raised while visiting the lines in order; their meaning is stated by `FqcnProcessor.ScanImport`, `FqcnProcessor.ScanPackage`, `FqcnProcessor.ScanFqcn` and `FqcnProcessor.ScanIdent` |
| FqcnProcessor.ScanPackage | src/fqcn_processor.rs:25-26 | the package flag is raised exactly when some line declares the package |
| FqcnProcessor.ScanFqcn | src/fqcn_processor.rs:32-34 | `saw_fqcn` is raised exactly when some submatch holds the full name |
| FqcnProcessor.ScanIdent | src/fqcn_processor.rs:37-39 | `saw_ident` is raised exactly when some submatch holds only the identifier |
| FqcnProcessor.NarrowFile | src/fqcn_processor.rs:20-44 | narrowing a file keeps its path and narrows each line in place |
| FqcnProcessor.ScanDecides | src/fqcn_processor.rs:48 | the flag test `saw_fqcn or saw_import or (saw_package and saw_ident)` holds exactly when the file shows the name, an import of it, or a package declaration together with an identifier-only hit |
| FqcnProcessor.RetainFile | src/fqcn_processor.rs:14-49 | the closure keeps a file exactly under that rule, and a kept file is the narrowed file |
| FqcnProcessor.RetainAll | src/fqcn_processor.rs:14-49 | the result never has more files than the input |
| FqcnProcessor.Process | src/fqcn_processor.rs:6-52 | the three search strings of a parsed name are non-empty, and the result never has more files than the input |
| FqcnProcessor.RetainAllSound | src/fqcn_processor.rs:14-49 | every result is the narrowing of some input file that passes the rule |
| FqcnProcessor.RetainAllComplete | src/fqcn_processor.rs:14-49 | every input file that passes the rule is in the result, narrowed |
| FqcnProcessor.RetainAllKeepsExactly | src/fqcn_processor.rs:14-49 | both of the above together |
| FqcnProcessor.RetainAllAppend | src/fqcn_processor.rs:14-49 | each file is judged on its own, and kept files stay in input order |
| FqcnProcessor.RetainOne | src/fqcn_processor.rs:14-49 | a single file comes back narrowed when it passes the rule, and is dropped otherwise |
| FqcnProcessor.RetainPair | src/fqcn_processor.rs:14-49 | two files are judged independently |
| FqcnProcessor.RetainKept | src/fqcn_processor.rs:14-49 | a file that passes comes back narrowed |
| FqcnProcessor.RetainBothKept | src/fqcn_processor.rs:14-49 | two files that both pass come back narrowed, in order |
| FqcnProcessor.KeptByPackageAndIdent | src/fqcn_processor.rs:48 | a package declaration and an identifier-only submatch keep the file |
| FqcnProcessor.KeptByFqcn | src/fqcn_processor.rs:48 | one submatch holding the full name keeps the file, with no package or import line needed |
| FqcnProcessor.DropsWithoutPackageChar | src/fqcn_processor.rs:23-48 | a file in which some character of the package never occurs shows none of the evidence and is dropped |
| FqcnProcessorExamples.NeedlesOfFooBarBaz | src/fqcn_processor.rs:67 | `foo.bar.Baz` searches for `foo.bar.Baz`, `foo.bar` and `Baz` |
| FqcnProcessorExamples.NarrowPackageText | src/fqcn_processor.rs:35-36 | the submatch `package foo.bar` is narrowed to `8..15`, raising no flag |
| FqcnProcessorExamples.NarrowIdentText | src/fqcn_processor.rs:37-39 | the submatch `Baz` is kept whole and raises `saw_ident` |
| FqcnProcessorExamples.NarrowValueText | src/fqcn_processor.rs:32-34 | the submatch `foo.bar.Baz` is kept whole and raises `saw_fqcn` |
| FqcnProcessorExamples.PackageDeclNarrowing | src/fqcn_processor.rs:73 | `package foo.bar` with submatch `0..15` is narrowed to `8..15` |
| FqcnProcessorExamples.PackageDeclSpans | src/fqcn_processor.rs:97-100 | and is then shown as `package ` unmatched, `foo.bar` matched |
| FqcnProcessorExamples.ClassDeclNarrowing | src/fqcn_processor.rs:74 | `class Baz {};` keeps its submatch on `Baz` |
| FqcnProcessorExamples.ClassDeclSpans | src/fqcn_processor.rs:101-104 | and is shown as `class `, `Baz`, ` {};` |
| FqcnProcessorExamples.ImportDeclNarrowing | src/fqcn_processor.rs:80 | `import foo.bar.Baz` keeps its submatch on the full name |
| FqcnProcessorExamples.ImportDeclSpans | src/fqcn_processor.rs:110-113 | and is shown as `import `, `foo.bar.Baz` |
| FqcnProcessorExamples.BareUsesNarrowing | src/fqcn_processor.rs:81-85 | the two submatches of `   Baz myBaz = new Baz()` are narrowed independently and both stay on `Baz` |
| FqcnProcessorExamples.BareUsesSpans | src/fqcn_processor.rs:114-123 | that line is shown as five alternating spans that cover its text |
| FqcnProcessorExamples.FullUseNarrowing | src/fqcn_processor.rs:86 | ` new foo.bar.Baz(1, 2);` keeps its submatch on the full name |
| FqcnProcessorExamples.FullUseSpans | src/fqcn_processor.rs:124-127 | and is shown as ` new `, `foo.bar.Baz`, `(1, 2);` |
| FqcnProcessorExamples.PackageDeclIsPackageLine | src/fqcn_processor.rs:25-26 | `package foo.bar` is package evidence |
| FqcnProcessorExamples.ClassDeclNamesIdent | src/fqcn_processor.rs:37-39 | the submatch of `class Baz {};` is identifier evidence |
| FqcnProcessorExamples.ImportDeclNamesFqcn | src/fqcn_processor.rs:32-34 | the submatch of `import foo.bar.Baz` is full-name evidence |
| FqcnProcessorExamples.BazFileKept | src/fqcn_processor.rs:91-95 | the declaring file of the test is kept |
| FqcnProcessorExamples.BazFileNarrowing | src/fqcn_processor.rs:94-105 | and comes back with its package line narrowed to `foo.bar` |
| FqcnProcessorExamples.QuuxFileKept | src/fqcn_processor.rs:107-108 | the importing file of the test is kept |
| FqcnProcessorExamples.QuuxFileNarrowing | src/fqcn_processor.rs:107-128 | and comes back unchanged |
| FqcnProcessorExamples.KeepsDeclaringAndImportingFiles | src/fqcn_processor.rs:65-129 | the first test: both files are kept, in order, with exactly the expected submatches |
| FqcnProcessorExamples.RightImportNarrowing | src/fqcn_processor.rs:138 | `import foo.bar.Baz;` holds the full name in its submatch and keeps it |
| FqcnProcessorExamples.KeepsRightImport | src/fqcn_processor.rs:131-142 | a file whose only line is the right import is kept as it is |
| FqcnProcessorExamples.RightImportSpans | src/fqcn_processor.rs:144-150 | that line is shown as `import `, `foo.bar.Baz`, and `;` unmatched |
| FqcnProcessorExamples.WrongFileFacts | src/fqcn_processor.rs:160-163 | no line of the wrong-import file contains an `f` |
| FqcnProcessorExamples.DropsWrongImport | src/fqcn_processor.rs:153-168 | `import com.other.Baz;` with `Baz b;` is discarded |
| RecordStream.EofIndex | src/rg_worker.rs:105-109 | the stream ends at the first empty read: every earlier chunk is non-empty |
| RecordStream.SplitRecordsCover | src/rg_worker.rs:116-142 | the records put back together are the received text; no record is empty; every record but the last ends at, and includes, its first newline |
| RecordStream.SplitAfterLines | src/rg_worker.rs:116-142 | complete lines followed by a newline-free tail split back into those lines and the tail: splitting undoes joining |
| RecordStream.SplitAfterFirst | src/rg_worker.rs:120-126 | a complete line at the front of the buffer is the next record |
| RecordStream.FindCharAfterLine | src/rg_worker.rs:120-121 | after a complete line, `find('\n')` stops at that line's end |
| RecordStream.FoldConcat | src/rg_worker.rs:129-135 | handling two runs of records is handling the second from where the first left off |
| RecordStream.FoldStep | src/rg_worker.rs:128-135 | one more record is one more `handle_command` call on its decoding |
| RecordStream.DecodeAll | src/rg_worker.rs:128 | every record is decoded, one for one, in order |
| RecordStream.CutLine | src/rg_worker.rs:126-138 | cutting the buffer after its first newline yields a complete line, and the records plus the buffer still equal all text read |
| RecordStream.TakeLines | src/rg_worker.rs:116-142 | the inner loop before end of file hands on complete lines only, leaves a buffer without a newline, and keeps "records plus buffer equal all text read" |
| RecordStream.Drive | src/rg_worker.rs:104-147 | the loop hands on exactly the records of the received text: each ends at, and includes, the first newline; text after the last newline waits and is flushed as one record at end of file; no empty record is decoded; the handler state is the fold over their decodings |
| RecordStream.Flush | src/rg_worker.rs:117-118 | at end of file the remaining buffer, when not empty, is the last record |
| RgMessage.CountEnds | src/rg_worker.rs:164-168 | there are never more `end` records than records |
| RgWorker.Build | src/rg_worker.rs:211-213 | `build` leaves the builder with an empty path and no lines |
| RgWorker.LineOf | src/rg_worker.rs:194-195 | the stored line number is ripgrep's number minus one |
| RgWorker.Handle | src/rg_worker.rs:151-187 | results grow only at `end`, by one file, and never lose an entry; `begin` sets the path and keeps the lines |
| RgWorker.Run | src/rg_worker.rs:127-136 | carries no contract: the reading loop hands each decoded record to `handle_command`, one after another in arrival order; what a run does is stated by `RgWorker.RunBody`, `RgWorker.RunFile` and `RgWorker.RunEncode` |
| RgWorker.RunCountsEnds | src/rg_worker.rs:164-168 | after any records there is one new result per `end` record, and earlier results stay |
| RgWorker.RunBody | src/rg_worker.rs:170-186 | inside a file, context and match records append their lines, with all submatches in array order, and change nothing else |
| RgWorker.RunFile | src/rg_worker.rs:160-168 | a `begin` ... `end` block appends one file with the block's path and the lines gathered, and empties the builder |
| RgWorker.RecordOf | src/rg_worker.rs:170-186 | the record a line comes from is a context or match record, never `begin` or `end` |
| RgWorker.RecordsOf | src/rg_worker.rs:170-186 | one such record per line, in order |
| RgWorker.FileRecords | src/rg_worker.rs:160-186 | a file's records are `begin`, one per line, `end` |
| RgWorker.LinesOfRecords | src/rg_worker.rs:189-202 | the records of some lines yield those lines back |
| RgWorker.RunFileRecords | src/rg_worker.rs:160-168 | a file's records, handled from an empty builder, append that file |
| RgWorker.RunEncodeStep | src/rg_worker.rs:160-168 | one more file's records append one more file |
| RgWorker.RunEncode | src/rg_worker.rs:151-213 | round trip: handling the records of any files yields exactly those files, in order, with an empty builder |
| RgWorker.Work | src/rg_worker.rs:104-147 | the worker's results are the fold of `handle_command` over the decoded records of the received text, one file per `end` record |
| RgWorkerThread.PushLine | src/rg_worker_thread.rs:181-204 | `push_context` appends one line that carries the record's number as given, and keeps the path and earlier lines |
| RgWorkerThread.Handle | src/rg_worker_thread.rs:151-179 | results grow only at `end`, by one file; a match record with no submatch stops the worker, and a stopped worker ignores everything |
| RgWorkerThread.Run | src/rg_worker_thread.rs:127-136 | carries no contract: the reading loop hands each decoded record to `handle_command`, one after another in arrival order; what a run does is stated by `RgWorkerThread.PanicFreezes`, `RgWorkerThread.RunFile` and `RgWorkerThread.RunEncode` |
| RgWorkerThread.PanicFreezes | src/rg_worker_thread.rs:174-176 | after the panic nothing changes |
| RgWorkerThread.EmptyMatchStops | src/rg_worker_thread.rs:173-176 | a match record with an empty submatch array stops the worker; the results are those pushed before it |
| RgWorkerThread.RunCountsEnds | src/rg_worker_thread.rs:162-167 | while the worker lives, there is one new result per `end` record, and earlier results stay |
| RgWorkerThread.RunBody | src/rg_worker_thread.rs:169-178 | inside a file, context and match records append `Context` and `Arbitrary` match lines and change nothing else |
| RgWorkerThread.RunFile | src/rg_worker_thread.rs:158-167 | a block appends one file with the block's path; `begin` overwrites only the path, so lines left from before are kept |
| RgWorkerThread.FirstSubmatchOnly | src/rg_worker_thread.rs:173-178 | a match record contributes one `Arbitrary` match line holding its first submatch only |
| RgWorkerThread.RecordOf | src/rg_worker_thread.rs:169-178 | the record a line comes from is one the worker survives |
| RgWorkerThread.RecordsOf | src/rg_worker_thread.rs:169-178 | one such record per line, in order |
| RgWorkerThread.FileRecords | src/rg_worker_thread.rs:158-178 | a file's records are `begin`, one per line, `end` |
| RgWorkerThread.LinesOfRecords | src/rg_worker_thread.rs:181-204 | the records of some lines yield those lines back |
| RgWorkerThread.RunFileRecords | src/rg_worker_thread.rs:158-167 | a file's records, handled from an empty file in progress, append that file |
| RgWorkerThread.RunEncodeStep | src/rg_worker_thread.rs:162-167 | one more file's records append one more file |
| RgWorkerThread.RunEncode | src/rg_worker_thread.rs:151-204 | round trip: handling the records of any files the worker can produce yields exactly those files, in order |
| RgWorkerThread.Work | src/rg_worker_thread.rs:104-147 | the worker's results are the fold of `handle_command` over the decoded records of the received text; unless it panicked, one file per `end` record |
| ScrollWindow.New | src/scrollable.rs:9-15 | a new list is empty, with the given offset and room |
| ScrollWindow.Push | src/scrollable.rs:16-27 | while items are to be skipped a push only counts one off; once none are, a push keeps the produced item and uses up one unit of room, until none is left; kept items are never lost |
| ScrollWindow.PushIgnoresProducer | src/scrollable.rs:16-27 | a push that keeps nothing does not depend on the producer, so the producer is called only for kept items |
| ScrollWindow.Get | src/scrollable.rs:28-30 | carries no contract: `get` hands back the kept items; which items they are is stated by `ScrollWindow.PushAllWindow` and how many by `ScrollWindow.KeepsAtMostMaxLen` |
| ScrollWindow.WindowStep | src/scrollable.rs:16-27 | one more push moves the window on by one item |
| ScrollWindow.PushAllWindow | src/scrollable.rs:9-30 | after pushing a sequence, `get` returns items `offset+1` through `offset+max_len` of it, in push order, as far as there are any |
| ScrollWindow.KeepsAtMostMaxLen | src/scrollable.rs:9-30 | never more items than the room given at construction |
| Events.Push | src/event_log.rs:34-47 | the new entry goes to the front, numbered with the old `last`; `last` goes up by one; past 20 entries the oldest one is dropped; the numbering invariant is kept |
| Events.LogInfo | src/event_log.rs:27-29 | `info` pushes an `Info` entry and changes nothing else |
| Events.LogError | src/event_log.rs:30-32 | `error` pushes an `Error` entry and changes nothing else |
| Events.List | src/event_log.rs:49-51 | carries no contract: `list` hands back the entries, newest first; which entries and numbers they are is stated by `Events.Push`, `Events.LogAllKeepsInv` and `Events.LogAllKeepsNewest` |
| Events.PushKeepsNewest | src/event_log.rs:34-47 | a log that lists the newest messages still does so after one more push |
| Events.LogAllKeepsNewest | src/event_log.rs:34-51 | from an empty log, `list` shows the last 20 messages (or all, when fewer), newest first, each numbered with its position |
| Events.LogAllKeepsInv | src/event_log.rs:34-47 | at most 20 entries, numbered one apart from front to back, from any log that already holds this |

## Left out

- Process control and concurrency are not modelled: spawning ripgrep, `kill_and_wait`, the `finished` flag, joining the thread, and the `Arc<Mutex>` around the results and the event log (`src/rg_worker.rs:26-88`, `src/rg_worker_thread.rs:26-88`, `src/event_log.rs:35`). The shared results vector is a plain sequence in the worker state.
- JSON decoding (`serde_json::from_str` and the field look-ups) is a parameter `decode` of the worker. Its `unwrap` panics on malformed records are not modelled. A record's `line_number` is a natural of at least 1, so the newer worker's `- 1` cannot underflow.
- The UTF-8 decoding of each 4096-byte read (`src/rg_worker.rs:111`) is left out. The stream arrives as already-decoded chunks, so a multi-byte character split across reads, which panics in the program, is not represented.
- Offsets are positions in a sequence of characters, not byte offsets. `\w` in the name expression is ASCII letters, digits and `_`, not the Unicode class.
- MatchModel.Replace: the `i32` arithmetic of `src/matched_file.rs:59-60` is taken as exact integer arithmetic, so a wrap-around on lines longer than 2^31 bytes is not modelled.
- Events.Push: the counter `last` is unbounded; `usize` overflow after 2^64 entries is not modelled.
- The event-log messages written by the workers (`events.info(...)`) are left out of the worker models, which do not carry an event log.
- The newer `Line` and `MatchedFile` (with `Line::new`, `iter`, `value` and `adjust_submatches`) are defined in a file that is not part of this model. `LineModel` rebuilds them from their uses and tests. Its submatch invariant (non-empty, sorted, non-overlapping, in bounds) is a modelling assumption, and the panic on breaking it is modelled as `None`.
- The terminal UI and event dispatch (`src/ui.rs`, `src/main.rs`, `src/controller.rs`, `src/app.rs`) and the plain struct of `src/found_match.rs` are not modelled.
- Rewriting files on disk with `.bak` backups appears in none of the modelled files and is not modelled.
- FqcnReplacer.Scan: carries no contract of its own. The meaning of its three flags is stated by `FqcnReplacer.ScanImport`, `FqcnReplacer.ScanPackage` and `FqcnReplacer.ScanIdent`.
- FqcnProcessor.ScanLines: carries no contract of its own. The meaning of its four flags is stated by `FqcnProcessor.ScanImport`, `FqcnProcessor.ScanPackage`, `FqcnProcessor.ScanFqcn` and `FqcnProcessor.ScanIdent`.
- FqcnReplacer.NarrowMatch: requires, for a line that is not a package declaration, the old range start to lie within the line (`Sliceable`), because `m.value[start..]` (`src/fqcn_replacer.rs:33`, `:38`) panics otherwise; the panic itself is not modelled.
- MatchModel.Before: requires the range to lie within the line (`InRange`); the panic of `&self.value[..start]` (`src/matched_file.rs:70-72`) on a start past the end is not modelled.
- MatchModel.Middle: requires `InRange`; the panic of `&self.value[start..end]` (`src/matched_file.rs:73-75`) on a reversed or out-of-range range is not modelled.
- MatchModel.After: requires `InRange`; the panic of `&self.value[end..]` (`src/matched_file.rs:76-78`) on an end past the line is not modelled.
- MatchModel.Replace: requires `InRange`, because `replace` slices through `before`, `middle` and `after`; its panic on an out-of-range match is not modelled.
- MatchModel.ReplaceLine: requires a match line's range to lie within its line (`LineInRange`), for the same slicing panic.
- MatchModel.ReplaceFile: requires every match line's range to lie within its line (`AllInRange`), for the same slicing panic.
- The `child_stdout.read(&mut buf).unwrap()` of both reading loops (`src/rg_worker.rs:105`, `src/rg_worker_thread.rs:105`) is left out: the chunks are a parameter, so a failing read, which panics in the program, is not represented.
- RgWorkerThread.RunEncode: covers only files the older worker can produce, meaning line numbers of at least 1 and match lines of type `Arbitrary`.
- The inner loop's single pass at end of file (`src/rg_worker.rs:117-118`) is the separate method `RecordStream.Flush`, which the reading loop calls once before it stops.

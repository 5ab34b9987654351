# Biggest-file finder: pattern matching and per-pattern running maximum

A Dafny model of the core of a small Rust command-line tool that walks a
directory tree once and, for each configured search pattern, reports the
largest matching file or a "not found" message. The model covers:

- the two pattern kinds (`SearchPatternType::Basic(name)` and
  `SearchPatternType::BiggestFileInFolder{folder, file_type}`) and the
  predicate deciding whether one regular file matches a pattern;
- the "not found" message seeded per pattern (`NoFileFoundResult::new`);
- `create_initial_search_result`: `Vec::dedup` on the pattern list and one
  `NoFileFound` slot per remaining pattern, then the zip-insert into the
  `HashMap`;
- the running-maximum update (first match replaces "not found", afterwards
  only a strictly larger file replaces the current one), the inner loop over
  the patterns for each file and the outer loop over the walk, both as pure
  folds and as the loops of `search_for_biggest_files`.

The directory walk is an input: a sequence of `WalkEntry` values. Each is
one of three things:

- an entry `is_file()` rejects, which includes files whose metadata cannot be
  read;
- a regular file with its facts (`FileRecord`: full path, base name, optional
  extension, optional last component of the parent directory, length as a
  `u64`);
- a file that passed `is_file()` but whose later length read failed.

The root folder is carried through seeding, but the walk it names is given,
not computed.

Files: `wrappers.dfy` (Option), `patterns.dfy` (module `Patterns`),
`search_results.dfy` (module `SearchResults`), `seeding.dfy` (module
`Seeding`), `search.dfy` (module `Search`), `scenarios.dfy` (module
`Scenarios`, worked examples).

Main results:

- `Search.ScanNotFoundIffNoMatch` and `Search.ScanReportsFirstLargestMatch`:
  for every configured pattern the slot is `NoFileFound` with that pattern's
  message exactly when no readable file matched. Otherwise it is `FileFound`
  with the size of the largest matching file and the path of the earliest
  matching file of that size in walk order. Such a file exists whenever
  something matched (`SearchResults.FirstLargestMatchExists`).
- `Search.Scan`: the map has one key per distinct configured pattern, and the
  scan aborts exactly when the length read of a file that `is_file()`
  accepted then fails.
- `Search.ScanDependsOnlyOnPatternSet`: the outcome depends only on the set of
  configured patterns. `Vec::dedup` collapses only runs of equal neighbours
  and keeps the order (`Seeding.DedupIsCollapse`), so a pattern can be visited
  twice per file. This is harmless, because a repeated offer of the same file
  changes nothing (`SearchResults.OfferIdempotent`).

Where the code behaves differently from what one might expect, the model
follows the code:

- A file whose metadata cannot be read at all is skipped: `is_file()`
  (src/main.rs:116) answers false on a metadata error, so the walk holds it
  as `NotAFile`. But when that check succeeds and the second metadata read
  for the length (`path.metadata()?`, src/main.rs:120) then fails, for
  example because the file was removed in between, the error is returned
  from `search_for_biggest_files`. The whole scan aborts and nothing is
  printed. The walk holds such a file as `UnreadableFile`, and `Search.Scan`
  returns `Aborted` for it.
- One might expect `dedup` to remove every repeated pattern. It collapses
  only adjacent ones (src/main.rs:99), and the map collapses the rest.
- One might expect a file without an extension to fail only folder patterns
  with a non-empty file type. In the code (`extension.is_some()`,
  src/main.rs:152) it never matches a folder pattern at all, whatever the
  file type (`Patterns.NoExtensionNeverMatchesFolderPattern`).

Lengths are `u64` values (`Patterns.U64`). The code only compares them and
never adds them, so no wrap-around arises.

## Model

| member | source | states |
|---|---|---|
| Patterns.Matches | src/main.rs:121-157 | a `Basic` pattern matches iff the base name equals the searched name; a folder pattern matches iff the parent component is present and equal to the folder and the extension is present and equal to the file type |
| Patterns.NoExtensionNeverMatchesFolderPattern | src/main.rs:148-157 | a file without an extension never matches a folder pattern |
| Patterns.BasicMatchDependsOnNameOnly | src/main.rs:123-124 | a `Basic` match ignores folder, extension and size: files with the same base name match alike |
| Patterns.NotFoundMessage | src/main.rs:76-89 | the seeded message decomposes into the fixed text, the searched name (or folder and extension) and a final "!" |
| Patterns.BasicMessageNamesTheFile | src/main.rs:79-81 | two `Basic` patterns with equal messages search for the same name |
| Patterns.FolderMessageNamesFolderAndType | src/main.rs:82-87 | two folder patterns with equal messages and folder names of equal length are the same pattern |
| Patterns.FolderMessageIsAmbiguous | src/main.rs:82-87 | without that length condition different folder patterns can share a message |
| Patterns.MessageKindsDiffer | src/main.rs:78-88 | a `Basic` message never equals a folder message |
| SearchResults.Update | src/main.rs:125-142 | "not found" is always replaced by the candidate; a found slot is replaced iff its size is strictly smaller than the candidate's |
| SearchResults.Offer | src/main.rs:125-145 | after an offer the slot is found, is either the old slot or the candidate, and its size does not decrease |
| SearchResults.OfferIdempotent | src/main.rs:133-145 | offering the same file twice equals offering it once |
| SearchResults.OfferKeepsEarlierOnTie | src/main.rs:132-140 | a candidate no larger than the current best leaves the slot unchanged |
| SearchResults.FoldSlot | src/main.rs:114-184 | over a sequence of files a found slot stays found with a size that does not decrease, and a slot still not found is its starting slot |
| SearchResults.FoldSlotGrowsAlongWalk | src/main.rs:114-184 | once found after a prefix of the walk, a slot is found after the whole walk with a size at least as large |
| SearchResults.FirstLargestMatchExists | src/main.rs:114-184 | whenever some file matches, one of them is the earliest among the largest |
| SearchResults.FirstLargestMatchUnique | src/main.rs:133 | at most one file is the earliest among the largest matches, so the reported file is determined |
| SearchResults.FoldNotFoundIffNoMatch | src/main.rs:125-131 | a slot seeded "not found" stays "not found" iff no file matched |
| SearchResults.FoldFindsFirstLargest | src/main.rs:114-184 | a slot seeded "not found" ends with the path and size of the earliest largest matching file |
| SearchResults.TieKeepsFirstSeen | src/main.rs:133 | of two matching files of equal size the first one seen is kept |
| Seeding.Dedup | src/main.rs:99 | `Vec::dedup` keeps the same distinct elements and the first element, never grows the list and leaves no equal neighbours |
| Seeding.DedupIsCollapse | src/main.rs:99 | `Vec::dedup` keeps, in order, exactly the elements that are first or differ from their left neighbour |
| Seeding.DedupIgnoresRepeatInRun | src/main.rs:99 | deleting one element of a run of equal neighbours does not change the deduplicated list |
| Seeding.DedupKeepsListWithoutAdjacentDuplicates | src/main.rs:99 | a list without equal neighbours is left unchanged |
| Seeding.DedupLeavesNonAdjacentDuplicates | src/main.rs:99 | `[a, b, a]` with `a != b` is left unchanged, so non-adjacent duplicates survive |
| Seeding.NotFoundSlots | src/main.rs:100-103 | one slot per pattern, in order, each "not found" with that pattern's message |
| Seeding.CreateInitialSearchResult | src/main.rs:97-106 | the deduplicated patterns are the same distinct patterns as configured, each with a "not found" slot at the same position; the root folder is passed through |
| Seeding.ZipInsert | src/main.rs:111-113 | zip-and-insert: the keys are the old keys plus the keys paired with a value |
| Seeding.ZipInsertValues | src/main.rs:111-113 | unpaired old keys keep their value, and the last occurrence of a paired key decides its value |
| Seeding.InitialResultMap | src/main.rs:110-113 | `HashMap::new` and the zip-insert of the seeded patterns and slots; its contract is `Seeding.InitialResultMapSeedsEveryPattern` (next row) |
| Seeding.InitialResultMapSeedsEveryPattern | src/main.rs:109-113 | the seeded map's keys are exactly the configured patterns, each holding "not found" with its own message |
| Search.Step | src/main.rs:122-180 | one pattern and one file: only that pattern's slot may change, no key is added, a non-matching file changes nothing, a matching one is offered to the slot |
| Search.VisitPatterns | src/main.rs:121-182 | the pattern loop for one file keeps the key set |
| Search.VisitPatternsSlot | src/main.rs:121-182 | after the pattern loop a slot has been offered the file iff its pattern is listed and matches, however often it is listed |
| Search.VisitFile | src/main.rs:121-182 | the imperative pattern loop computes the same map as the functional one |
| Search.Files | src/main.rs:114-120 | the readable regular files of the walk are no more than its entries |
| Search.FilesAreTheRegularFiles | src/main.rs:114-120 | a record is among the readable files iff the walk holds it as a regular-file entry |
| Search.Walk | src/main.rs:114-184 | walking the files keeps the key set |
| Search.WalkSlot | src/main.rs:114-184 | after the walk each listed pattern's slot is the per-pattern fold over the files and unlisted slots are untouched |
| Search.Scan | src/main.rs:108-184 | aborts iff the length read of some file that passed `is_file()` fails; otherwise keys are exactly the configured patterns and each slot is that pattern's fold from its seeded message |
| Search.WalkEntries | src/main.rs:114-184 | the imperative walk loop aborts iff a length read fails and otherwise computes the functional walk over the readable files |
| Search.SearchForBiggestFiles | src/main.rs:108-184 | the imperative scan (seeding, zip-insert, walk loop) computes the same outcome as `Scan` |
| Search.ScanNotFoundIffNoMatch | src/main.rs:108-184 | per configured pattern: the slot is "not found" iff no readable file matched, and then holds the pattern's message |
| Search.ScanReportsFirstLargestMatch | src/main.rs:108-184 | per configured pattern: the slot holds the path and size of the earliest largest readable matching file |
| Search.ScanDependsOnlyOnPatternSet | src/main.rs:97-121 | two configurations with the same set of patterns give the same outcome on every walk |
| Scenarios.BasicPatternPicksLargerFile | src/main.rs:114-145 | walking `.` with `./a/example.txt` (10 bytes) and `./b/example.txt` (20 bytes): `Basic("example.txt")` reports `./b/example.txt`, 20 |
| Scenarios.FolderPatternIgnoresOtherFolders | src/main.rs:114-178 | walking `.` with `./Example/report.txt` (5), `./Example/big.txt` (500), `./Other/huge.txt` (9000): the `Example`/`txt` pattern reports `./Example/big.txt`, 500 |
| Scenarios.EmptyWalkReportsMissingFile | src/main.rs:79-81 | an empty walk leaves `Basic("missing.txt")` with "No file found with the name: missing.txt!" |
| Scenarios.UnreadableFileAbortsScan | src/main.rs:120 | a failed length read aborts the scan even after an earlier match |

## Left out

- Command-line parsing (`CliArgs`, `main`, src/main.rs:5-13, 196-213): argument plumbing and panics, outside the core.
- `create_default_config` and `parse_config` (src/main.rs:39-64): JSON reading and writing through serde; any round-trip property belongs to that library.
- `ProgError` (src/main.rs:31-37): error wrapping only; an abort is modelled as `Aborted` without the I/O error it carries.
- The directory walk itself (`WalkDir`, `is_file`, `metadata`, src/main.rs:114-120): real I/O. It is an input sequence; entries the walker reports as errors (`filter_map(|e| e.ok())`) are simply absent from it, and symbolic-link handling is whatever produced the sequence.
- `is_file()` (src/main.rs:116): it turns a metadata error into "not a regular file"; the walk records such an entry as `NotAFile`, and only a length read failing after `is_file()` succeeded is `UnreadableFile`.
- Deriving the base name, extension and parent component from a path (src/main.rs:117-119): these are Rust standard-library `Path` operations; they are fields of `FileRecord`.
- Printing the results (src/main.rs:186-191): output only, in `HashMap` iteration order, which is unspecified.
- File names compared as text: the code compares `OsStr` values with `OsString::from(String)` (src/main.rs:124, 150-156), a byte comparison under which a name that is not valid UTF-8 never equals a configured name. The model takes the base name, extension and parent component as strings already, so no encoding is modelled.
- Hashing of patterns: map keys use Dafny's structural equality, matching the derived `PartialEq`/`Hash`.
- Search.Files: its contract states only the length bound; which records it holds is stated by `Search.FilesAreTheRegularFiles` and its order by its definition.
- Search.VisitPatterns: its contract states only the key set; the per-slot effect is `Search.VisitPatternsSlot`.
- Search.Walk: its contract states only the key set; the per-slot effect is `Search.WalkSlot`.
- Seeding.ZipInsert: its contract states only the key set; the values are stated by `Seeding.ZipInsertValues`.

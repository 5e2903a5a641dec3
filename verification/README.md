# Verification of the BDD step inventory

`scripts/bdd_inventory.go` reads a list of pending and undefined test steps, looks up each step in its
feature file, and prints three views of the result: totals by epic, the most frequent step texts, and a
section per epic and feature. This project models that program and proves what a reader of the report
relies on: that the report does not depend on the order of the input lines, on Go's map iteration order or on
the unstable sorts (samples excepted, with the exact condition for those); that the three separately counted
views agree; that no record is lost or counted twice between the input lines and the step lists; and that the
line format is read as the pattern prescribes, with the exact condition for it to survive printing.

## How the model is built

- A Go string is a sequence of bytes. The model uses Dafny strings in which a char stands for one byte, so
  every statement covers all byte strings. `<` on strings, `strings.Split`, `strings.TrimSpace` (with the UTF-8
  encodings of all Unicode whitespace), `filepath.Base` and `%d` are modelled as functions in `GoText`.
- The machine is a `World`: a function from paths to optional lines, the working directory and
  `filepath.Rel`. `World.NulFree` is the one assumption about it: a path with a NUL byte cannot be opened, and
  `filepath.Rel` does not put a NUL into a path that has none. Lemmas that need it say so.
- `for k := range m` is `Enumerate`: every key once, in an unspecified order. `sort.Slice` is `SortSlice`, an
  in-place sort of which callers know only that the result is a sorted permutation. Loops over records are
  loops over records, the per-feature summary is a class updated in place through a map of references, and
  each loop is proved against `Group`, the records that share a key.
- What a run may produce is a relation (`IsBuild`, `IsReport`, `IsOutcome`), because the program is not
  deterministic. The methods are proved to produce only related results; the theorems are about all of them.
  `Inventory.OutcomeExists` shows that the relations are never empty.
- The report is modelled as data (rows, counters, sections) instead of printed text. `Section.key` is the map key a
  section was printed for; it is not printed.

| file | content |
|---|---|
| `Grouping.dfy` | group-by, partitions, sums, permutations |
| `Orders.dfy` | comparators, in-place sort, what sorted permutations have in common, contiguous blocks |
| `GoText.dfy` | byte strings |
| `LocationParser.dfy` | the line pattern, its matcher, printing and reading back |
| `RecordBuilder.dfy` | grouping by file, record construction, the record sort |
| `Steps.dfy` | composite keys, counters, rankings |
| `Summary.dfy`, `TopSteps.dfy`, `Details.dfy` | the three views |
| `ViewAgreement.dfy` | the views agree with each other |
| `Inventory.dfy` | the whole run, end to end |
| `Samples.dfy` | when samples and the whole report are determined |

## What does not hold

- The report is not deterministic: samples may change from run to run. Two feature files of one epic with one base
  name and the same step text, each named by an input line, always have two reports, because nothing
  fixes which of their two records comes first (`Samples.SameNameTwoReports`, and
  `Samples.ReportIsNotDetermined` at one input). `Samples.ReportDeterminedIff` gives the exact condition, in terms of the
  input lines and the files they name: no two of the records they stand for differ in their sample only.
  `Samples.SectionSampleIff` and `Samples.RowSampleIff` do the same for one step of a section and for one row of the
  step table. Everything but the samples is determined (`Inventory.RunsAgree`).
- Reading back a printed location does not always return it. For the plain form, status, blanks and `file:line`,
  `LocationParser.RoundTrip` gives the exact condition on the file name: non-empty, no newline, and no blank at the
  front unless that is all there is. The step runner prints its lines through jq's `@tsv`, which escapes backslash,
  tab, newline and carriage return, and the inventory does not undo that: there the file must also be free of these
  four bytes (`LocationParser.TsvRoundTrip`), and a file name with a backslash comes back with two
  (`LocationParser.BackslashIsDoubled`).
- A section is not always one file. There are as many sections as contributing files exactly if no two of the files
  share epic and base name (`Inventory.SectionPerFileIff`).
- The epic `(unknown)` is not only for paths outside `features/`: a directory `features/(unknown)` joins it
  (`RecordBuilder.EpicNameIff`).

## Model

| member | source | states |
|---|---|---|
| LocationParser.FindMatchIsPreferred | scripts/bdd_inventory.go:37 | the matcher finds a match if and only if the pattern has one, and it is the one that leftmost-first semantics prefers among all |
| LocationParser.LastColon | scripts/bdd_inventory.go:37 | all ways to match a line agree on the status, the digits and the text between: the split is always at the last colon |
| LocationParser.AfterLastColon | scripts/bdd_inventory.go:37 | the digits of any match are what follows the last colon of the line |
| LocationParser.ParseLineIff | scripts/bdd_inventory.go:73-86 | a line is read as a location if and only if it is a status, blanks, that file, a colon and digits of that value within int, and greedy blanks leave the file whole |
| LocationParser.SkippedIff | scripts/bdd_inventory.go:74-81 | a line is skipped if and only if it has no match or its number overflows int |
| LocationParser.ParsedLocation | scripts/bdd_inventory.go:74-86 | every location read has one of the two statuses, a canonical file and a line number in int range |
| LocationParser.LiteralLine | scripts/bdd_inventory.go:37 | with the two status texts, the five blank bytes and the largest int written out: such a line gives exactly that status, file and number, or is skipped if the number is too large |
| LocationParser.OnlyTwoStatuses | scripts/bdd_inventory.go:37 | a line that is read starts with pending or undefined, and that is its status |
| LocationParser.IsBlankIff | scripts/bdd_inventory.go:37 | the blank class is tab, newline, form feed, carriage return and space |
| GoText.IsDigitIff | scripts/bdd_inventory.go:37 | the digit class is the ten decimal digits |
| GoText.ValueConcat | scripts/bdd_inventory.go:78 | the positional law: a numeral's value is that of its front, shifted by the length of its tail, plus that of its tail |
| GoText.ValueOfDigit | scripts/bdd_inventory.go:78 | a single digit is worth its place in 0123456789, and is printed as that |
| GoText.ValueLeadingZero | scripts/bdd_inventory.go:78 | a leading zero does not change the number read |
| GoText.ValueOrder | scripts/bdd_inventory.go:78 | numerals of one length compare as numbers exactly as they do bytewise |
| LocationParser.RoundTrip | scripts/bdd_inventory.go:37 | a plain line, status, any blank separator and file:line, is read back as that location if and only if its file is canonical; file names with colons or ending in digits included |
| LocationParser.TsvRoundTrip | Taskfile.yml:45-46 | the line the step runner prints, escaped by @tsv, is read back as its location if and only if the file is canonical and holds no escaped byte |
| LocationParser.EscapedIsLost | Taskfile.yml:45-46 | a location whose file holds an escaped byte is never read back |
| LocationParser.BackslashIsDoubled | Taskfile.yml:45-46 | a file name with a backslash is read back with two |
| LocationParser.EscapesAreLiteral | Taskfile.yml:45-46 | backslash, tab, newline and carriage return are written with a backslash and a backslash, t, n or r; no other byte changes |
| LocationParser.NormalForm | scripts/bdd_inventory.go:73-86 | reading, printing and reading again is reading, for every line: leading zeros, extra blanks and one-blank files included |
| LocationParser.ReadLocations | scripts/bdd_inventory.go:71-91 | the scan loop keeps the readings of the lines that have one, in order |
| RecordBuilder.EpicNameIff | scripts/bdd_inventory.go:166-172 | a path belongs to an epic if and only if it is features/epic or below it, or the epic is (unknown) and the path is not below features/ |
| RecordBuilder.RecordLessIsLegal | scripts/bdd_inventory.go:121-132 | the record comparator is a strict weak order and ties exactly the records that differ in the sample only |
| RecordBuilder.BuildRecords | scripts/bdd_inventory.go:94-134 | every run fails on an unreadable mentioned file, or returns a sorted list that holds each record exactly as often as there are locations naming an existing line with its fields |
| RecordBuilder.BuildsAgree | scripts/bdd_inventory.go:94-134 | runs on permuted locations fail together, exactly if a mentioned file is unreadable, and otherwise agree at every index on epic, feature, status and text |
| RecordBuilder.BuildConserves | scripts/bdd_inventory.go:95-119 | as many records as locations that name an existing line, and each record with its multiplicity, fields written out |
| RecordBuilder.RecordsAreImages | scripts/bdd_inventory.go:106-119 | a record is in the result if and only if some location names an existing line with these fields |
| RecordBuilder.RecordOfIff | scripts/bdd_inventory.go:107-117 | a location has a record if and only if its file is readable and has the line, and then status, trimmed text, base name, epic and sample of the shown path are as written out |
| RecordBuilder.RelativePathIff | scripts/bdd_inventory.go:154-164 | the path shown is the relative one if there is one that does not start with two dots, and otherwise the path given |
| RecordBuilder.RelativeRecord | scripts/bdd_inventory.go:110-117 | an existing line of a file below the working directory is filed under the epic of its relative path and sampled with that path |
| RecordBuilder.NamesAreNulFree | scripts/bdd_inventory.go:112-113 | the epic and the feature of a record hold no NUL byte |
| GoText.TrimSpaceCuts | scripts/bdd_inventory.go:115 | a line is whitespace runes, its trimmed text and whitespace runes: trimming removes nothing else |
| GoText.TrimSpaceIsClean | scripts/bdd_inventory.go:115 | the trimmed text neither starts nor ends with a whitespace rune |
| GoText.BaseNameCases | scripts/bdd_inventory.go:113 | every path is directories, a name and slashes, and the feature is the name, or . for the empty path, or / if there are only slashes |
| GoText.BaseNameOf | scripts/bdd_inventory.go:113 | the feature name is the element after the last slash, trailing slashes set aside |
| GoText.LessIff | scripts/bdd_inventory.go:319 | a string is less if and only if it is a proper prefix or has the lesser byte where the two first differ |
| GoText.LessIsTotalOrder | scripts/bdd_inventory.go:319 | that order is strict and total, so sorting keys has one result |
| GoText.IsSpaceRuneIff | scripts/bdd_inventory.go:115 | the runes trimmed are the UTF-8 encodings of the Unicode whitespace code points |
| Orders.SortSlice | scripts/bdd_inventory.go:323-333 | an in-place sort that meets the contract of sort.Slice: a permutation that the comparator accepts |
| Orders.SortedPermutationsTie | scripts/bdd_inventory.go:121-132 | two sorted permutations of one multiset tie at every index, for every strict weak order |
| Steps.JoinKeyInjective | scripts/bdd_inventory.go:224 | joining with NUL is injective if the first half has no NUL, whatever the second half holds |
| Steps.JoinKeyCollides | scripts/bdd_inventory.go:271 | without that condition two different features can share a key |
| Steps.JoinKeyOrder | scripts/bdd_inventory.go:271 | bytewise order of joined keys is lexicographic order of the pairs |
| Steps.SplitKeyIff | scripts/bdd_inventory.go:299-301 | splitting a feature key gives at least two parts, and they are its epic and feature if and only if neither holds a NUL |
| Steps.StepKeyInjective | scripts/bdd_inventory.go:284 | two parsed records share a step key if and only if they share status and text, NUL bytes in the text included |
| Steps.RecordLessIsKeyOrder | scripts/bdd_inventory.go:121-132 | the record sort is bytewise order on epic, feature, status and text strung together |
| Steps.CounterLessIsLegal | scripts/bdd_inventory.go:323-333 | the counter comparator is a strict weak order and ties exactly on equal count, status and text |
| Steps.CounterLessIsKeyOrder | scripts/bdd_inventory.go:323-333 | counters are ordered by count, highest first, then bytewise by step key |
| Steps.RankingIsStrict | scripts/bdd_inventory.go:323-333 | two counters of one list never tie |
| Steps.RankingsAgree | scripts/bdd_inventory.go:237-248 | the sorted counters of permuted records agree at every index on all but the sample |
| Summary.Summarize | scripts/bdd_inventory.go:183-211 | one row per epic that occurs, in ascending order, each with the numbers of its records, undefined and pending |
| Summary.SortedKeys | scripts/bdd_inventory.go:314-321 | the keys of a map in strictly ascending order, each once |
| Summary.StatusSplit | scripts/bdd_inventory.go:193-199 | over parsed records every total is undefined plus pending |
| Summary.TallyConcat | scripts/bdd_inventory.go:190-201 | the epic tallies of two concatenated lists add up |
| Summary.SummariesAgree | scripts/bdd_inventory.go:183-211 | the summary table is determined by the multiset of records |
| TopSteps.CountByStep | scripts/bdd_inventory.go:222-235 | the loop keeps for each step key the number of its records, their epics and the first record's fields |
| TopSteps.TopTable | scripts/bdd_inventory.go:213-259 | the table is the beginning of the sorted list of all step counters |
| TopSteps.TopTableIsOptimal | scripts/bdd_inventory.go:237-251 | exactly min(40, distinct steps) rows, strictly ordered, with true counts; every step left out is ordered after every row and occurs no more often |
| TopSteps.TopTablesAgree | scripts/bdd_inventory.go:222-251 | for permuted records the tables agree at every row on all but the sample |
| TopSteps.CounterConcat | scripts/bdd_inventory.go:222-235 | counting concatenated lists adds counts, unites epics and keeps the left sample |
| Details.FeatureSummary.Add | scripts/bdd_inventory.go:277-293 | the update in place turns a description of the records seen into a description of one more |
| Details.AddRecord | scripts/bdd_inventory.go:270-294 | one loop step keeps every feature's own object describing exactly that feature's records, other objects unchanged |
| Details.ListDetails | scripts/bdd_inventory.go:261-312 | one section per feature key in ascending key order, with its totals and its full ranked step list |
| Details.DetailsAgree | scripts/bdd_inventory.go:261-312 | for permuted records the sections agree on all but the samples |
| ViewAgreement.HeadingsAreFaithful | scripts/bdd_inventory.go:296-301 | a heading exists for exactly the pairs of epic and feature that occur |
| ViewAgreement.SectionHoldsItsPair | scripts/bdd_inventory.go:271-294 | a section counts exactly the records of the epic and the feature it names |
| ViewAgreement.HeadingsInPairOrder | scripts/bdd_inventory.go:296-301 | sections come in lexicographic order of epic and feature |
| ViewAgreement.SectionsFollowRecords | scripts/bdd_inventory.go:121-127 | the records of the sections, in section order, are the sorted record list: each section is one contiguous block |
| ViewAgreement.EpicTotalsAddUp | scripts/bdd_inventory.go:190-201 | each summary column adds up to all records of that column |
| ViewAgreement.FeatureTotalsAddUp | scripts/bdd_inventory.go:269-283 | each column of an epic's sections adds up to the epic's row |
| ViewAgreement.StepCountsAddUp | scripts/bdd_inventory.go:277-294 | each column of a section is the sum of its step counts with that status |
| ViewAgreement.StepCountAcrossSections | scripts/bdd_inventory.go:284-293 | a step's count over all records is the sum of its counts over all sections |
| ViewAgreement.EpicsAcrossSections | scripts/bdd_inventory.go:225-234 | the epic set of a step is the set of epics whose sections list it |
| ViewAgreement.TableMatchesDetails | scripts/bdd_inventory.go:213-312 | each table row agrees with the sections on count and epics; a listed step missing from the table is missing from a full table and sums to no more than any row |
| ViewAgreement.SampleOfFirstSection | scripts/bdd_inventory.go:225-234 | the table's sample of a step is the one shown by the first section that lists it |
| Samples.ReportDeterminedIff | scripts/bdd_inventory.go:174-181 | for every input, all runs print the same report if and only if no two records of the input differ in their sample only |
| Samples.SectionSampleIff | scripts/bdd_inventory.go:285-293 | the sample of a step in a section is the same in all runs if and only if all its records there carry one sample |
| Samples.RowSampleIff | scripts/bdd_inventory.go:225-234 | the sample of a table row is the same in all runs if and only if all records of its step in its least epic and feature carry one sample |
| Samples.SameNameTwoReports | scripts/bdd_inventory.go:100-119 | two files of one epic with one base name and one step text, each named by a line, always have two different reports |
| Samples.ReportIsNotDetermined | scripts/bdd_inventory.go:100-119 | two concrete input lines with two different reports |
| Inventory.Run | scripts/bdd_inventory.go:39-62 | a run ends in a failure, in the message that nothing was found, or in a report of records built from its lines |
| Inventory.RunsAgree | scripts/bdd_inventory.go:39-62 | runs on permuted lines end the same way and print the same report up to samples; exactly when a run fails or finds nothing |
| Inventory.StatusesSplitTotals | scripts/bdd_inventory.go:174-181 | for every input, every row and heading of the report has total = undefined + pending |
| Inventory.MaskedIff | scripts/bdd_inventory.go:174-181 | agreeing up to samples means agreeing on every other field of every row, heading and step |
| Inventory.SummaryCountsLines | scripts/bdd_inventory.go:190-201 | each summary cell is the number of input lines that stand for a record of that epic, and of status undefined or pending in those columns |
| Inventory.SectionCountsLines | scripts/bdd_inventory.go:269-283 | each number of a heading is the number of input lines of that epic and feature, and of status undefined or pending |
| Inventory.TableCountsLines | scripts/bdd_inventory.go:222-235 | a table row's count is the number of input lines with its status and text |
| Inventory.SectionStepCountsLines | scripts/bdd_inventory.go:284-293 | a section step's count is the number of input lines with its epic, feature, status and text |
| Inventory.YieldedIsReported | scripts/bdd_inventory.go:174-181 | every input line that stands for a record has its epic's row and its heading in the report |
| Inventory.RelativeLineIsReported | scripts/bdd_inventory.go:110-117 | a line of a file below the working directory is reported under the epic its relative path names |
| Inventory.ReportAddsUp | scripts/bdd_inventory.go:174-181 | for every input and column: the number of input lines, summary rows, sections and step counts add up level by level |
| Inventory.ReportIsConsistent | scripts/bdd_inventory.go:174-181 | for every input, table rows agree with the sections on count, epics and sample |
| Inventory.ReportIsUnique | scripts/bdd_inventory.go:174-181 | one sorted record list has exactly one report, samples included |
| Inventory.OutcomeExists | scripts/bdd_inventory.go:39-62 | every input has an outcome, so no statement about all outcomes is empty |
| Inventory.SectionPerFileIff | scripts/bdd_inventory.go:112-113 | there are at most as many sections as contributing files, and exactly as many if and only if no two of them share epic and base name |
| Inventory.ReportProvenance | scripts/bdd_inventory.go:106-118 | every step shown takes status, trimmed text and sample from one input line and the file line it names |
| Inventory.SampleReadsBack | scripts/bdd_inventory.go:116 | a status and a shown sample on one line read back as the shown path and line if and only if the path is canonical |

## Left out

- Printing: column layout, headings and the number formats of the tables; the report is the data that is printed.
- File access: opening files, scanner errors, the scanner's line splitting and its 64 KiB token limit; a file is a list of lines or unreadable, and a failing run is modelled by the path it names.
- `filepath.Rel` and `os.Getwd`: abstract functions of the world; Windows path separators are not modelled.
- Regular expressions in general: only this pattern and its preference order.
- 32-bit platforms, where `strconv.Atoi` has a smaller range; counters are unbounded and do not wrap.
- The algorithm inside `sort.Slice` and `sort.Strings`: `SortSlice` is an insertion sort with the same contract, and the results use the contract only. A given Go release sorts a given slice in one way; the runs in `Samples` range over what the contract and the map order allow.
- Aliasing of the epic sets in `printTopSteps`: the map entry holds the set as a value, since no two entries share one.
- The generated protobuf, gRPC and gateway code and the backend services of the repository.

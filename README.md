# Prospect CSV tools, modelled in Dafny

The repository holds two small command-line pipelines over CSV files of
sales prospects.

* **The combiner** (`Main2.combineProspectsCsvFiles`) reads every CSV file
  of a prospects folder and writes one combined file. It works as follows:
  * The header line of the first file that can be opened becomes the master
    header line. A later file with different headers draws a warning but is
    still read by name against the master headers.
  * Each record contributes its `email`, or its `personal_email` when
    `email` is blank. A record with neither is skipped.
  * The contributed email is trimmed and lower-cased into a dedup key. A key
    already seen makes the record a duplicate, which is skipped.
  * Every other record is printed, one value per master header. A column
    named `email` in any letter case gets the contributed email.
* **The allowlist filter** (`Main.main`, `readCheckedEmails`,
  `findEmailColumn`, `filterScrapedFile`) works in two steps:
  * It reads an allowlist of verified emails from the second column of
    `checked.csv`, dropping blank values and the sentinels `ok` and
    `ELV Result`.
  * It copies the rows of `scraped.csv` whose email is allowlisted, keeping
    only the columns that are neither blank nor in a fixed removal list.

The Dafny project has these modules:

| file | module | contents |
|---|---|---|
| `wrappers.dfy` | `Wrappers` | `Option` and `Result` |
| `records.dfy` | `Records` | a parsed CSV record, read by column name |
| `text.dfy` | `Text` | Java's `trim`, `isEmpty` after trim, `toLowerCase`, `equalsIgnoreCase` and `contains` on strings, with their lemmas |
| `combiner.dfy` | `Combiner` | the combiner |
| `filter.dfy` | `Filter` | the allowlist filter |
| `combiner_examples.dfy`, `filter_examples.dfy` | | worked examples proved on concrete inputs |

Both pipelines are modelled twice:

* as a specification: left folds over the files and rows (`Combine`,
  `CheckedEmails`, `FilterSpec`);
* as the loop program of the source: methods with `while` loops whose
  invariants tie each loop's state to the fold over the prefix read so far.

Each method's postcondition is that it computes the specification. The
lemmas then state what the specification guarantees.

Inputs arrive already parsed:

* A file is either `Unreadable` (its `IOException` is caught) or a header
  list with rows.
* A row maps column names to values. A name that is not a key is a column
  the record lacks. That is where Commons CSV's `record.get(name)` throws
  `IllegalArgumentException`:
  * the combiner catches it and reads `""`;
  * the filter does not catch it, so the run stops. This is
    `Err(MissingField(row, column, written))`, where `written` holds the
    records already printed.
* A failure of `findEmailColumn` is `Err(NoEmailColumn(headers))`.

Behaviour of the code that the model keeps as written:

* The filter's output headers are the data file's own headers, filtered
  (`Main.java` 125-132). They are not the allowlist file's headers.
* The filter reads a kept column that a record lacks as a fatal error.
  It does not read it as an empty value.
* The combiner looks up `email` and `personal_email` by exact name, but
  fills every column named `email` in any case with the chosen email. So a
  file whose column is spelled `Email` has every record without a non-blank
  `personal_email` skipped for want of an email; the others are printed
  with their personal address under `Email`.
  `CombinerExamples.CapitalisedEmailColumn` states both cases.
* Rows of the filter with a blank email are dropped without being counted
  separately; they only count in `totalRows`.

## Model

| member | source | states |
|---|---|---|
| Text.TrimShape | src/main/java/org/example/Main2.java:144 | `trim` returns a slice `s[a..b]` of its input, where every character before `a` and from `b` on is at or below U+0020. It leaves no character at or below U+0020 at either end. It yields `""` exactly when every character is at or below U+0020, which is when `trim().isEmpty()` holds. |
| Text.NormalizedShape | src/main/java/org/example/Main2.java:154 | The dedup key `trim().toLowerCase()` is already trimmed and lower-case, so normalizing it again changes nothing. It is empty exactly when the raw value is blank. |
| Text.LowerIdempotent | src/main/java/org/example/Main2.java:154 | Lower-casing twice equals lower-casing once. |
| Text.ContainsAt | src/main/java/org/example/Main.java:199 | `s.contains(part)` holds exactly when `part` starts at some position of `s`. |
| Text.ContainsLength | src/main/java/org/example/Main.java:199 | A string contains only parts no longer than itself. |
| Combiner.ChooseEmail | src/main/java/org/example/Main2.java:143-151 | No email exactly when `email` and `personal_email` are both blank or missing. A non-blank `email` is chosen as it is; otherwise a non-blank `personal_email` is. A chosen email is never blank. |
| Combiner.DecideRow | src/main/java/org/example/Main2.java:143-162 | A record is skipped for no email exactly when both fields are blank. It is a duplicate exactly when it has a chosen email whose normalized form is already seen. An accepted record carries the chosen email, and its key is the normalized chosen email, is not yet in the seen set, is non-empty and is already normalized. |
| Combiner.ProjectRow | src/main/java/org/example/Main2.java:165-184 | A printed record has one value per master header. Under a header equal to `email` ignoring case it holds the chosen email. Elsewhere it holds the record's value, or `""` when the record lacks the column. |
| Combiner.ClassifyRecord | src/main/java/org/example/Main2.java:125-159 | The email checks on one record decide exactly as `DecideRow`: no email exactly when both fields are blank, a duplicate exactly when the chosen email's key is already seen, otherwise accepted with that email and key. |
| Combiner.BuildRecordValues | src/main/java/org/example/Main2.java:165-184 | The column loop builds exactly `ProjectRow`. |
| Combiner.CopyRecords | src/main/java/org/example/Main2.java:122-189 | The record loop of one file leaves the run exactly as the fold over that file's rows. |
| Combiner.CombineProspectsCsvFiles | src/main/java/org/example/Main2.java:68-223 | The file loop computes `Combine(files)`. The headers are those of the first readable file. The number of unique emails equals the records printed and `totalRecords`. Accepted, skipped and duplicate records add up to every record read. The seen set is the set of normalized emails of all records read. With master headers, the printed records are the first occurrences of each normalized email, projected. |
| Combiner.RowStepFacts | src/main/java/org/example/Main2.java:122-189 | One record keeps the run invariant, which has four parts. Keys are distinct, normalized and non-empty. The seen set equals the keys. There is one key per printed record. Every printed record is as wide as the master headers. The seen set only grows, the record is counted exactly once, and the headers and warnings are untouched. |
| Combiner.RowStepEffect | src/main/java/org/example/Main2.java:143-186 | A record without email adds one to `skippedRecords` only; a duplicate adds one to `duplicateRecords` only. Neither changes the seen set, the keys, the printed records or `totalRecords`. An accepted record adds its fresh key to the seen set, appends its projection and adds one to `totalRecords`, leaving the other counters. |
| Combiner.RowsFoldFacts | src/main/java/org/example/Main2.java:122-189 | A file's records keep the run invariant and add exactly their number to the three counters. |
| Combiner.FileStepFacts | src/main/java/org/example/Main2.java:93-203 | One file keeps the invariant. The first readable file fixes the headers and later ones never change them. A readable file counts as processed and an unreadable one adds nothing. |
| Combiner.FilesFoldFacts | src/main/java/org/example/Main2.java:89-204 | After any sequence of files the invariant holds. The headers are those of the first readable file, `processedFiles` counts the readable files, and every record read is counted once. |
| Combiner.CombineDedup | src/main/java/org/example/Main2.java:153-162 | The keys the run accepted, one per printed record, are pairwise distinct. The seen set is exactly the set of those keys, so the unique-email count equals the records combined. |
| Combiner.SeenKeysMembers | src/main/java/org/example/Main2.java:153-161 | A normalized email is in the reference seen set exactly when some record read carries it as its chosen email. |
| Combiner.FirstOccurrenceStep | src/main/java/org/example/Main2.java:153-161 | A record is appended to the first occurrences exactly when it has an email and no earlier record has the same normalized email. |
| Combiner.CombineFirstOccurrences | src/main/java/org/example/Main2.java:122-189 | Over all records of the readable files in order, the seen set is the set of their normalized emails. The printed records are, one for one and in order, the first occurrences of each normalized email. Each is projected onto the master headers with that record's chosen email, and their number is `totalRecords`. |
| Combiner.CombineFirstOccurrenceKeys | src/main/java/org/example/Main2.java:153-161 | The normalized emails of the first occurrences are pairwise distinct, and a key is in the seen set exactly when it is one of them. |
| Combiner.CombineAccounting | src/main/java/org/example/Main2.java:143-198 | Combined, skipped and duplicate records sum to the records of all readable files. `processedFiles` is the number of readable files. |
| Combiner.CombineShape | src/main/java/org/example/Main2.java:100-106 | The master headers are those of the first readable file, and every printed record has one value per master header. With no readable file nothing is printed and no file is processed. |
| Combiner.CombineMismatch | src/main/java/org/example/Main2.java:107-116 | File `i` draws the header warning exactly when it is readable, an earlier file fixed the headers, and its own headers differ from them. |
| Combiner.FileStepMismatch | src/main/java/org/example/Main2.java:107-116 | A file adds itself to the warning list exactly when it is readable and its headers differ from existing master headers. Its records leave the list alone. |
| CombinerExamples.ScenarioKeys | src/main/java/org/example/Main2.java:154 | `a@X.com` normalizes to `a@x.com`. The scenario's addresses are not blank, and `""` is. |
| CombinerExamples.ScenarioProjections | src/main/java/org/example/Main2.java:165-184 | For headers `email,name`, the chosen email fills the `email` column and `name` is copied. |
| CombinerExamples.ScenarioFirstFile | src/main/java/org/example/Main2.java:100-189 | The first file fixes the headers, prints record A and skips record B, which has no email. |
| CombinerExamples.ScenarioSecondFile | src/main/java/org/example/Main2.java:107-189 | A second file with extra `personal_email` is flagged as mismatched. Its record C (`a@X.com`) is a duplicate of A. Its record D is accepted through `personal_email` and printed as `b@y.com,D`. |
| CombinerExamples.TwoFileScenario | src/main/java/org/example/Main2.java:68-223 | The whole two-file run prints `a@x.com,A` then `b@y.com,D`, with 1 skipped, 1 duplicate, 2 files processed and file 1 flagged. |
| CombinerExamples.EmailBeatsPersonalEmail | src/main/java/org/example/Main2.java:143-161 | With both `email` and `personal_email` present, `email` is chosen. Once its key is seen the record is a duplicate, although its personal address is new. |
| CombinerExamples.CapitalisedEmailColumn | src/main/java/org/example/Main2.java:129-169 | A record with only an `Email` column is skipped as email-less. A record that also has a non-blank `personal_email` is accepted with that address, which the projection prints under `Email`. |
| Filter.ReadCheckedEmails | src/main/java/org/example/Main.java:76-100 | The record loop builds exactly the allowlist `CheckedEmails(records)`. |
| Filter.CheckedEmailsMembers | src/main/java/org/example/Main.java:86-96 | An email is allowlisted exactly when some record with more than one field has, at index 1, a non-blank value other than `ok` or `ELV Result` (ignoring case) that normalizes to it. |
| Filter.CheckedEmailsShape | src/main/java/org/example/Main.java:90-93 | Every allowlist entry is non-empty, trimmed and lower-case, and is neither `ok` nor `ELV Result` in any case. |
| Filter.FirstListedFacts | src/main/java/org/example/Main.java:191-195 | The priority search finds nothing exactly when no listed name is a header. Otherwise it finds the earliest listed name that is a header. |
| Filter.FirstMentioningFacts | src/main/java/org/example/Main.java:198-202 | The fallback search finds nothing exactly when no lower-cased header contains `email`. Otherwise it finds the earliest header that does. |
| Filter.FindEmailColumnFacts | src/main/java/org/example/Main.java:187-206 | The column found is a header. If a priority name is present it is the earliest in the priority list, whatever the header order. Otherwise it is the earliest header mentioning `email`. The error comes exactly when both searches fail, and carries the headers. |
| Filter.KeptHeadersInOrder | src/main/java/org/example/Main.java:128-132 | The kept headers are an order-preserving subsequence of the original headers. |
| Filter.KeptHeadersMembers | src/main/java/org/example/Main.java:128-132 | A header is kept exactly when it is an original header, not blank, and not exactly one of the removed names. |
| Filter.KeptHeadersCount | src/main/java/org/example/Main.java:128-132 | A kept header occurs as many times as among the originals, and a dropped one not at all. |
| Filter.FilterHeaders | src/main/java/org/example/Main.java:125-132 | The header loop builds exactly `KeptHeaders`. |
| Filter.ProjectKeptFacts | src/main/java/org/example/Main.java:158-162 | A record projects successfully exactly when it has every kept column. It then holds the record's value under each kept header, in order. Otherwise the error names the first kept column the record lacks. |
| Filter.BuildFilteredRecord | src/main/java/org/example/Main.java:158-162 | The column loop computes exactly `ProjectKept`, stopping at the first missing column. |
| Filter.ScanRowsSucceeds | src/main/java/org/example/Main.java:145-169 | The row loop finishes exactly when every row has the email column and every selected row has all kept columns. |
| Filter.ScanRowsOutput | src/main/java/org/example/Main.java:145-169 | A finished row loop prints exactly the selected rows (non-blank email whose normalized form is allowlisted), projected, in order. `totalRows` counts every row and `filteredRows` counts the printed ones. |
| Filter.ScanRowsFailure | src/main/java/org/example/Main.java:145-169 | A failed row loop stops at the first row it cannot read. The records of the selected rows before it have already been printed. |
| Filter.ExpectedShape | src/main/java/org/example/Main.java:152-167 | No more records are printed than rows read, and each is as wide as the kept header line. |
| Filter.CopyVerifiedRows | src/main/java/org/example/Main.java:141-169 | The row loop computes exactly the fold `ScanRows`, including where it stops. |
| Filter.FilterSpecErrors | src/main/java/org/example/Main.java:113-177 | The no-email-column error comes exactly when `findEmailColumn` fails. Every other failure is a column missing from a row. |
| Filter.FilterSpecOutput | src/main/java/org/example/Main.java:113-177 | A successful filter prints the kept headers, then exactly the selected rows projected onto them, each as wide as the headers. It counts every row, and counts the printed ones, which are no more than the rows. |
| Filter.FilterScrapedFile | src/main/java/org/example/Main.java:113-177 | The method computes `FilterSpec`. Output headers are original, non-blank and not removed. The printed count is at most `totalRows`, which equals the number of rows. |
| Filter.RunFilter | src/main/java/org/example/Main.java:38-65 | The run filters the data file against the allowlist read from the checked file. No output header is blank or one of `Followers`, `Following`, `Tweets`, `Profile picture link`, `Screen name`, `Bio`. |
| FilterExamples.NoEmailColumnExample | src/main/java/org/example/Main.java:204-205 | A header line without an email-like column yields the schema error listing the headers. |
| FilterExamples.PriorityOrderExample | src/main/java/org/example/Main.java:189-195 | With headers `Email,email`, the column is `email`: the priority list decides, not the header order. |
| FilterExamples.SentinelValues | src/main/java/org/example/Main.java:90-93 | `ok` and `ELV Result` are rejected. ` A@x.COM ` is accepted and normalized to `a@x.com`. |
| FilterExamples.AllowlistExample | src/main/java/org/example/Main.java:86-96 | A checked file with both sentinels, one padded mixed-case address and a one-field record yields the allowlist `{a@x.com}`. |

## Left out

- File system access is not modelled:
  - the check that the prospects folder exists (`Main2.java` 69-73);
  - the directory listing and its order (files are given as a sequence);
  - opening the readers and writers;
  - the desktop and home paths of `Main.main`.
- CSV parsing and printing are not modelled: quoting, the parser's own trimming of values, empty-line skipping, and duplicate or missing header names. A duplicated header name keeps one value in the row map.
- Console output, including the per-file counters `fileRecords`, `fileSkipped` and `fileDuplicates`, is not modelled. Those counters are only printed.
- `toLowerCase` and `equalsIgnoreCase` are modelled on ASCII letters only. Java applies Unicode case mapping.
- An I/O error while reading records in the middle of a file is not modelled. Neither are the partly printed records it leaves behind.
- The filter creates its output file before `findEmailColumn` runs (`Main.java` 122 and 135). So a schema failure leaves an empty output file; file creation is not modelled.
- `main` catches `IOException` (`Main.java` 61-64), but the `RuntimeException` of `findEmailColumn` and the `IllegalArgumentException` of `record.get` escape it. Both are the `Err` results of `Filter.RunFilter`.
- `null` values are not modelled: a parsed record never yields `null` for a field it has.
- Combiner.CombineProspectsCsvFiles: the counters are unbounded naturals. Java's 32-bit `int` wrap-around after 2^31 - 1 records is not modelled.
- Filter.FilterScrapedFile: `totalRows` and `filteredRows` are unbounded naturals. Java's 32-bit `int` wrap-around is not modelled.

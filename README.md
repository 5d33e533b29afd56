# Thapar old-papers downloader: a Dafny model of its data handling

The downloader drives a browser to the Thapar University portal's archive of
old question papers. It searches by course code or course name, reads the
results table into paper records, and lets the user choose records, by
indices and ranges or "all". It then downloads each chosen paper into a
directory per course, and can merge each course's files into one PDF.

This project models the parts of that script that decide things:

- normalising course codes and file names;
- picking the result rows out of the page's tables and turning rows into records;
- the readiness test the search waits on;
- locating the search input;
- parsing the selection answer;
- the exam-type filter;
- grouping by course directory, resolving links, naming files, and the merge decision;
- the `done`/`total` counters of the download loop;
- one whole run, from the command line to the download report.

The browser, the network and the file system are replaced by plain values:

- **The page.** A page is a sequence of tables. A table is a sequence of rows. A row holds its cell texts and its links.
- **The readiness polls.** The wait sees one snapshot of the page per poll, up to the time limit.
- **The input locators.** Each locator strategy is given as the list of elements it matched.
- **The download.** Saving URL `u` to path `d` is a caller-supplied `fetch(u, d)` that reports success or failure.
- **The user.** What the user types is given as an `Answers` value.

Modules, one file each:

| file | module | contents |
|---|---|---|
| `wrappers.dfy` | `Wrappers` | `Option` |
| `seqs.dfy` | `Seqs` | order-preserving `Filter`, `Map`, `Dedup`, and the grouping count with its partition lemma |
| `text.dfy` | `Text` | ASCII character classes, `Lower`/`Upper`, `Strip`, whitespace-run replacement, `Split` |
| `naming.dfy` | `Naming` | `normalize_course_code`, `normalize_filename`, the search query |
| `extraction.dfy` | `Extraction` | `collect_results_rows`, `row_to_record` |
| `navigation.dfy` | `Navigation` | the input finders, the readiness test, the wait |
| `selection.dfy` | `Selection` | Python's `int()` on the answer's pieces, `pick_indices` |
| `pipeline.dfy` | `Pipeline` | the exam filter, the choice, grouping, links, file names, the download loop |
| `downloader.dfy` | `Downloader` | command-line arguments, the query source, the whole run |

The command line is parsed by `Downloader.ParseArgs`. Two or more arguments
make the run unattended. In that mode every record is selected and the merge
flag comes from the third argument. The search query still comes from the
command line only when the first argument is non-empty. With an empty first
argument, the search kind and query are asked for, but selection stays
unattended. `Downloader.QueryOf` and `Downloader.Run` model this as written.

## Model

| member | source | states |
|---|---|---|
| Naming.NormalizeCourseCode | exam-parser/tiet_papers_downloader.py:69-81 | Empty input gives empty output. The result has no hyphen, no space and no lower-case ASCII letter. Its length is the input's minus the removed hyphens and spaces. |
| Naming.NormalizeCourseCodeReference | exam-parser/tiet_papers_downloader.py:79-80 | The normalised code is the input with every hyphen and space dropped and each remaining character upper-cased, in order. |
| Naming.NormalizeWithoutSeparators | exam-parser/tiet_papers_downloader.py:79-80 | A code with no hyphen and no space is only upper-cased. |
| Naming.NormalizeCourseCodeExamples | exam-parser/tiet_papers_downloader.py:74 | 'ucs503' and 'ucs-503', and 'ucs 503' with a space, all become 'UCS503'. |
| Naming.NormalizeCourseCodeUpperExample | exam-parser/tiet_papers_downloader.py:74 | 'UCS-530' becomes 'UCS530'. |
| Naming.NormalizeCourseCodeIdempotent | exam-parser/tiet_papers_downloader.py:79-80 | Normalising a normalised code changes nothing. |
| Naming.NormalizeIgnoresSeparator | exam-parser/tiet_papers_downloader.py:79-80 | Inserting a hyphen or a space anywhere does not change the normalised code ('ucs-503' and 'ucs503' agree). |
| Naming.NormalizeIgnoresCase | exam-parser/tiet_papers_downloader.py:79-80 | Lower-casing the input first does not change the normalised code. |
| Naming.NormalizeFilename | exam-parser/tiet_papers_downloader.py:204-206 | The result is never empty. Every character is a word character, '.' or '-', and none is whitespace. |
| Naming.NormalizeFilenameFallback | exam-parser/tiet_papers_downloader.py:205-206 | A name with no word character, '.' or '-' (whitespace and other characters only) becomes "file". |
| Naming.NormalizeFilenameKeepsMarks | exam-parser/tiet_papers_downloader.py:205-206 | When the name has a word character, '.' or '-', its word characters other than '_', its dots and its hyphens survive unchanged and in order. |
| Naming.NormalizeFilenameIdempotent | exam-parser/tiet_papers_downloader.py:204-206 | Sanitising a sanitised name changes nothing. |
| Naming.NormalizeFilenameJoinsWords | exam-parser/tiet_papers_downloader.py:206 | Two words of safe characters separated by a run of whitespace become the two words joined by a single '_'. |
| Naming.NormalizeFilenameExample | exam-parser/tiet_papers_downloader.py:204-206 | "Data Structures" becomes "Data_Structures". |
| Naming.MakeQuery | exam-parser/tiet_papers_downloader.py:420-422 | Option "2" searches by name and anything else by code. A code query is the normalised form of the trimmed value. A name query is the trimmed value. |
| Text.Strip | exam-parser/tiet_papers_downloader.py:225 | Python's `str.strip()`: the result neither starts nor ends with whitespace. |
| Text.StripTrimsEnds | exam-parser/tiet_papers_downloader.py:225 | The stripped text is the contiguous middle of the input that is left once its leading and trailing whitespace is removed: everything before it and after it is whitespace, and its own ends are not. |
| Text.StripPadded | exam-parser/tiet_papers_downloader.py:225 | `str.strip()` removes whitespace padding around text whose own ends are not whitespace, and nothing else. |
| Text.ReplaceRunsJoin | exam-parser/tiet_papers_downloader.py:206 | `re.sub(r"\s+", sep, …)` is compositional: a whitespace run between a text ending in a non-space and a text starting with a non-space becomes one separator between their replacements. |
| Text.Lower | exam-parser/tiet_papers_downloader.py:225 | Python's `str.lower()` on ASCII: same length, each character lower-cased, no upper-case letter left. |
| Text.Split | exam-parser/tiet_papers_downloader.py:268 | Python's `str.split(",")`: at least one piece, no piece holds the separator, and joining the pieces gives back the input. |
| Extraction.TableRows | exam-parser/tiet_papers_downloader.py:218-236 | A table's rows after its first that have at least five cells and no header label, in order. Every row kept is such a data row, every such row is kept, and a table of fewer than two rows yields none. |
| Extraction.TableRowsExact | exam-parser/tiet_papers_downloader.py:221-235 | Counted with multiplicity, a table's rows are each of its data rows after the first, as often as it occurs there, and no other row. |
| Extraction.FirstGoodTableUnique | exam-parser/tiet_papers_downloader.py:237-239 | Only one table can be the first table that yields rows. |
| Extraction.ScanTable | exam-parser/tiet_papers_downloader.py:221-235 | The loop over one table of at least two rows collects exactly the table's data rows. |
| Extraction.CollectResultsRows | exam-parser/tiet_papers_downloader.py:208-242 | The result is empty exactly when no table yields a row. Otherwise it is all the rows of the first table that yields any, and each of them is a data row. |
| Extraction.DownloadHrefFirst | exam-parser/tiet_papers_downloader.py:255-258 | The link kept is the `href` of the first link whose trimmed, lower-cased text is "download" (empty when it has no `href`). Without such a link it is empty. |
| Extraction.RowToRecord | exam-parser/tiet_papers_downloader.py:245-259 | The loop over the links builds exactly `RecordOf(row)`: the first five cells trimmed (empty when missing), and the link of the first download link. |
| Extraction.RecordsOf | exam-parser/tiet_papers_downloader.py:455-458 | One record per row, in row order, each the `RecordOf` its row. |
| Extraction.ExtractRecords | exam-parser/tiet_papers_downloader.py:449-458 | The records are those of the collected rows, in order. The rows are empty exactly when no table yields one. |
| Navigation.FindInput | exam-parser/tiet_papers_downloader.py:325-347 | The result is `None` exactly when every strategy found nothing. Otherwise it is the first element found by the first strategy that found any. |
| Navigation.ReadyWhenTwoRowsExtractable | exam-parser/tiet_papers_downloader.py:113-119 | A page with a table that yields two records always passes the readiness test. |
| Navigation.ReadyWithoutRecords | exam-parser/tiet_papers_downloader.py:113-119 | The converse fails: a page can pass the test although no table yields a record. |
| Navigation.WaitForResults | exam-parser/tiet_papers_downloader.py:83-144 | The wait succeeds exactly when some poll shows the banner, a row whose normalised first cell is the query, or more than one row with cells. |
| Navigation.RowSelectorOpenExactly | exam-parser/tiet_papers_downloader.py:92 | Once the query is spliced between apostrophes, the selector has no double quote and an odd number of apostrophes exactly when the query itself has no double quote and an odd number of apostrophes. Such a selector leaves a string literal open and cannot be evaluated. This condition is sufficient for the selector to fail, not necessary. |
| Navigation.ReadyAsWrittenWellFormed | exam-parser/tiet_papers_downloader.py:113-127 | For a query without an apostrophe, the wait as written succeeds exactly when the intended one does. |
| Navigation.ApostropheNeverReady | exam-parser/tiet_papers_downloader.py:92 | A query with no double quote and an odd number of apostrophes leaves the row selector's literal open, and never gets past the wait as written, even when a poll shows the banner the intended wait accepts. |
| Navigation.SingleApostrophe | exam-parser/tiet_papers_downloader.py:92 | A query with one apostrophe and no double quote, such as `Engineer's Drawing`, is such a query. |
| Selection.ParseIntDecimal | exam-parser/tiet_papers_downloader.py:271-275 | `int()` reads back any decimal numeral. |
| Selection.ParseIntNegative | exam-parser/tiet_papers_downloader.py:271-275 | `int()` reads a minus sign followed by a numeral as the negative value. |
| Selection.ParsePart | exam-parser/tiet_papers_downloader.py:269-277 | An accepted piece is inside [1, n]. A single index k is a trimmed piece with no '-' that `int()` reads as k. A range lo..hi is a trimmed piece whose texts before and after its first '-' `int()` reads as lo and hi. |
| Selection.ParseParts | exam-parser/tiet_papers_downloader.py:268-277 | The answer's pieces are accepted exactly when every piece is. Then there is one part per piece, in order, each the part its piece denotes, all inside [1, n]. |
| Selection.ParsePartAccepts | exam-parser/tiet_papers_downloader.py:269-277 | Conversely, a piece is accepted whenever it is well formed and in range. A trimmed piece without '-' that `int()` reads as k, with 1 <= k <= n, is the index k. A trimmed piece whose two halves around its first '-' `int()` reads as lo and hi, with 1 <= lo <= hi <= n, is the range lo..hi. |
| Selection.ParsePartPadded | exam-parser/tiet_papers_downloader.py:269 | Whitespace around a piece is ignored. |
| Selection.ParsePartRange | exam-parser/tiet_papers_downloader.py:270-273 | The piece "lo-hi" is the range lo..hi when 1 <= lo <= hi <= n, and is rejected otherwise. |
| Selection.Select | exam-parser/tiet_papers_downloader.py:263-279 | An accepted answer gives strictly increasing indices, all in [1, n]. |
| Selection.SelectAll | exam-parser/tiet_papers_downloader.py:264-265 | "a", "all" or "*" (after trimming and lower-casing) selects 1..n. |
| Selection.SelectExactly | exam-parser/tiet_papers_downloader.py:267-278 | Any other accepted answer selects exactly the union of its pieces. |
| Selection.SelectSingle | exam-parser/tiet_papers_downloader.py:275-277 | The numeral k with 1 <= k <= n selects [k]. |
| Selection.SelectOutOfRange | exam-parser/tiet_papers_downloader.py:276 | A numeral below 1 or above n is rejected. |
| Selection.SelectBadRange | exam-parser/tiet_papers_downloader.py:272 | A range with lo < 1, hi > n or lo > hi rejects the whole answer. |
| Selection.SelectRange | exam-parser/tiet_papers_downloader.py:270-273 | "lo-hi" with 1 <= lo <= hi <= n selects exactly lo..hi. |
| Selection.SpacedExample | exam-parser/tiet_papers_downloader.py:263-269 | The same answer typed with a space after the comma, `1, 3-5`, also selects [1, 3, 4, 5]. |
| Selection.SelectExample | exam-parser/tiet_papers_downloader.py:263 | Among five records, the prompt's example answer `1,3-5` selects [1, 3, 4, 5]. |
| Selection.PickIndices | exam-parser/tiet_papers_downloader.py:263-280 | The loop over the pieces computes `Select` of the answer. |
| Selection.PickFromAnswers | exam-parser/tiet_papers_downloader.py:261-280 | The prompt is repeated until an answer is accepted. The result is `None` exactly when every answer is rejected; otherwise it is the selection of the first accepted answer. |
| Pipeline.FilterExamTypeExact | exam-parser/tiet_papers_downloader.py:461-462 | A filter other than "all" keeps, in order, exactly the records whose exam type equals it, each as many times as it occurs in the input. |
| Pipeline.ChooseAll | exam-parser/tiet_papers_downloader.py:469-471 | Choosing indices 1..n keeps every record, in order. |
| Pipeline.Total | exam-parser/tiet_papers_downloader.py:485 | `total` is 0 exactly when no chosen record has a link, and equals the number chosen exactly when every one has. |
| Pipeline.ResolveHrefProperties | exam-parser/tiet_papers_downloader.py:495 | A link starting with '/' is prefixed with the root URL. Any other link is kept. Resolving twice changes nothing. |
| Pipeline.DestPathOneLevel | exam-parser/tiet_papers_downloader.py:482-496 | Course directory and file name add no '/' beyond the portal's own code, year, semester and type texts. |
| Pipeline.KeptFilesOfGroup | exam-parser/tiet_papers_downloader.py:504-515 | Of the paths this run saved to in a course directory, only the merged file remains listed when merging was asked for and at least two files were saved; otherwise every saved path remains, in order. |
| Pipeline.OutcomesOf | exam-parser/tiet_papers_downloader.py:488-515 | One outcome per course directory, in directory order. |
| Pipeline.GroupRecords | exam-parser/tiet_papers_downloader.py:480-483 | The directory keys are the distinct keys of the chosen records, in first-appearance order. Each key's group is exactly the chosen records with that key, in order. |
| Pipeline.DownloadGroup | exam-parser/tiet_papers_downloader.py:489-515 | The files saved are the destinations of the linked records that were fetched, in order. A merged file is made exactly when merging was asked for and more than one file was saved. |
| Pipeline.GroupFetchedAgree | exam-parser/tiet_papers_downloader.py:488-497 | Inside a course directory, saving under the directory key is saving under the record's own key. |
| Pipeline.FetchedWithinTotal | exam-parser/tiet_papers_downloader.py:485-503 | `done` never exceeds `total`, and equals it exactly when every linked record was fetched. |
| Pipeline.DownloadAll | exam-parser/tiet_papers_downloader.py:480-503 | The keys are the distinct keys, and the outcomes are those of the groups. `total` counts the linked records, and `done` counts the chosen records that were fetched (the groups partition the choice). |
| Downloader.ParseArgs | exam-parser/tiet_papers_downloader.py:408-419 | At least two arguments make the run unattended, taking option and value from them; otherwise the option is empty. Merging holds exactly when a third argument lower-cases to "true". A fourth argument is the exam filter. |
| Downloader.QueryOf | exam-parser/tiet_papers_downloader.py:420-430 | The query is by code unless the option (or the trimmed answer) is "2". The query text comes from the command-line value when an option was given, and from the typed answer otherwise: normalised after trimming for a code, trimmed for a name. |
| Downloader.OfferedRecords | exam-parser/tiet_papers_downloader.py:449-466 | "No results" happens exactly when no table yields a row. Otherwise the records offered are those of the first table that yields rows, in order, after the exam-type filter. |
| Downloader.ChooseRecords | exam-parser/tiet_papers_downloader.py:468-479 | Unattended: every record, merge from the flag. Interactive: the records of the first accepted answer (every earlier answer was rejected), merge when the trimmed, lower-cased answer is "y". Nothing is chosen only when every answer is rejected. |
| Downloader.ReadAndDownload | exam-parser/tiet_papers_downloader.py:449-517 | Once results have loaded: no results exactly when no table yields a row; otherwise the offered records are the filtered records of the first good table, and the run ends with no matching type exactly when they are empty, with no selection when every answer is rejected, or with the grouping, outcomes and counters of the first accepted choice. |
| Downloader.Run | exam-parser/tiet_papers_downloader.py:400-517 | Each way the run ends, with its condition: a missing input, a time-out, no results, no record of the requested type, no accepted selection. The offered records are the filtered records of the first good table; an interactive choice is the first accepted answer's. A finished run reports the grouping, the outcomes, and `done <= total`. |

## Left out

- Browser control is not modelled: starting Chrome, opening the old-papers page, typing and submitting the query (`fill_and_submit`, `click_following_submit`), `time.sleep`, and waiting for loading indicators to disappear. The model sees only what the page shows at each poll and at the end.
- `Downloader.Run`: the initial 30-second wait for either input field is modelled only by its outcome. The field is looked up once and no retry happens over time.
- `Navigation.WaitForResults`: a finite list of polls stands for the time limit. Exceptions raised while evaluating the `until` predicate are not modelled; the row selector always evaluates (the corrected behaviour, see Findings).
- Downloader.Run: it waits with the corrected `Navigation.WaitForResults`, not with the wait as written. For a query whose row selector fails (such as `Engineer's Drawing`), the model goes on to read the results where the program as written reports "did not load" (see Findings).
- Navigation.ReadyAsWritten: defined only for queries without an apostrophe, or whose row selector leaves a string literal open (no double quote and an odd number of apostrophes). Other splices are not modelled. Some are valid XPath with a meaning of their own (`a' or 'b`). Others are malformed (`x'y'z`, `"'`) and also make the wait as written fail.
- `Navigation.ResultsReady`: the banner test `contains(., '…')` is a boolean of the snapshot. XPath text matching is not modelled.
- The whole page and its sub-elements are abstracted as tables of rows of cell texts and links. Cells nested inside cells are not modelled.
- `requests_session_from_driver` and `download_pdf` are not modelled: cookie transfer, HTTP streaming, progress bars and file writes. A download is the deterministic `fetch(url, dest)`, and any exception counts as failure.
- PDF merging and deleting the merged files are not modelled, because they are library and file-system calls. `Pipeline.KeptFilesOfGroup` assumes every deletion succeeds and that the merger raises nothing.
- Pipeline.KeptFilesOfGroup: it lists the paths this run saved to, not the directory's contents. A failed download may leave a partial or empty file at its destination, because the file is opened before the body is streamed; that file is not listed and not deleted. Records whose file names coincide save to the same path, so the later download overwrites the earlier one while the path is listed, merged and counted in `done` twice.
- Printing and the `KeyboardInterrupt` handler are not modelled.
- The interactive selection prompt repeats forever in the source. The model gives it a finite list of answers, and running out means no selection (end of input).
- Text handling is restricted to ASCII. Python's `\w`, `\s`, `isspace`, `lower` and `upper` on non-ASCII characters are not modelled.
- `Selection.ParseInt` models `int()` as surrounding whitespace, an optional sign and ASCII digits. Underscores between digits and non-ASCII digits are not accepted.
- `Pipeline.DownloadAll` takes the directory-key function as a parameter, and `Downloader.Run` passes `GroupKey`.
- The FastAPI backend and the web front end are not part of this model.

## Findings

| source | as written | input that shows it | evidently intended | confidence | as-written member | corrected member |
|---|---|---|---|---|---|---|
| exam-parser/tiet_papers_downloader.py:92 | The row selector splices the query between apostrophes without escaping it. When the query has no double quote and an odd number of apostrophes, the selector leaves a literal open; evaluating it raises, either during the wait or in the report after it, and the wait returns False. | A name search for a course whose name has no double quote and an odd number of apostrophes, e.g. `Engineer's Drawing`, with the results banner showing: "did not load" is reported. | The wait succeeds when any readiness signal holds, whatever the query text. | medium, not executed | Navigation.ApostropheNeverReady | Navigation.WaitForResults |

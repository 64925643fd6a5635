# email-validator, modelled in Dafny

This project models the checking core of a small bulk email validator:

- `validator.py` checks an address's format with an anchored regular
  expression (`is_valid_format`).
- It asks the domain's mail exchanger whether the mailbox exists
  (`mx_and_smtp_check`), remembering one verdict per domain in the
  module-level dictionary `domain_cache`.
- For a whole file it deduplicates the addresses, flags them, probes the
  format-valid ones and splits the rows into valid and invalid reports
  (`validate_emails`).
- `utils.py` finds addresses in text with the same pattern unanchored
  (`extract_emails_from_text`).
- It picks a reader by file extension and takes either the "email" column
  of a table or a scan of its text (`extract_emails_from_file`).

## Modules

| file | module | models |
|---|---|---|
| `wrappers.dfy` | `Wrappers` | `Option` and `Result` |
| `seqs.dfy` | `Seqs` | distinctness, the element set, and first-occurrence `unique()` |
| `format.dfy` | `EmailFormat` | the anchored grammar, `is_valid_format` and `str.split('@')` |
| `scan.dfy` | `EmailScan` | `re.findall` with the unanchored pattern |
| `extract.dfy` | `Extraction` | `extract_emails_from_file` |
| `cache.dfy` | `DomainCheck` | `mx_and_smtp_check` and the `DomainCache` class holding `domain_cache` |
| `validate.dfy` | `Validation` | `validate_emails` |

## How the outside world is modelled

- **The network.** The MX lookup and the SMTP conversation are one probe. An `Oracle` maps `(domain, email)` to the RCPT reply code, or to `Raised` for any exception on the way. The cache consults the oracle at most once per domain (`SeriesProbesOnce`). So a fixed function is as general as any sequence of network answers.
- **File readers.** pandas' CSV and Excel readers, the text-file read and PyPDF2's page texts are given as a `FileContents` value. It holds the two tables, the decoded text and the list of page texts, where a page with no text is `None`.
- **Tables.** A table is a header and rows of `Option<string>` cells. `None` is a missing value. A row shorter than the header reads as missing cells.
- **The table path.** When no column name mentions "email", the table's text is scanned instead: the cells of each row joined with spaces, and the rows joined with spaces (`FromTable`, `FallbackWithoutAtFindsNothing`). A table with columns but no rows comes back from pandas' `apply` unchanged, and joining a frame iterates its column names, so then the column names are scanned (`TableText`, `HeaderOnlyTableScansHeader`).
- **Case.** Addresses are never lower-cased: the column path only strips whitespace, and deduplication compares strings exactly.
- **Errors.** Every unsupported extension raises the same `ValueError` (`UnsupportedFormat`); the message does not name the extension.
- **The cache.** The module-level dictionary is a `DomainCache` object passed to `ValidateEmails`. It is not created afresh per run, so verdicts persist from one run to the next, as they do in a long-lived process.
- **Output files.** The two CSV files are the `valid` and `invalid` row lists of the returned `Report`.

## Regular expression semantics

- The grammar is `L@D.T`:
  - `L` is one or more of `[A-Za-z0-9._%+-]`;
  - `D` is one or more of `[A-Za-z0-9.-]`;
  - `T` is two or more ASCII letters.
- The model computes matches directly rather than through a general regex engine. Three facts make that possible:
  - no class contains `@`, so the `@` is the first one and the local run is forced;
  - the top-level label has no dot, so the split is at the last dot that is followed by at least two letters;
  - greedy backtracking then takes the longest letter run after that dot.
- `MatchAtIsGreedy` proves that the computed match is exactly the backtracking matcher's choice.
- Python's `$` also matches before one final newline, so `is_valid_format("a@b.co\n")` is `True`. The model accepts that one newline, and `DomainKey` then includes it in the domain.

## Model

| member | source | states |
|---|---|---|
| EmailFormat.IsValidFormat | validator.py:9-11 | the check is true exactly when the whole string is in the grammar, allowing one final newline |
| EmailFormat.ValidFormatIffShape | validator.py:10-11 | true exactly for `L + "@" + D + "." + T` with well-formed parts, optionally followed by one `"\n"` |
| EmailFormat.SplitIsUnique | validator.py:10 | the grammar splits a string in at most one way, so the check is deterministic |
| EmailFormat.SplitIsFirstAtLastDot | validator.py:10 | any split is at the first `@` and at the last dot after it |
| EmailFormat.RenderParses | validator.py:10-11 | every well-formed address, with or without a final newline, parses back to itself |
| EmailFormat.DomainKey | validator.py:18 | `email.split('@')[1]` exists exactly when the address holds an `@`, and contains no `@` |
| EmailFormat.AcceptedDomainKey | validator.py:10-18 | an accepted address holds exactly one `@`, and is its local part, `@`, then the domain key |
| EmailFormat.JoinSplit | validator.py:18 | joining the parts of `split` with the separator gives back the string |
| EmailFormat.Split | validator.py:18 | `str.split(sep)` gives one more part than there are separators, and no part holds the separator; see `JoinSplit`, `SplitAtOnly`, `SplitAbsent` |
| EmailScan.MatchAtIsGreedy | utils.py:7 | the match at a position is the greedy parse when one exists, and none when no parse starts there |
| EmailScan.GreedyMatchUnique | utils.py:7 | the greedy match at a position is unique |
| EmailScan.FindAll | utils.py:8 | the spans found lie in the text, do not overlap and run left to right |
| EmailScan.FindAllIsLeftmostScan | utils.py:8 | the spans are the leftmost, non-overlapping greedy matches, with no match starting in any gap |
| EmailScan.ExtractEmailsFromText | utils.py:6-8 | reference definition of `extract_emails_from_text`: the texts of `FindAll`'s spans, in order; see `ExtractedAreOrderedSubstrings`, `ExtractedAreValid`, `FoundWhole`, `NoAtNoEmails` |
| EmailScan.LeftmostScanUnique | utils.py:8 | exactly one sequence of spans is a leftmost scan of a text |
| EmailScan.ExtractedAreOrderedSubstrings | utils.py:6-8 | each result is the non-empty text of its span, and the spans are ordered and disjoint |
| EmailScan.ExtractedAreValid | utils.py:7 | every extracted string passes `is_valid_format` |
| EmailScan.MatchStartsAtRunStart | utils.py:7-8 | each match starts where its local run starts, or where the previous match ended |
| EmailScan.NoAtNoEmails | utils.py:6-8 | a text with no `@` yields no address |
| Extraction.SplitExt | utils.py:11 | `os.path.splitext`: the two parts rejoin to the path, and the extension is empty or one dot followed by no dot and no `/` |
| Extraction.SplitExtIffExtension | utils.py:11 | the extension is non-empty exactly when the last path component has a non-dot character followed later by a dot; with `SplitExt`'s own contract this fixes the split |
| Extraction.SplitExtOfPath | utils.py:11 | an upload path `dir + stem + ext`, with `dir` empty or ending in `/` and a stem not starting with a dot, splits into `dir + stem` and `ext` |
| Extraction.Lower | utils.py:11 | `lower()` keeps the length and maps each ASCII capital to its small letter |
| Extraction.Classify | utils.py:11-29 | `.csv` selects the CSV reader, `.xls`/`.xlsx` the Excel reader, `.txt` the text path, `.pdf` the PDF path, and every other lower-cased extension fails |
| Extraction.UpperCaseCsvIsCsv | utils.py:11-13 | `uploads/X.CSV` goes to the CSV reader |
| Extraction.DoubleExtensionRefused | utils.py:11-29 | `archive.tar.gz` is refused, because only the last extension counts |
| Extraction.HiddenFileRefused | utils.py:11-29 | `.csv` has no extension and is refused |
| Extraction.DottedDirectoryRefused | utils.py:11-29 | a dot in a directory name is not an extension |
| Extraction.EmailColumn | utils.py:31 | the result is the first column, in header order, whose lower-cased name contains "email", or none when no column does |
| Extraction.EmailPrefixMentions | utils.py:31 | a column whose name starts with "Email" mentions email |
| Extraction.EmailAddressColumnChosen | utils.py:31 | "EmailAddress" after "Name" is chosen |
| Extraction.NoEmailColumn | utils.py:31 | "Name" and "Contact" give no email column |
| Extraction.PresentValues | utils.py:33 | `dropna()` keeps exactly the present values of the column |
| Extraction.PresentValuesAppend | utils.py:33 | `dropna()` over two runs of rows is the first run's present values followed by the second's |
| Extraction.PresentValuesOfRow | utils.py:33 | one row contributes its cell when present and nothing when missing |
| Extraction.Strip | utils.py:33 | `strip()` returns a substring with only whitespace around it, with no whitespace at either end |
| Extraction.StripIdempotent | utils.py:33 | stripping twice is stripping once |
| Seqs.Unique | utils.py:33 | `unique()` returns no value twice and the same set of values |
| Seqs.UniqueInFirstOccurrenceOrder | utils.py:33 | `unique()` orders values by their first occurrence |
| Extraction.ColumnCandidatesAreStrippedValues | utils.py:33 | the column path gives each stripped present value exactly once, with no lowercasing and no format check |
| Extraction.ColumnCandidates | utils.py:33 | reference definition of the column path, `unique()` of the stripped present values; see `ColumnCandidatesAreStrippedValues`, `ColumnCandidatesInRowOrder`, `BlankCellKept` |
| Extraction.ColumnCandidatesInRowOrder | utils.py:33 | the column path lists values in row order of first appearance: wherever a later candidate occurs, every earlier one occurred in a row above |
| Extraction.BlankCellKept | utils.py:33 | an all-blank cell becomes `""` and is kept, and case is preserved |
| Extraction.JoinSpacesAvoids | utils.py:35-36 | a space-joined text holds a non-space character only if some part does |
| Extraction.TableText | utils.py:35-36 | reference definition of the fallback text: the rows' texts joined with spaces, or the column names for a table without rows; see `FallbackWithoutAtFindsNothing`, `HeaderOnlyTableScansHeader` |
| Extraction.FromTable | utils.py:31-36 | reference definition of the table path: the email column's candidates, or else a scan of the table text; see `EmailColumn`, `ColumnCandidatesAreStrippedValues`, `FallbackWithoutAtFindsNothing`, `ScannedBranchesAreValid` |
| Extraction.FallbackWithoutAtFindsNothing | utils.py:34-36 | without an email column and without an `@` in any cell (or, for a table without rows, in any column name), the fallback yields `[]` |
| Extraction.HeaderOnlyTableScansHeader | utils.py:35-36 | a one-column table without rows, named like an address and not mentioning "email", yields that name |
| Extraction.AddressAsHeaderFound | utils.py:35-36 | a CSV file holding only the line `a@x.com` yields `["a@x.com"]` from its header |
| EmailScan.GrammarMatchesWhole | utils.py:7 | on a string of the grammar, the match starting at its first character covers all of it |
| EmailScan.FoundWhole | utils.py:6-8 | a text that is itself an address yields exactly that address |
| Extraction.ScannedBranchesAreValid | utils.py:17-36 | the text, PDF and fallback branches succeed, and return only strings that pass `is_valid_format` |
| Extraction.ConcatPagesAppend | utils.py:25-26 | the text of two runs of pages is the first's text followed by the second's |
| Extraction.MissingPageAddsNothing | utils.py:26 | a page without text contributes nothing |
| Extraction.ConcatPages | utils.py:22-26 | reference definition of the PDF text, each page's text or `''` in page order; see `PdfText`, `ConcatPagesAppend`, `MissingPageAddsNothing` |
| Extraction.PdfText | utils.py:22-26 | the loop's text is the concatenation of every page's text, with `''` for a page without text |
| Extraction.ExtractedFromFile | utils.py:10-36 | reference definition of `extract_emails_from_file`: the dispatch on `Classify`, then the table path, the text scan, the PDF scan or the unsupported-format error; see `ExtractEmailsFromFile`, `ScannedBranchesAreValid` |
| Extraction.ExtractEmailsFromFile | utils.py:10-36 | the result is the dispatch's: the table path, the text scan, the PDF scan, or the unsupported-format error |
| DomainCheck.Check | validator.py:16-37 | no `@`: the escaping error, cache unchanged; hit: the stored verdict, cache unchanged; miss: the probe's verdict (reply 250, never an exception), stored under the domain |
| DomainCheck.CheckKeepsCache | validator.py:19-36 | the answer is the verdict now stored for the domain; stored entries never change; only the domain is added |
| DomainCheck.SecondCheckIsHit | validator.py:19-20 | a second address of the same domain is answered from the cache with the first answer, whatever the network would say |
| DomainCheck.CheckSeries | validator.py:48-49 | one answer per address, from calls in address order through one shared cache, with the domains probed on the way; see `SeriesKeepsCache`, `SeriesAnswersFromCache`, `SeriesProbesOnce`, `SeriesFirstProbe`, `SeriesRerun` |
| DomainCheck.SeriesKeepsCache | validator.py:14-33 | over any run of calls, old entries keep their verdicts and the cache gains exactly the run's domains |
| DomainCheck.SeriesAnswersFromCache | validator.py:19-34 | over a run, every address gets the verdict the cache ends with for its domain, so addresses of the same domain get the same verdict |
| DomainCheck.SeriesFirstProbe | validator.py:22-37 | a domain new to the cache gets the probe's verdict for its first address in the run |
| DomainCheck.SeriesProbesOnce | validator.py:19-22 | over a run, each domain new to the cache is probed exactly once, and no other domain is probed |
| DomainCheck.SeriesAllHits | validator.py:19-20 | a run over cached domains probes nothing and answers from the cache |
| DomainCheck.SeriesRerun | validator.py:14-20 | repeating a run against the cache it left probes nothing and gives the same answers |
| DomainCheck.DomainCache.constructor | validator.py:14 | the cache starts empty, with nothing probed |
| DomainCheck.DomainCache.MxAndSmtpCheck | validator.py:16-37 | the answer and new cache are `Check`'s; a miss appends the domain to the probe record; stored verdicts stay one per probe |
| Validation.Deduplicate | validator.py:42 | `list(set(emails))` has no repeats and exactly the extracted strings, in some order |
| Validation.FormatValidOnly | validator.py:45-47 | the list to probe holds exactly the addresses passing the format check |
| Validation.ProbeIndexAligned | validator.py:47-51 | the k-th format-valid row is the k-th address probed |
| Validation.FinalStatus | validator.py:53-56 | reference definition of the row status, `Valid` when the format flag holds and the SMTP value is truthy (a missing value counts as truthy); see `AnnotatedRows` |
| Validation.Annotate | validator.py:44-56 | the frame has one row per address; see `AnnotatedRows`, `ReportKeepsEmails` |
| Validation.AnnotatedRows | validator.py:45-56 | a row has its address and format flag; a format-invalid row is never probed and is `Invalid`; a format-valid row carries its own probe answer; `Valid` exactly when both flags are true |
| Validation.WithStatus | validator.py:58-59 | a report holds exactly the frame's rows with its status |
| Validation.BuildReport | validator.py:51-59 | reference definition of the frame and its two reports; see `StatusesPartition`, `ReportsSplitAddresses`, `ReportsPartitionExtracted`, `ValidRowsPassedBothChecks` |
| Validation.StatusesPartition | validator.py:58-59 | the two reports together hold each row exactly as often as the frame, so their sizes add up to the frame's |
| Validation.WithStatusDistinct | validator.py:42-59 | a report repeats no address when the frame does not |
| Validation.ReportsSplitAddresses | validator.py:53-59 | no address is in both reports, and together they hold every address of the frame |
| Validation.ReportsPartitionExtracted | validator.py:42-59 | the reports are disjoint, cover the distinct extracted strings, repeat none, and their sizes sum to their number |
| Validation.ValidRowsPassedBothChecks | validator.py:45-58 | a valid row's address passes the format check and the cache holds `True` for its domain; a format-invalid address is reported invalid |
| Validation.CheckAll | validator.py:48-49 | the answers, in address order, and the final cache are those of the run of checks through the shared cache |
| Validation.ValidateEmails | validator.py:40-59 | an unsupported file fails and probes nothing; otherwise the frame lists each extracted string once, the format-valid ones are probed in frame order through the cache, and the report is built from their answers |

## Left out

- The DNS MX query, the SMTP conversation and its 10-second timeout are not modelled. Only the outcome of the whole probe is modelled, as the oracle.
- The thread pool is not modelled: calls run one after another in address order. The unsynchronised sharing of `domain_cache` between worker threads is not modelled, so neither is a domain being probed twice by two threads at once.
- Reading files is not modelled: CSV and Excel parsing, UTF-8 decoding with `errors='ignore'` and PDF text extraction. Their results are inputs.
- pandas details outside the model:
  - duplicate column names (which pandas renames);
  - non-string column names (on which `lower()` would fail);
  - an empty address list. Then `df['Format_Valid']` is an empty Series that is not boolean, so `df[df['Format_Valid']]` selects columns by label and `['email']` raises `KeyError` (validator.py:47). `ValidateEmails` instead returns `Success` with an empty frame and two empty reports.
- Writing the two CSV files is not modelled; the reports are returned as row lists.
- The iteration order of Python's `set` is not modelled: `Deduplicate` may return any order, and every property is stated for all orders.
- Extraction.Lower: only ASCII letters are lowered. Python also lowers other scripts. This can only matter for a non-ASCII character whose small letter is an ASCII letter of "email" or of a supported extension.
- Extraction.SplitExt: follows POSIX `os.path.splitext`. Windows drive letters and backslash separators are not modelled.
- The Flask application (`app.py`) is not part of this model.

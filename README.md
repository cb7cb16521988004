# Checklist batch renamer: a Dafny model

The application takes a batch of checklist PDFs and gives each one a new name
after the serial number it carries. The serial number has the shape `1X000000X`:
a `1`, a capital letter, six digits and a capital letter. The application then
offers two downloads: a CSV audit report of every file, and a text listing that
stands in for a zip archive of the renamed files. A status panel follows the
batch while it runs.

This project models that core:

- `serial_extraction.dfy` (`SerialExtraction`) models `extractSerialNumberFromPDF`.
  - A missing name throws "Arquivo inválido ou corrompido".
  - A lower-cased name containing `corrupt` or `erro` throws the corruption message.
  - Otherwise, a name containing `protect` or `senha` throws the password message.
  - Otherwise the function makes one barcode attempt, then tries seven coordinate areas in order.
  - Every successful attempt can only return the same thing: the first `\b1[A-Z][0-9]{6}[A-Z]\b` token of the name with its first `.pdf` removed, upper-cased.
  - The random draws of the attempts are a parameter `attempt(k)`: attempt 0 is the barcode, attempts 1 to 7 are the areas. `Classify` is the function the loop is proved against.
- `pdf_processor.dfy` (`PdfProcessor`) models `processFiles`.
  - Nameless inputs get a name from their `path`, then the ones still nameless are dropped with a warning.
  - One `pending` record is made per remaining file, in a mutable array.
  - Each record is driven in place through `processing` to `success` or `error`, in order.
  - The list is handed to `onProgress` once at the start and after every transition. Those snapshots are returned as a sequence of values.
  - The method is proved to produce exactly `Stage(valid, attempt, n, false)` and the snapshot list `Snapshots(...)`. Lemmas about those functions state the state-machine properties: the completed count never decreases, one record changes per step, settled records never change again.
- `exports.dfy` (`Exports`) models the text that `generateReport` and `generateZipFile` put into their downloads.
  - The CSV report: a header line, then one line per record. Every cell is wrapped in quotes, joined by commas, and lines are joined by `\n`.
  - The zip summary: a count line, a blank line, then one `newName (original: name)` line per success.
  - The report is read back through a CSV parser when no cell holds a quote or a line break. A lemma shows that, because embedded quotes are not escaped, two different record lists can give the same report.
- `processing_status.dfy` (`ProcessingStatus`) models the `ProcessingFile` record and the status panel: the completed count, the progress ratio, the status icon and badge, the message under the progress bar, and the detail line under each file.
- `js_text.dfy` (`JsText`) and `wrappers.dfy` (`Wrappers`) model the JavaScript built-ins the code calls: `toLowerCase`/`toUpperCase`, `includes`, `replace` with a string pattern, `map`/`filter`/`join`, and number rendering. A `map`/`filter`/`join` helper is a function on sequences. `IndexOf` is not called by the modelled code; it is how the model defines `includes` and `replace`. `Split` is not called there either (the code's only `split` builds the download file names, which are not modelled); the model uses it only to read the report and the zip summary back into lines.

The code has no labeled-field search in page text, no archive bytes, no
duplicate-name policy and no CSV escaping, and the model has none either.

## Model

| member | source | states |
|---|---|---|
| ProcessingStatus.CompletedFiles | src/components/ProcessingStatus.tsx:21 | the completed count is at most the total, and equals it exactly when every record is `success` or `error` |
| ProcessingStatus.CompletedPrefix | src/components/ProcessingStatus.tsx:21 | a list whose first `done` records are completed and whose others are not has exactly `done` completed |
| ProcessingStatus.Progress | src/components/ProcessingStatus.tsx:23 | the value is completed / total × 100 for a non-empty list (`num * total == 100 * completed * den`); the denominator is never zero; an empty list gives 0; progress never exceeds 100 %; it is 100 % exactly when the list is non-empty and every record is completed |
| ProcessingStatus.StatusIcon | src/components/ProcessingStatus.tsx:25-36 | check icon exactly for `success`, cross exactly for `error`, spinning clock exactly for `processing` |
| ProcessingStatus.StatusBadge | src/components/ProcessingStatus.tsx:38-49 | "Processado" iff `success`, "Erro" iff `error`, "Processando" iff `processing`, "Aguardando" iff `pending` |
| ProcessingStatus.BadgeLabelsDistinct | src/components/ProcessingStatus.tsx:38-49 | different statuses never share a badge label |
| ProcessingStatus.FileDetail | src/components/ProcessingStatus.tsx:85-94 | a detail line exists exactly for a success with a non-empty serial number (then it is "→ serial.pdf") or an error with a non-empty reason (then it is the reason) |
| ProcessingStatus.StatusMessage | src/components/ProcessingStatus.tsx:69 | "Processando arquivos..." while processing; otherwise "Processamento concluído!" at 100 % and "Pronto para processar" below it |
| ProcessingStatus.Row | src/components/ProcessingStatus.tsx:76-100 | a file row keeps the record's id and name; check icon and "Processado" badge exactly for a success, "Erro" badge exactly for an error; a detail line exactly for a success with a serial number ("→ serial.pdf") or an error with a reason |
| ProcessingStatus.RenderStatus | src/components/ProcessingStatus.tsx:51-101 | an empty list renders nothing; otherwise the totals, the progress value of `Progress`, one row per record in order with its id, name, status icon, detail line ("→ serial.pdf" or the reason, as `FileDetail` gives it) and badge, the message `StatusMessage` gives for that progress, and the completion message exactly when not processing and every record is completed |
| JsText.ToLowerCase | src/utils/pdfProcessor.ts:45 | the lower-cased name has the same length (its characters: `JsText.LowerCaseSpec`) |
| JsText.LowerCaseSpec | src/utils/pdfProcessor.ts:45 | no ASCII capital is left, and each character is kept or is the lower case of an ASCII capital |
| JsText.ToUpperCase | src/utils/pdfProcessor.ts:73 | same length; no ASCII lower-case letter is left, and each character is kept or is the upper case of an ASCII lower-case letter |
| JsText.ReplaceFirst | src/utils/pdfProcessor.ts:69 | without an occurrence the string is unchanged; otherwise its length changes by the difference of the pattern and replacement lengths (the text kept around the occurrence: `JsText.ReplaceFirstSpec`) |
| JsText.ReplaceFirstSpec | src/utils/pdfProcessor.ts:132 | only the first occurrence is replaced: the text before and after it is kept, and no earlier position holds the pattern |
| JsText.IndexOfFrom | src/utils/pdfProcessor.ts:48 | `indexOf` returns the first occurrence at or after the start, or none when there is none |
| JsText.Includes | src/utils/pdfProcessor.ts:48 | `includes` holds exactly when the pattern occurs at some position: an occurrence when it holds, none anywhere when it does not |
| JsText.Filter | src/utils/pdfProcessor.ts:141 | a filtered list is no longer than its input, keeps only elements satisfying the test, and keeps all of them exactly when all satisfy it |
| JsText.FilterKeepsOrder | src/utils/pdfProcessor.ts:141 | the k-th kept element is the input element at the k-th of an increasing list of positions |
| JsText.KeptIndicesMembers | src/utils/pdfProcessor.ts:141 | a position is kept exactly when its element satisfies the test |
| JsText.Map | src/utils/pdfProcessor.ts:218 | same length, and element i is the function applied to input element i |
| JsText.Join | src/utils/pdfProcessor.ts:226-228 | no parts give the empty string, and the result is at least as long as the first part (first part begins it, last part ends it: `JsText.JoinEnds`) |
| JsText.JoinEnds | src/utils/pdfProcessor.ts:226-228 | the joined string begins with the first part and ends with the last |
| JsText.NatToString | src/utils/pdfProcessor.ts:199 | a rendered count is a non-empty string of digits without a leading zero |
| JsText.NatToStringRoundTrip | src/utils/pdfProcessor.ts:199 | reading the rendered digits back gives the count |
| JsText.SplitJoin | src/utils/pdfProcessor.ts:228 | joining lines without the separator by `\n` and splitting again gives the lines back |
| SerialExtraction.MatchSerial | src/utils/pdfProcessor.ts:70-73 | a match exists exactly when a bounded token is found, and it has the serial shape (which token: `SerialExtraction.MatchSerialIsLeftmostToken`) |
| SerialExtraction.FirstMatchFrom | src/utils/pdfProcessor.ts:42 | the match position found is the leftmost at which a token with word boundaries on both sides starts |
| SerialExtraction.StripPdf | src/utils/pdfProcessor.ts:69 | without ".pdf" the name is unchanged; with it the result is four characters shorter (which occurrence: `JsText.ReplaceFirstSpec`) |
| SerialExtraction.MarksCorrupt | src/utils/pdfProcessor.ts:48 | holds exactly when "corrupt" or "erro" occurs in the lower-cased name |
| SerialExtraction.MarksProtected | src/utils/pdfProcessor.ts:53 | holds exactly when "protect" or "senha" occurs in the lower-cased name |
| SerialExtraction.MatchSerialIsLeftmostToken | src/utils/pdfProcessor.ts:70-73 | `match` succeeds exactly when a bounded token exists; the result is the leftmost such token, already upper-case and of the serial shape |
| SerialExtraction.UnderscoreHidesToken | src/utils/pdfProcessor.ts:42 | "x_1A234567B" has no match, because `_` is a word character for `\b` |
| SerialExtraction.HyphenKeepsToken | src/utils/pdfProcessor.ts:42 | "x-1A234567B" matches "1A234567B" |
| SerialExtraction.TrailingLetterHidesToken | src/utils/pdfProcessor.ts:42 | "1A234567BC" has no match |
| SerialExtraction.Classify | src/utils/pdfProcessor.ts:28-120 | throws exactly for an empty name or a corruption or password marker, and always an `Error`; otherwise, when the stripped name has a match, the result is that match exactly when some attempt succeeds; every other non-throwing result is `null`; a returned serial number has the serial shape |
| SerialExtraction.ThrownMessages | src/utils/pdfProcessor.ts:30-55 | the invalid-file message for a missing name, the corruption message before the password message |
| SerialExtraction.DrawsOnlyDecideWhetherFound | src/utils/pdfProcessor.ts:64-116 | without a token the outcome is the same for all draws; two draws that find a serial number find the same one; otherwise the outcome is `null` |
| SerialExtraction.SerialNameUnmarked | src/utils/pdfProcessor.ts:45-55 | "1A234567B.pdf" carries none of the four error markers |
| SerialExtraction.SerialNameStripped | src/utils/pdfProcessor.ts:69 | removing ".pdf" from "1A234567B.pdf" leaves "1A234567B" |
| SerialExtraction.LoneSerialMatches | src/utils/pdfProcessor.ts:70-73 | "1A234567B" matches itself |
| SerialExtraction.SerialNamedFile | src/utils/pdfProcessor.ts:57-119 | "1A234567B.pdf" yields "1A234567B" when the barcode attempt succeeds, and `null` when no attempt does |
| SerialExtraction.CorruptBeforeProtected | src/utils/pdfProcessor.ts:48-54 | "erro_senha.pdf" throws the corruption message whatever the draws |
| SerialExtraction.FoundAtAttempt | src/utils/pdfProcessor.ts:64-75 | an unmarked name with a match yields that match at any successful attempt |
| SerialExtraction.NotFoundAfterAttempts | src/utils/pdfProcessor.ts:118-119 | an unmarked name yields `null` when it has no match or no attempt succeeds |
| SerialExtraction.ExtractSerialNumberFromPdf | src/utils/pdfProcessor.ts:28-120 | the barcode attempt and the loop over the seven areas return exactly `Classify(name, attempt)` |
| PdfProcessor.WithPathName | src/utils/pdfProcessor.ts:129-140 | the fallback keeps the id and path and never changes a name that is present; a nameless file with a non-empty path is named `path.replace('./', '')`; a nameless file without one stays nameless |
| PdfProcessor.ValidFiles | src/utils/pdfProcessor.ts:129-141 | no more valid files than inputs, every valid file has a name, and all inputs are kept exactly when each has a name after the fallback (order and ids: `ValidFilesKeepNamedInputs`) |
| PdfProcessor.PendingRecord | src/utils/pdfProcessor.ts:149-153 | a fresh record keeps the file's id and name, is not completed, shows no detail line and the "Aguardando" badge |
| PdfProcessor.ValidFilesKeepNamedInputs | src/utils/pdfProcessor.ts:129-141 | the valid files are exactly the inputs with a name after the fallback, in input order with the same ids |
| PdfProcessor.SomeInputDropped | src/utils/pdfProcessor.ts:143-147 | fewer valid files than inputs exactly when some input is nameless after the fallback |
| PdfProcessor.CaughtMessage | src/utils/pdfProcessor.ts:183 | an `Error` gives its own message; any other thrown value gives "Erro desconhecido durante processamento" |
| PdfProcessor.Settle | src/utils/pdfProcessor.ts:168-185 | the settled record keeps id and name and is completed; success exactly for a non-empty serial number, with `newName` = serial + ".pdf"; an error carries the not-found message, the thrown `Error`'s message, or the unknown-error message |
| PdfProcessor.Outcome | src/utils/pdfProcessor.ts:158-188 | a handled record keeps id and name and is completed |
| PdfProcessor.OutcomeIsTerminal | src/utils/pdfProcessor.ts:168-185 | a success holds the name's serial number and is renamed to it plus ".pdf"; an error holds the not-found, corruption or password message and no serial number |
| PdfProcessor.Stage | src/utils/pdfProcessor.ts:149-153 | one record per valid file, in order, with its id and name |
| PdfProcessor.StageRecord | src/utils/pdfProcessor.ts:158-188 | the record of file j keeps that file's id and name |
| PdfProcessor.InFlightSnapshot | src/utils/pdfProcessor.ts:164-166 | when file i becomes `processing`, every earlier record is settled with its outcome and every later one is still pending |
| PdfProcessor.UnsettledRecordsAreBare | src/utils/pdfProcessor.ts:149-153 | a record not yet completed has no serial number, new name or reason |
| PdfProcessor.OneRecordPerStep | src/utils/pdfProcessor.ts:158-187 | between consecutive snapshots exactly one record changes, and it moves pending to processing or processing to a final status |
| PdfProcessor.SettledRecordsStay | src/utils/pdfProcessor.ts:158-188 | a completed record is the same in every later snapshot |
| PdfProcessor.CompletedCountOfSnapshot | src/utils/pdfProcessor.ts:156-187 | snapshot k has exactly k/2 completed records |
| PdfProcessor.CompletedNeverDecreases | src/utils/pdfProcessor.ts:156-187 | the completed count never decreases across snapshots |
| PdfProcessor.InitialStage | src/utils/pdfProcessor.ts:149-156 | the first snapshot is one pending record per valid file |
| PdfProcessor.StartStep | src/utils/pdfProcessor.ts:165 | marking file i `processing` moves from settled stage i to in-flight stage i |
| PdfProcessor.SettleStep | src/utils/pdfProcessor.ts:168-185 | settling file i with its classification moves to settled stage i + 1 |
| PdfProcessor.Snapshots | src/utils/pdfProcessor.ts:156-187 | the first `count` calls of `onProgress`, each the snapshot of that call |
| PdfProcessor.SnapshotsOfFile | src/utils/pdfProcessor.ts:164-187 | handling file i adds exactly its in-flight and its settled snapshot |
| PdfProcessor.HandleFile | src/utils/pdfProcessor.ts:159-187 | one loop pass updates the array from settled stage i to settled stage i + 1, with the in-flight stage as the copy in between |
| PdfProcessor.ProcessFiles | src/utils/pdfProcessor.ts:122-192 | returns exactly the settled records of all valid files, the 2n + 1 snapshots in call order, and a warning exactly when some input is nameless |
| PdfProcessor.SettledRecordShown | src/utils/pdfProcessor.ts:200 | a settled record has a detail line in the panel, and a success is listed as serial + ".pdf (original: name)" |
| PdfProcessor.FinishedBatch | src/utils/pdfProcessor.ts:158-191 | after a run every record is completed and has a detail line, each success is listed under its serial number plus ".pdf", and the panel shows "Processamento concluído!" |
| Exports.GenerateReport | src/utils/pdfProcessor.ts:215-228 | the report starts with the header line; its line structure and read-back are stated by `Exports.ReportLines` and `Exports.ReportRowsRoundTrip` |
| Exports.ReportRow | src/utils/pdfProcessor.ts:218-224 | five cells, one per title: the name; "Processado" exactly for a success and "Erro" otherwise; then the serial number, the new name and the error reason, each kept when present and non-empty and "-" when missing or empty |
| Exports.ReportStatus | src/utils/pdfProcessor.ts:220 | "Processado" exactly for `success`, "Erro" for every other status |
| Exports.OrDash | src/utils/pdfProcessor.ts:221-223 | a present non-empty value is kept; a missing or empty one becomes "-"; the cell is never empty |
| Exports.Quote | src/utils/pdfProcessor.ts:227 | a cell is wrapped in one double quote on each side, its characters kept unchanged (no escaping) |
| Exports.CsvLine | src/utils/pdfProcessor.ts:227 | a line is empty exactly when the row is (its cell-by-cell shape: `Exports.CsvLineCons`; read back: `Exports.CsvLineRoundTrip`) |
| Exports.CsvLineOfFive | src/utils/pdfProcessor.ts:227 | a five-cell line is the five quoted cells separated by commas |
| Exports.CsvLineCons | src/utils/pdfProcessor.ts:227 | a line of several cells is the first quoted cell, a comma and the line of the rest |
| Exports.HeaderLine | src/utils/pdfProcessor.ts:217 | the header line is the five column titles, each quoted, joined by commas |
| Exports.HeaderReadsBack | src/utils/pdfProcessor.ts:217 | the header line parses back to the five titles |
| Exports.CharNotInCsvLine | src/utils/pdfProcessor.ts:227 | a character other than a quote or comma is in a line only if it is in one of its cells |
| Exports.ReportStartsWithHeader | src/utils/pdfProcessor.ts:226-228 | every report begins with the header line, followed by a line break when there are records |
| Exports.ReportLinesUnbroken | src/utils/pdfProcessor.ts:226-227 | when no cell holds a line break, no report line does |
| Exports.HeaderUnbroken | src/utils/pdfProcessor.ts:217 | the header line holds no line break |
| Exports.RecordLineUnbroken | src/utils/pdfProcessor.ts:218-227 | a record line holds no line break when none of its cells does |
| Exports.ReportLines | src/utils/pdfProcessor.ts:218-228 | without line breaks in cells, the report has the header line and then exactly one line per record, in order |
| Exports.QuotedCellEnds | src/utils/pdfProcessor.ts:227 | a quoted cell without quotes inside ends at the first quote after the opening one |
| Exports.CsvLineRoundTrip | src/utils/pdfProcessor.ts:227 | a line whose cells hold no quotes parses back to those cells |
| Exports.ReportRowsRoundTrip | src/utils/pdfProcessor.ts:218-228 | each record line of the report parses back to the record's five cells when no cell holds a quote or a line break |
| Exports.ErrorRowLine | src/utils/pdfProcessor.ts:218-227 | the line of an error record without optional fields is its quoted name followed by a fixed tail |
| Exports.ReportOfOne | src/utils/pdfProcessor.ts:226-228 | a one-record report is the header line, a line break and the record's line |
| Exports.ReportOfTwo | src/utils/pdfProcessor.ts:226-228 | a two-record report is the header line and the two record lines, separated by line breaks |
| Exports.UnescapedCellsAreAmbiguous | src/utils/pdfProcessor.ts:227 | for any names x and y, one record with a forged name gives the same report as two records named x and y |
| Exports.GenerateZipFile | src/utils/pdfProcessor.ts:194-200 | the summary starts with the count line and a blank line; its lines are stated by `Exports.ZipSummaryLines` |
| Exports.ZipEntry | src/utils/pdfProcessor.ts:200 | a listing line starts with the new name ("undefined" when missing) and ends with the original name and a closing parenthesis |
| Exports.SuccessFiles | src/utils/pdfProcessor.ts:196 | the kept records are all successes, no more than the input, and all of the input exactly when every record is a success (order: `Exports.SuccessFilesInOrder`) |
| Exports.ZipHeader | src/utils/pdfProcessor.ts:199 | the count line starts with "Arquivo ZIP simulado contendo ", and ends with " arquivos:", and between the two is the count written as `NatToString` writes it (decimal digits, no leading zero), which reads back as the count |
| Exports.SuccessFilesInOrder | src/utils/pdfProcessor.ts:196 | the summary keeps exactly the successes, in list order |
| Exports.ZipHeaderSingleLine | src/utils/pdfProcessor.ts:199 | the count line holds no line break |
| Exports.ZipEntriesSingleLine | src/utils/pdfProcessor.ts:200 | no listing line of a success holds a line break when its names hold none |
| Exports.ZipSummaryLines | src/utils/pdfProcessor.ts:196-200 | the summary splits into the count line, whose number is the number of successes written by `NatToString`, a blank line, and the listing line of each success in order |

## Left out

- Randomness and timing: `Math.random` and `setTimeout` become the `attempt` parameter. The success rates at lines 62 and 98 are not modelled, only which draws succeed.
- `console` logging and the size in MB at line 39 have no effect on results and are not modelled.
- The download side effects (`Blob`, object URLs, the anchor click, `new Date()` in file names, lines 202-212 and 230-240) are browser I/O. Only the text content is modelled.
- The coordinates in `COORDINATE_VARIATIONS` are only logged; only their count, seven, matters.
- `ProcessingStatus.Progress`: the percentage is a floating-point number in the component. It is kept as the exact ratio `completed * 100 / total`, so rounding is not modelled.
- `PdfProcessor.ProcessFiles`: the first `onProgress` call (line 156) passes the live array, which is also the array returned at line 191; the later calls (lines 166 and 187) pass shallow copies; all of them share the record objects, so a list kept by the callback would later show the mutated records. Each snapshot is modelled as the value of the list when `onProgress` is called.
- `PdfProcessor.ProcessFiles`: a `null` array entry (`!file` at line 141) is not modelled; an input is a record whose name may be empty.
- `PdfProcessor.ProcessFiles`: the awaited calls run one after the other, so the model is sequential.
- `JsText.ToLowerCase`: only ASCII letters are mapped; other characters are left as they are. The only other characters that lower-case to ASCII letters are U+0130 (to `i` plus a combining dot) and U+212A (to `k`). Neither `i` nor `k` occurs in `corrupt`, `erro`, `protect` or `senha`, so the marker tests come out the same.
- `SerialExtraction.Classify`: extraction only ever throws `Error` objects, so the "Erro desconhecido durante processamento" branch of the `catch` is modelled in `PdfProcessor.Settle` but cannot be reached from a run.
- `Exports.CsvLineRoundTrip`: the parse-back is proved only for cells without a quote, because quotes are not escaped (see `Exports.UnescapedCellsAreAmbiguous`).
- `Exports.HeaderLine`: the header line is stated through `Quote` of each title rather than as one literal string.
- The JSX layout and styling of `ProcessingStatus.tsx`, `src/pages/Index.tsx`, `src/components/FileUpload.tsx`, `src/components/ProcessingReport.tsx` and `vite.config.ts` are UI and build configuration, and are not part of this model.

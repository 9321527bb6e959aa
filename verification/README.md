# PDF-to-spreadsheet exporter: a Dafny model of its decision logic

The exporter (`src/export_pdf.py`) walks a folder. It extracts the text of
every `.pdf` file, sends that text to a generation service, and parses the
reply as JSON. It keeps the non-empty objects and writes them to a
spreadsheet with fifteen fixed columns. This project models the pure decisions
of that pipeline and proves properties about them. The PDF library, the
service, `json.loads` and pandas are replaced by abstract inputs.

Modules, in dependency order:

- `Wrappers`: `Option`, the model of Python's value-or-`None`.
- `Text`: the Python `str` operations the code uses, over `string`. These are
  `in`/`find`, `split`/`join`, `endswith`, `strip` (with Python's `isspace`
  set) and `replace`.
- `Json`: a parsed reply object (`Record`, a map from field names to values)
  and Python dict truthiness.
- `Fence`: what `json.loads` receives for a reply. A reply containing
  "```json" goes through `split("```json")[1].split("```")[0].strip()`.
  Any other reply is parsed unchanged.
- `Pacing`: the process-wide `request_counter`. It is bumped before every
  attempt, and a pause happens when the new count is a multiple of 10. Each
  pause is counted as an event.
- `Gemini`: the retry loop of `analyze_content_with_gemini`. It makes at most
  `retries = 2` attempts. A status 500, a JSON decode error and any other
  exception all move on to the next attempt. The first reply that parses is
  returned.
- `Extraction`: `extract_pdf_text`. The result is each page's text followed
  by "\n", in page order. A document that does not open gives "". A page that
  raises ends the text there, but the pages already read are kept.
- `Report`: the DataFrame step. Each record is projected onto `EXCEL_COLUMNS`:
  missing keys become empty cells and extra keys are dropped. Every `;` in
  the qualifications column becomes "\n". No table is produced when there is
  no record.
- `Batch`: the loop of `process_pdf_folder` and the whole pipeline.

The service is a function from a request number and a document text to an
outcome. The request number is the value of the counter after it was bumped,
so one run of the exporter sees the service as one sequence of outcomes.
`json.loads` is a function from a string to an optional object, where `None`
stands for a decode error.

The retry policy of `src/export_pdf.py` is simple. It makes at most 2
attempts, and it retries after every kind of failure in the same way: a
status 500, a reply that does not parse as JSON, and any other exception.
It has no quota handling and no back-off beyond the pacing pause. An
unparseable reply does not end the analysis, and the folder loop never
retries a file. `Gemini.FailureKindsAreAlike` states that the loop cannot
tell the failure kinds apart.

The fence rule of the code is two splits, not one. The text after the first
"```json" is cut at the next "```json", and then at the first "```". Usually
this gives "the text after the first ```json up to the next ```". The two
readings differ in exactly one shape: the first "```" after the marker starts
one or two characters before the next "```json". Then the kept text ends in
one or two backticks. `Fence.UpToNextFenceIff` states this condition in both
directions, and `Fence.FourBacktickRun` gives the smallest such reply.

## Model

| member | source | states |
|---|---|---|
| Text.IndexOf | src/export_pdf.py:107 | The result is the leftmost occurrence of the pattern, and `None` only when there is no occurrence at all. This is Python's `in`/`find`. |
| Text.IndexOfContains | src/export_pdf.py:107 | `find` succeeds exactly when the substring test `"```json" in result` holds. |
| Text.Split | src/export_pdf.py:108 | `str.split(sep)` returns at least one piece. |
| Text.SplitPiecesAvoid | src/export_pdf.py:108 | No piece of a split contains the separator. |
| Text.SplitJoin | src/export_pdf.py:108 | Splitting and then re-joining with the same separator returns the original string. |
| Text.TrimStart | src/export_pdf.py:108 | The result is the suffix left after every leading whitespace character is dropped, and it does not start with whitespace. |
| Text.TrimEnd | src/export_pdf.py:108 | The result is the prefix left after every trailing whitespace character is dropped, and it does not end with whitespace. |
| Text.TrimStartPadded | src/export_pdf.py:108 | `lstrip()` drops exactly the leading whitespace in front of text that does not start with whitespace. |
| Text.TrimEndPadded | src/export_pdf.py:108 | `rstrip()` drops exactly the trailing whitespace after text that does not end with whitespace. |
| Text.Strip | src/export_pdf.py:108 | The result of `strip()` neither starts nor ends with a character in Python's whitespace set. |
| Text.StripPadded | src/export_pdf.py:108 | `strip()` of text padded with whitespace on both sides returns exactly that text. |
| Text.StripIdempotent | src/export_pdf.py:108 | Stripping twice gives the same result as stripping once. |
| Text.ReplaceChar | src/export_pdf.py:139 | Every `;` becomes "\n" and every other character stays in place. The length is unchanged. |
| Fence.ParserInput | src/export_pdf.py:106-109 | A reply without "```json" is parsed unchanged. For a reply with the marker, the parser input has no surrounding whitespace and contains no "```". |
| Fence.FencedReplyUpToNextFence | src/export_pdf.py:107-108 | The parser input is the text after the first "```json" up to the next "```" (or to the end), stripped. This holds whenever the first "```" after the marker does not start one or two characters before the next "```json". |
| Fence.FenceClashDiffers | src/export_pdf.py:107-108 | When the first "```" after the marker starts one or two characters before the next "```json", the parser input differs from "up to the next fence". |
| Fence.ClashDiffers | src/export_pdf.py:108 | In that shape, the two splits keep strictly more text than "up to the next fence", even after stripping. |
| Fence.UpToNextFenceIff | src/export_pdf.py:107-108 | The parser input is "up to the next fence" exactly when the first "```" after the marker does not start one or two characters before the next "```json". |
| Fence.NoBacktickRunIsClear | src/export_pdf.py:108 | A reply with no run of four backticks after the marker never has that shape. |
| Fence.FencedBlockExtracted | src/export_pdf.py:107-108 | For prose + "```json" + block + "```" + trailer, the parser input is the stripped block and none of the prose. This holds when the prose has no "```json" of its own, the block contains no "```" and does not end in a backtick, and the trailer does not start with a backtick. |
| Fence.FourBacktickRun | src/export_pdf.py:108 | For "```json````json", the two splits give a lone backtick, while "up to the next fence" gives the empty string. |
| Pacing.EnforceRateLimit | src/export_pdf.py:41-48 | Each call adds exactly 1 to the counter and keeps the invariant "pauses = counter div 10". |
| Pacing.RunPauses | src/export_pdf.py:41-48 | From any state, n calls add one pause for each multiple of 10 the counter passes. |
| Pacing.PausesFromStart | src/export_pdf.py:22-48 | n requests starting from counter 0 produce n div 10 pauses. |
| Pacing.TenRequestsOnePause | src/export_pdf.py:46-48 | Any 10 consecutive requests contain exactly one pause. |
| Pacing.RunCompose | src/export_pdf.py:43-44 | Running a calls and then b more calls is the same as running a + b calls. |
| Gemini.Attempt | src/export_pdf.py:95-113 | The loop ends: starting from attempt k, it makes more than k and at most `retries` attempts in total. |
| Gemini.AttemptStep | src/export_pdf.py:97-113 | One pass of the loop bumps the counter. It stops with the request's answer when there is one or when no attempt is left, and otherwise goes on to the next attempt. A status 500, a decode error and an exception are treated alike. |
| Gemini.AttemptOutcome | src/export_pdf.py:95-114 | From attempt k on, every request before the last yields nothing, and the last request's answer is the result. A missing result means every attempt was used. |
| Gemini.AnalyzeContent | src/export_pdf.py:94-114 | An analysis makes 1 or 2 numbered requests and bumps the pacer once for each. The first answer that parses is returned, and the result is `None` only after 2 failures. |
| Gemini.AbsentIffAllAttemptsFail | src/export_pdf.py:94-114 | The result is `None` exactly when both requests yield nothing. |
| Gemini.FirstAnswerWins | src/export_pdf.py:106-109 | If the first reply parses, it is returned after a single request. |
| Gemini.FailureIsRetriedOnce | src/export_pdf.py:99-113 | After a failed first request (status 500, decode error or exception), a second request is made and its answer is the result. |
| Gemini.FailureKindsAreAlike | src/export_pdf.py:99-113 | Two services whose requests give the same answers produce the same analysis, whatever kind each failure was. |
| Gemini.EmptyObjectEndsLoop | src/export_pdf.py:109 | A reply that parses to `{}` ends the loop after one attempt and returns `{}`. |
| Extraction.PagesText | src/export_pdf.py:33-35 | The accumulated text is empty exactly when there is no page or the first page cannot be read. |
| Extraction.ExtractPdfText | src/export_pdf.py:29-38 | A document that does not open gives "". Otherwise the text is empty exactly when the document has no readable first page. |
| Extraction.OnePage | src/export_pdf.py:35 | A readable page contributes its text followed by "\n". |
| Extraction.PagesConcat | src/export_pdf.py:34-35 | The text of readable pages followed by more pages is the two texts concatenated, in page order. |
| Extraction.FailingPageTruncates | src/export_pdf.py:32-37 | A page that raises drops itself and every later page, and keeps all earlier pages. |
| Extraction.PagesLength | src/export_pdf.py:35 | The text of readable pages is as long as all page texts together plus one newline per page. |
| Report.ColumnsShape | src/export_pdf.py:15-19 | `EXCEL_COLUMNS` holds 15 distinct names, and the qualifications column is the last one. |
| Report.Export | src/export_pdf.py:137-139 | No records give no table. Otherwise there is one row per record, in order, with exactly the 15 columns in sheet order. Each cell is the record's value or empty, and the qualifications cell has its `;` rewritten. |
| Report.SplitLines | src/export_pdf.py:139 | A string cell keeps its length and has every `;`, and nothing else, turned into "\n", so no `;` is left. A cell that is not a string becomes empty, as pandas gives NaN there. |
| Report.NoSeparatorLeft | src/export_pdf.py:139 | No qualifications cell of the table contains a `;`. |
| Report.OnlyColumnsMatter | src/export_pdf.py:138 | Records that agree on the 15 columns give the same table, so extra keys are dropped. |
| Report.RowRecordCells | src/export_pdf.py:138 | A row with distinct column names reads back to exactly its cells. |
| Report.RowKeysStep | src/export_pdf.py:138 | Reading a row back keeps the columns of all earlier cells, plus the last cell's column. |
| Report.RowValuesStep | src/export_pdf.py:138 | With distinct columns, the last cell does not overwrite the value of any earlier column. |
| Report.RoundTrip | src/export_pdf.py:138-139 | A record with a string in each of the 15 columns and no other key reads back from its row unchanged, except that its qualifications have `;` turned into line breaks. |
| Batch.Collected | src/export_pdf.py:129-130 | Kept records are never more than the statuses logged, and every one of them is truthy. |
| Batch.ScanFolder | src/export_pdf.py:119-134 | There is one status per entry, in listing order. Each status is that entry's treatment with the counter where the earlier entries left it. The records are the kept results, and the pacer has counted every request. |
| Batch.Classified | src/export_pdf.py:121-134 | An entry is skipped exactly when its name does not end in ".pdf", gets no request exactly when its text is empty, and is analysed otherwise. |
| Batch.Status | src/export_pdf.py:122-134 | An entry is skipped exactly when its name does not end in ".pdf", and gets no request exactly when its text is empty. An analysed entry costs 1 or 2 requests, counted from the pacer it was given. |
| Batch.KeptIffNonEmpty | src/export_pdf.py:129-130 | An entry is kept exactly when its analysis returned an object other than `{}`. |
| Batch.RecordsBound | src/export_pdf.py:121-130 | There are never more records than ".pdf" entries. |
| Batch.RequestsBound | src/export_pdf.py:121-128 | In total, the request counter ends between the number of ".pdf" entries with text and twice that number, and that number is at most the number of ".pdf" entries. |
| Batch.EntryCost | src/export_pdf.py:121-128 | Each ".pdf" entry with text moves the request counter by 1 or 2, and every other entry leaves it unchanged. |
| Batch.LogEntryCost | src/export_pdf.py:127-128 | In any log, an entry moves the counter by its attempts when it was analysed, and by nothing otherwise. |
| Batch.ScanPauses | src/export_pdf.py:41-48 | Over a whole run, the number of pauses is the number of requests div 10. |
| Batch.CollectedGrows | src/export_pdf.py:128-130 | A longer prefix of the log keeps at least as many records, and strictly more when a kept entry is passed. |
| Batch.CollectedPosition | src/export_pdf.py:128-130 | The record of a kept entry sits at the position given by the number of kept entries before it. |
| Batch.RecordsInListingOrder | src/export_pdf.py:121-130 | Of two kept entries of the log, the earlier entry's record comes first in the records, which are the log's kept results. |
| Batch.ProcessPdfFolder | src/export_pdf.py:117-142 | No sheet is written exactly when no entry of the listing is kept. Otherwise the sheet has one row per kept entry. |
| Batch.CollectedEmpty | src/export_pdf.py:129-137 | A log keeps no record exactly when none of its entries is kept. |
| Batch.SheetOfLog | src/export_pdf.py:129-138 | The sheet of a log's kept records is absent exactly when no entry is kept, and otherwise has one row per kept entry. |
| Batch.SheetRowOfEntry | src/export_pdf.py:128-139 | Each kept entry has its own sheet row, placed after the rows of the kept entries before it. The row holds the entry's record projected onto each column, with the qualifications rewritten. |
| Batch.LogRow | src/export_pdf.py:137-139 | The same per-entry row fact for the sheet of any log's kept records. |
| Batch.NoPdfNoSheet | src/export_pdf.py:121-142 | A listing without a ".pdf" entry makes no request and writes no sheet. |
| Batch.PdfSuffixIsExact | src/export_pdf.py:122 | The ".pdf" test is an exact, case-sensitive suffix test. |
| Batch.OnePdfOneRow | src/export_pdf.py:117-142 | One ".pdf" file whose first reply parses to a non-empty object costs one request and gives a sheet of exactly that record's row. |
| Batch.EmptyObjectDropped | src/export_pdf.py:128-137 | A first reply that parses to `{}` costs one request, gives no record and writes no sheet. |

## Left out

- Reading the API key and configuring the client and model (lines 9-12, 26) are not modelled. They are interactive input and external client setup.
- The prompt text (lines 53-93) is not modelled. The service receives the document text directly, because the prompt is a fixed wrapping of it.
- The service call and the response's `status_code` and `text` are replaced by the outcome oracle `Gemini.Service`, because the service is remote. Whether the real response object has a `status_code` attribute cannot be checked from this code.
- PyMuPDF (`fitz.open`, `page.get_text`) is replaced by `Extraction.Document`, because the PDF library is not visible.
- `json.loads` is replaced by `Gemini.Parser`, which yields a JSON object or a decode error. Replies that parse to a JSON value other than an object are outside the model. For `null`, for example, the source would return `None` without retrying.
- Report.Export: it does not model the error pandas raises when the qualifications column holds no string at all. In the model, every non-string qualifications cell becomes empty.
- Fence.FencedReplyUpToNextFence: it needs its precondition, because the source's two-stage split keeps one or two backticks when the first "```" after the marker starts just before the next "```json" (`Fence.FenceClashDiffers`).
- Writing the `.xlsx` file, the output file name and `os.path.join` are not modelled. They are file I/O. The model stops at the rows of the table.
- `time.sleep(60)` is modelled only as a counted pause, and the `print` logging is not modelled at all. Both are I/O.
- The order of `os.listdir` is the given order of the entry sequence, because it is OS-dependent. A missing folder, where `os.listdir` raises before the loop starts, is not modelled.
- The request counter is process-wide. The model starts it at 0 for one call of `process_pdf_folder`, which is how the script runs.
- Quota handling, back-off between attempts, and retries of a whole file are not modelled, because the code has none of them. Its only policy is the two-attempt loop above.

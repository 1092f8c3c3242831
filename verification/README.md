# Résumé image parser — verified model of its pure core

The repository has two small pipelines. One flattens a PDF into a single tall
image. The other sends résumé images to a hosted language model and appends the
extracted fields to a CSV file. Most of it is glue around external services. This
project models the pure logic inside that glue and proves what it promises:

- **Phone-number normalisation** (`ResumeParser.format_number`). Every `+91`
  (with an optional `-` after it) and every non-digit is deleted. The remaining
  digits are cut into consecutive ten-digit groups, which are joined by `", "`.
- **Fence stripping** of the model's reply. The reply is stripped of whitespace.
  A "```json" fence is looked for first and a bare "```" fence second. The
  enclosed text is stripped again.
- **Row completion**. A file name plus a parsed key/value map become a row with
  the nine fixed columns in fixed order.
- **The CSV header decision**. A header line is written before a row exactly when
  the file is zero-length.
- **The folder loop**. It folds the parse outcomes of a folder of images into the
  results summary and the CSV file.
- **The page-stacking layout** of `merge_pdf_to_image`. It computes the canvas
  size and the paste offsets from the page sizes.

Modules: `Wrappers` (Option/Result), `Text` (digits, whitespace, substring search,
`split` pieces, `strip`, `join`), `Phone`, `Fences`, `Records`, `Csv`, `Resume`
(the per-image parse and the folder loop) and `PdfLayout`.

Two behaviours of `format_number` are worth stating plainly:

- It deletes every `+91` wherever it occurs, not only a leading one. This includes
  a `91` right after a `+` in mid-text (`Phone.FormatNumberCodeMidString`).
- It cuts the cleaned digits into consecutive ten-digit chunks and drops a shorter
  tail. Twelve digits therefore give their first ten, and twenty digits give two
  groups.

One edge of the fence stripping is modelled as written, because
`split("```json")[1]` ends at the next "```json". For the reply
"```json{}````json", the piece before the next "```json" is "{}`", which holds no
complete "```", so the result keeps the stray backtick
(`Fences.SecondJsonFenceCutsFirst`).

## Model

| member | source | states |
|---|---|---|
| Text.Trim | resume_parser.py:74 | `strip()` returns a slice of its input. Everything outside the slice is whitespace, and the slice is empty or starts and ends with non-whitespace. |
| Text.TrimIdempotent | resume_parser.py:74-78 | Stripping an already stripped text changes nothing, so the second strip of a reply without a fence is harmless. |
| Text.Before | resume_parser.py:76 | `s.split(p)[0]` is a prefix of `s` that holds no `p`. It is all of `s` exactly when `p` does not occur, and otherwise it is followed by `p` and no `p` starts anywhere inside it. |
| Text.After | resume_parser.py:76 | The text after the first occurrence of `p` is a suffix of `s`. `p` occurs right before it and nowhere earlier. |
| Text.ContainsLaws | resume_parser.py:75-77 | The `in` test: the empty text is in every text, a text that is in another is no longer than it, and between texts of equal length `in` holds exactly when they are equal. |
| Text.Join | resume_parser.py:48 | `sep.join(parts)`: no parts give the empty text, one part gives that part, the first part always leads the result, and the length is the parts' total length plus one separator between each neighbouring pair. |
| Phone.Clean | resume_parser.py:46 | The left-to-right scan of `re.sub(r'\+91-?\|\D', '', s)` never lengthens the text and leaves only digits. |
| Phone.CleanIsKeptDigits | resume_parser.py:46 | Cleaning keeps, in their original order, exactly the digits that are not the `9` or `1` of a `+91`, wherever the `+91` occurs. All other characters are deleted. |
| Phone.FindTen | resume_parser.py:47 | Every match of `re.findall(r'\d{10}', s)` is exactly ten digits long. |
| Phone.FindTenOnDigits | resume_parser.py:47 | On a digit string, findall returns the consecutive ten-digit groups, left to right. |
| Phone.GroupsCoverPrefix | resume_parser.py:47 | The groups concatenate to the first 10·k characters of the cleaned string, where k = length div 10. A shorter tail is dropped. |
| Phone.FormatNumber | resume_parser.py:43-45 | An empty (falsy) input gives "". |
| Phone.FormatNumberShape | resume_parser.py:43-48 | The output is the kept digits cut into k ten-digit groups and joined by ", ". Fewer than ten kept digits (for instance "12345") give "". |
| Phone.FormatNumberIdempotent | resume_parser.py:43-48 | Normalising an already normalised number returns it unchanged. |
| Phone.FormatNumberIndianPrefix | resume_parser.py:46-48 | "+91-" followed by ten digits normalises to those ten digits. |
| Phone.FormatNumberTwoNumbers | resume_parser.py:46-48 | Two ten-digit numbers separated by digit-free text (not ending in "+") come out as "d1, d2". |
| Phone.FormatNumberCodeMidString | resume_parser.py:46-47 | A "+91" in mid-text is deleted together with its "91". Ten digits, " +91" and eight digits keep only the first ten. |
| Fences.StripFenceIsFenceFreePiece | resume_parser.py:74-78 | For every reply, the cleaned text contains no "```" and is a contiguous piece of the stripped reply. |
| Fences.StripFenceWithoutFence | resume_parser.py:74-78 | A reply without any "```" is only stripped. |
| Fences.StripFenceTagged | resume_parser.py:75-76 | The text after the first "```json" and up to the closing "```" is returned, stripped. Bare fences before the tagged one do not matter. |
| Fences.StripFenceBare | resume_parser.py:77-78 | With no "```json" anywhere, the text between the first two bare fences is returned, stripped. |
| Fences.StripFenceTaggedUnclosed | resume_parser.py:75-76 | An unclosed "```json" fence yields everything after it, stripped. |
| Fences.StripFenceBareUnclosed | resume_parser.py:77-78 | An unclosed bare fence yields everything after it, stripped. |
| Fences.FencedJsonCleansLikeBare | resume_parser.py:74-79 | "```json\n" + json + "\n```" cleans to exactly what the bare json text cleans to, so both reach the JSON decoder as the same text. |
| Fences.TaggedFenceWins | resume_parser.py:75-78 | The tagged fence is checked before the bare fence. "```\nx\n```json\ny\n```" gives "y", not "x". |
| Fences.SecondJsonFenceCutsFirst | resume_parser.py:76 | A second "```json" right after a stray backtick cuts the piece before the closing "```": "```json{}````json" gives "{}`". |
| Records.CompleteRow | resume_parser.py:107-109 | The row has the nine columns in fixed order. Present keys are copied unchanged and absent keys become "". The data's own "filename" overrides the outer file name, and the outer name is used otherwise. |
| Records.CompleteRowDropsExtraKeys | resume_parser.py:109 | Keys outside the nine columns never affect the row. |
| Csv.InitCsv | resume_parser.py:37-41 | A missing file is created holding exactly the header line. An existing file, even an empty one, is kept as it is. |
| Csv.AppendRow | resume_parser.py:111-120 | Existing lines are unchanged and the row becomes the last line. A header line is written before it if and only if the file was zero-length, which adds exactly one header. |
| Csv.AppendKeepsWellFormed | resume_parser.py:113-120 | Appending to a file that has one header at the top and only rows after it keeps that shape. |
| Resume.NormaliseNumber | resume_parser.py:80-81 | The stored "number" is `format_number` of the old value, or of "" when the key is missing. Every other field is unchanged, and "number" is the only key that can be added. |
| Resume.NormaliseNumberIdempotent | resume_parser.py:81 | Normalising the fields twice is normalising them once. |
| Resume.ParseResume | resume_parser.py:72-104 | The result carries the file name. It succeeds if and only if the model call succeeded and the fence-stripped reply decodes. On success, the data is the decoded map with its number normalised. A failed model call gives the "Error processing resume: " message, and a decode failure gives the "Failed to parse JSON response: " message. |
| Resume.ParsedNumberIsNormal | resume_parser.py:79-81 | After a successful parse, the stored number is a fixed point of `format_number`. |
| Resume.ProcessFolder | resume_parser.py:138-161 | `successful + failed == total`, `len(processed_files) == successful` and `len(failed_files) == failed`. The CSV gains exactly one row per successful outcome, in input order, with a header first only if the file was empty. Failures are listed with their error and write nothing. |
| Resume.HandleItemStep | resume_parser.py:145-160 | Handling the next image moves the summary and the file on by exactly that image. A success appends its completed row and one processed entry that carries the data's "name" (or "Unknown"). A failure adds only a failed entry with its error. |
| Resume.FoldCounts | resume_parser.py:145-160 | Every image is counted exactly once, as a success or as a failure, and every success has exactly one processed entry. |
| Resume.FailedItemWritesNoRow | resume_parser.py:146-161 | Dropping a failed image from the folder leaves the written rows unchanged. |
| Resume.ParsedItemWritesItsRow | resume_parser.py:146-153 | A successful image contributes exactly its completed row, between the rows of the images before and after it. |
| Resume.AppendedFileWellFormed | resume_parser.py:113-120 | Any number of appends keep a well-formed file well formed. |
| Resume.FreshFileRun | resume_parser.py:38-41 | A file created by the constructor and then fed by the folder loop holds exactly one header, at the top, plus one line per successful image. |
| PdfLayout.MergeLayout | pdf_to_image.py:6-23 | An empty page list gives the "No pages found in PDF: " error and no canvas. Otherwise the width is the largest page width, and the height is the sum of page heights. Page k is pasted at x = 0, y = the heights of pages 0..k-1 added up, and every page ends inside the canvas. |
| PdfLayout.BandsTileCanvas | pdf_to_image.py:18-21 | Consecutive bands abut (`y_{k+1} = y_k + h_k`), every band ends inside the canvas, the first starts at 0, and after the last page the offset equals the canvas height. |

## Left out

- The language-model client, credential loading from the environment, the prompt text and `Image.open` are left out. The model's reply is an input `Result<string>`, and an error stands for any exception raised before the reply text is available.
- `json.loads` is left out. It is a function parameter `string -> Result<Fields>`. A reply that decodes to something other than an object, which fails later with the generic message, is not modelled.
- Field values are text. Non-string JSON values (lists, numbers, `null`) are left out, and so is the `TypeError` a non-string `number` raises inside `re.sub`.
- `\d` is read as ASCII `0`-`9`. Python's `\d` also matches other Unicode decimal digits. Whitespace for `strip()` is Python's fixed whitespace set.
- pandas serialisation (quoting, separators, UTF-8, newline handling) is left out. The CSV file is a sequence of header and record lines, and "zero-length" is the empty sequence.
- A failing CSV write is left out. `append_parsed_resume` has no exception handler around `csv_path.stat()` and `to_csv` (resume_parser.py:113-120), so an error there (a deleted file, a permission error) leaves `process_resume_folder` and aborts the batch without a summary. The model assumes every append succeeds.
- Filesystem work is left out: `glob` listing and its order, the extension list, `mkdir`, `exists`, `stat`, `os.path.basename` and output-file naming. The folder loop receives each image's path together with its parse outcome.
- PDF rendering (`convert_from_path`, DPI) and all PIL pixel work (`Image.new`, `paste`, `save`) are left out. The layout works on page sizes only.
- `process_pdf_folder` is left out. It is a loop of file I/O that catches and prints each file's exception.
- Printing and logging are left out.
- Phone.FormatNumber: its own contract states only the empty-input case. The full output shape and idempotence are stated by `Phone.FormatNumberShape` and `Phone.FormatNumberIdempotent`.

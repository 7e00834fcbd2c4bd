# Arabic OCR pipeline — a Dafny model

This project models the pure core of `streamlit_app.py`, a Streamlit app that turns a
scanned Arabic PDF or image into an editable Word document. For each page image the
app does three things:

- It runs the OCR engine on the image.
- It keeps the recognised lines, and for a page with text it adds one paragraph per
  line to the document, each given the Arabic format assignments of lines 88-96, and
  a page break unless the page is the last.
- It writes a transcript entry `— Page N —` for the page.

When all pages are done, it joins the entries into a text preview and offers the
document as `arabic_ocr_<stem>.docx`.

The modules:

- `Results`: `Option` and `Result`.
- `PyText`: Python's `str.strip()` with the exact `str.isspace` character set, and
  `sep.join(parts)`.
- `Decimal`: `str(n)` for page numbers, and reading it back.
- `OcrLines`: engine entries, line filtering (`run_ocr_on_image`), and the per-page
  record of kept lines and page text.
- `DocModel`: the Word document as a list of operations (heading, paragraph, page
  break), the Arabic paragraph format, and the page loop's effect on the document.
- `Transcript`: page entries, the combined transcript, and its display fallback.
- `Pipeline`: one engine call per page, the whole run (document, transcript,
  download name), and the page loop as a method.
- `Scenario`: a worked two-page upload.

## How the model treats the environment

- **Engine calls.** The OCR engine is not modelled. Each page's call is an input:
  either `Raised`, or `Returned` with an optional list of entries.
  - An entry is either `Malformed` (the `line[1][0]` lookup raises) or a
    `Detection` whose text may or may not be a string.
  - A `None` result counts as no entries, like the `or []` on line 64.
- **Shaping.** Arabic shaping followed by bidi reordering (lines 85-86) is a
  parameter `visual: string -> string`. Every property holds for every such
  function. Being a total function, it never raises, and neither does adding or
  formatting a paragraph (see "Left out").
- **Path stem.** `Path(file_name).stem` is a parameter `stem: string -> string`.
- **Paragraph format.** The format is the constant record `DocModel.ArabicFormat`. It
  records the values lines 88-96 assign, as written:
  - `right_to_left = True`, alignment right
  - line spacing 1.15, written as the integer percentage 115
  - font size 12 pt and font name "Arabic Typesetting"

  Whether python-docx stores each assignment in the saved file is outside the model
  (see "Left out").

### Behaviour of the code worth knowing

- **Engine failures.** An exception from the engine call propagates. Line 64 is
  outside the per-entry `try`, so one failing page ends the whole run
  (`RunError.EngineRaised(page)`). There is no per-page recovery.
- **Page breaks.** The comment on line 160 says a break goes between pages and not
  after the last page. The code (lines 161-162) does something narrower:
  - A break is added only after a page that has text and is not the last page.
  - A page without text adds no break.
  - So when the last page has no text but an earlier page has, the document ends
    with a trailing break (`DocModel.TrailingBreakExactly`), against the comment.
    This is listed under "Findings".
- **Transcript.** The transcript cannot always be split back into pages. A
  recognised line may itself contain a blank line followed by `— Page 2 —`
  (`Transcript.TranscriptNotInjective`).
  - Each entry on its own does read back (`Transcript.SplitEntryRoundTrip`).
  - The fallback text "No text found." can never appear, because the transcript
    of at least one page is never empty (`Transcript.DisplayedIsCombined`).

## Model

| member | source | states |
|---|---|---|
| PyText.Strip | streamlit_app.py:69-70 | the result has no leading or trailing whitespace, is no longer than the input, and is empty exactly when the input is all whitespace |
| PyText.StripSplit | streamlit_app.py:69-70 | the input is some whitespace, then the stripped text, then some whitespace: strip only removes whitespace from the ends |
| PyText.StripUnique | streamlit_app.py:151 | whitespace around an already-stripped text is exactly what strip removes, so the stripped text comes back |
| PyText.StripIdempotent | streamlit_app.py:69-70 | strip leaves a stripped text unchanged, and stripping twice is the same as stripping once |
| PyText.JoinOfStripped | streamlit_app.py:151 | joining non-empty stripped parts gives a stripped text that is empty only for no parts and starts with the first part's first character |
| Decimal.NatToDecimal | streamlit_app.py:154 | a page number prints as a non-empty run of decimal digits with no leading zero |
| Decimal.ParseNatToDecimal | streamlit_app.py:154 | reading the printed page number back gives the number |
| Decimal.DigitPrefixOfNumeral | streamlit_app.py:154 | the longest digit prefix of a numeral followed by a non-digit is that numeral |
| OcrLines.ExtractLines | streamlit_app.py:66-73 | every line kept is non-empty and stripped, and there are no more lines than entries |
| OcrLines.KeptIndices | streamlit_app.py:66-73 | the positions of the kept entries, in increasing order, are exactly the entries whose text is a string with non-empty strip |
| OcrLines.ExtractLinesSelects | streamlit_app.py:66-73 | the k-th kept line is the stripped text of the k-th kept entry, so lines keep the engine's order |
| OcrLines.ExtractLinesAppend | streamlit_app.py:66-73 | filtering works entry by entry: the lines of two entry lists are the lines of each, concatenated |
| OcrLines.MalformedIgnored | streamlit_app.py:67-73 | a malformed entry is skipped without failing and changes nothing |
| OcrLines.RunOcrOnImage | streamlit_app.py:63-78 | the loop returns the filtered lines; a missing or empty engine result gives no lines |
| OcrLines.PageTextOfKept | streamlit_app.py:150-153 | for kept lines, the final strip of the newline join removes nothing, and the page text is non-empty exactly when there is a line |
| OcrLines.ReadPageWellFormed | streamlit_app.py:150-151 | a page read from kept lines holds those lines and their newline join as its text |
| OcrLines.WellFormedHasText | streamlit_app.py:151-153 | a page has text exactly when it has a kept line, and its text is stripped |
| DocModel.LineParagraphsTexts | streamlit_app.py:157-158 | the paragraphs of a page are the visual forms of its lines, in order, and include no break |
| DocModel.PageOpsKinds | streamlit_app.py:153-162 | a page adds only page breaks and paragraphs in the Arabic format |
| DocModel.PageOpsCounts | streamlit_app.py:153-164 | a page with text adds its lines' paragraphs and one break unless it is the last page; a page without text adds nothing |
| DocModel.NoHeadingInPages | streamlit_app.py:147-164 | the page loop adds no heading |
| DocModel.OnlyTitleHeading | streamlit_app.py:142-143 | the document starts with the level-1 heading "Extracted from: " plus the file name, and has no other heading |
| DocModel.UniformFormat | streamlit_app.py:88-96 | every paragraph the page loop adds carries the assignments of lines 88-96: `right_to_left` set, right alignment, spacing 1.15, 12 pt, font name "Arabic Typesetting" |
| DocModel.ParagraphsFollowLines | streamlit_app.py:147-158 | the paragraph texts are the visual forms of all kept lines, in page-then-line order, so no-text pages add none |
| DocModel.BreakCountMatchesPages | streamlit_app.py:160-162 | the number of breaks equals the number of pages that have text and are not the last page |
| DocModel.PagesBreaksFollowParagraphs | streamlit_app.py:153-162 | every page break directly follows a paragraph |
| DocModel.DocumentBreaksFollowParagraphs | streamlit_app.py:142-162 | in the whole document every break directly follows a paragraph, never the heading |
| DocModel.EarlyPagesEndWithBreak | streamlit_app.py:160-164 | before the last page, the pages so far add something exactly when one of them has text, and then the additions end with a break |
| DocModel.TrailingBreakExactly | streamlit_app.py:153-164 | the document ends with a break exactly when the last page has no text and an earlier page has; when the last page has text it ends with a paragraph |
| DocModel.SeparatedEndsWithParagraph | streamlit_app.py:160 | with breaks only between pages that have text, the pages add nothing exactly when none has text, and otherwise end with a paragraph |
| DocModel.SeparatedNoTrailingBreak | streamlit_app.py:160 | a document built with breaks only between pages never ends with a break |
| DocModel.EarlyPagesAreSeparated | streamlit_app.py:160-164 | before the last page, the code's additions are the between-pages separation followed by one break, or nothing when no page has text |
| DocModel.CodeIsSeparatedPlusTrailing | streamlit_app.py:160-164 | the code's document is the between-pages document, plus one trailing break exactly when the last page has no text and an earlier page has |
| Transcript.Entries | streamlit_app.py:147-164 | there is one entry per page, in page order, and the k-th entry is numbered k+1 |
| Transcript.BodyOfWellFormed | streamlit_app.py:151-164 | an entry's body is the no-text marker for a page without lines, and its lines joined by newlines otherwise |
| Transcript.SplitEntryRoundTrip | streamlit_app.py:154 | an entry reads back as the page number it was written for and the page's body |
| Transcript.EntryStripped | streamlit_app.py:154 | every entry is non-empty and stripped |
| Transcript.CombinedIsJoin | streamlit_app.py:186 | the final strip of the joined entries removes nothing; the transcript is empty only for no pages and otherwise starts with the em dash |
| Transcript.CombinedOfWellFormed | streamlit_app.py:186 | for pages read from kept lines, the transcript is the entries joined by blank lines and is never empty when there is a page |
| Transcript.EntriesReadBack | streamlit_app.py:147-164 | the k-th transcript entry reads back as page number k+1 and the body of the k-th page |
| Transcript.DisplayedIsCombined | streamlit_app.py:188 | with at least one page the preview shows the transcript itself, never the fallback text |
| Transcript.TranscriptNotInjective | streamlit_app.py:186 | a one-page upload whose line contains a page header has the same transcript as a two-page upload |
| Pipeline.DownloadNameRoundTrip | streamlit_app.py:174-175 | the download name is the prefix, the stem and the suffix, and the stem can be read back from it |
| Pipeline.CallResults | streamlit_app.py:147-150 | pages are processed only if every engine call returns, with each page's result in order; otherwise the failure names the first page whose call raised |
| Pipeline.ProcessPage | streamlit_app.py:150-164 | one loop iteration adds exactly that page's operations and transcript entry |
| Pipeline.ProcessUpload | streamlit_app.py:137-186 | the imperative page loop computes exactly the run's result: no pages, the first failing page, or the document, transcript and download name |
| Pipeline.PageOfWellFormed | streamlit_app.py:150-151 | every page read from an engine result holds kept lines and their newline join |
| Pipeline.RunOutput | streamlit_app.py:142-186 | when there is a page and every engine call returns, the run succeeds and outputs the document built from the returned pages, their transcript and the download name |
| Pipeline.RunSucceedsExactly | streamlit_app.py:137-150 | a run succeeds exactly when there is a page and every engine call returns; no pages is its own error |
| Pipeline.RunPages | streamlit_app.py:147-151 | a successful run has one well-formed page per engine call, read from that call's result |
| Pipeline.DocumentShapeHolds | streamlit_app.py:142-164 | the document has the title heading first and nowhere else, one Arabic-format paragraph per kept line in order, a break for each page with text except the last, and every break after a paragraph |
| Pipeline.RunDocument | streamlit_app.py:142-164 | the document of a successful run has the shape above for the pages its engine calls returned |
| Pipeline.RunTrailingBreak | streamlit_app.py:160-164 | the document of a successful run ends with a break exactly when its last page has no text and an earlier page has |
| Pipeline.RunTranscript | streamlit_app.py:145-186 | the transcript of a successful run is non-empty and is one entry per call joined by blank lines, each entry reading back as its page number and body |
| Pipeline.RunDownloadName | streamlit_app.py:174-175 | the download name of a successful run gives back the stem of the uploaded file's name |
| Scenario.FirstPageLines | streamlit_app.py:64-73 | for a sample result, the malformed entry is dropped and the padded line is stripped |
| Scenario.TwoPageExample | streamlit_app.py:137-186 | for a sample two-page upload whose second page has no text, the exact document (ending in a trailing break) and the exact transcript |

## Left out

- The Streamlit interface is not modelled, because it is presentation and I/O. This covers the page setup, upload widget, preview, spinners, messages, download button and tip (lines 16-28, 102-135, 171-193).
- Loading and caching the PaddleOCR model and the `ocr.ocr` call are not modelled (lines 34-41, 64), because the engine is external. Each call's outcome is an input instead.
- The model does not check that a real engine returns the flat list of entries the code's comment describes. It takes that shape as given.
- Temporary files are not modelled (lines 59-61, 74-76, 167-169, 177), because they are filesystem I/O. This covers the JPEG written for the engine, its deletion, and the saved `.docx`.
- PDF rasterisation with pdf2image and image decoding with PIL are not modelled (lines 47-49, 116-133), because they are external libraries. The model starts from the list of page images, represented by their engine calls.
- Arabic shaping and the Unicode bidirectional algorithm are not modelled (lines 85-86), because they are foreign library code. They are the `visual` parameter.
- `Path.stem` is not modelled (line 174), because it is library code. It is the `stem` parameter.
- Serialising the document to Office Open XML with python-docx is not modelled (line 168), because it is a library. The model stops at the list of document operations.
- DocModel.UniformFormat: the font size and name are set on each run of the paragraph (lines 93-96). The model records them once, on the paragraph's format. A non-empty paragraph text sits in one run, so this is the same. When `visual(line)` is empty, `add_paragraph("")` makes no run and lines 93-96 assign nothing, but the model still records 12 pt and the font name. Shaping that deletes every character of a kept line, for example a line of diacritics only, gives such an empty text.
- DocModel.UniformFormat: the model assumes that lines 85-96 return normally for every kept line. `ArabicParagraph` is total, so `Pipeline.Run` succeeds whenever every engine call returns. In the code, nothing catches an exception from shaping, bidi reordering or the format assignments. Such an exception, for example an `AttributeError` if python-docx refuses the `right_to_left` assignment on line 89, would end the run, and the model has no error for it.
- DocModel.UniformFormat: the model records the assignments of lines 88-96 as written, not whether python-docx writes them into the saved file. `right_to_left` on a paragraph format may not be a python-docx property at all, and `font.name` and `Pt(12)` set the Latin font slots rather than the complex-script ones Word uses for Arabic.
- DocModel.UniformFormat: the line spacing 1.15 is recorded as the percentage 115, not as a floating-point value.
- Nothing is modelled for parallel page processing, because the code processes pages one after another.

## Findings

| source | as written | input that shows it | evidently intended | confidence | as-written member | corrected member |
|---|---|---|---|---|---|---|
| streamlit_app.py:160-164 | a break follows every page with text except page N, so an empty last page leaves the break of the page before it at the end | two pages, the first with text and the second without (`Scenario.TwoPageExample`): the document ends with a page break | breaks only between pages, none after the last, as the comment on line 160 says | not executed | DocModel.TrailingBreakExactly | DocModel.SeparatedNoTrailingBreak |

The corrected builder is `DocModel.BuildSeparated`. `DocModel.CodeIsSeparatedPlusTrailing`
proves that the two builders differ only in that one trailing break. `Pipeline.Run` keeps
the code's behaviour, so that the page loop `Pipeline.ProcessUpload` matches the script
line by line.

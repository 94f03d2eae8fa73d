# PDF-GPT text pipeline in Dafny

PDF-GPT is a small Streamlit app. It extracts the text of an uploaded PDF,
summarises the opening of the document with a summarisation model, and
answers an optional question with a question-answering model. This project
models the text pipeline of `GPT/pdfgpt.py` around those two models:

- `extract_text_from_pdf` (module `PdfExtraction`). The PDF is
  `OpenFails` or `Opened(pages)`. Each page is `Extracted(Option<string>)`,
  the result of `page.extract_text()`, or `Raises`, an exception from the
  PDF library. The loop appends page texts in order. It stops after the
  first page that takes the text past 10,000,000 characters and raises the
  size warning. A failure ends the loop and is reported. The text read so
  far is kept, because `text` is set before the `try`. The method
  `ExtractTextFromPdf` is proved equal to the function `Extract`, and the
  lemmas say what `Extract` returns.
- `chunk_text` (module `Chunking`). This is a pure function, the list
  comprehension over `range(0, len(text), max_length)`. Lemmas give the
  chunk count, the shape and offset of each chunk, the round trip back to
  the text, and the fact that the first k chunks come from the first
  k * max_length characters.
- `process_pdf` (module `PdfProcessing`). The summarizer and the QA model
  come in as function parameters. The summary loop summarises the first 5
  chunks, appends each fragment followed by one space, and strips the
  result. The answer is the model's answer over the first 10,000 characters,
  or "No question provided." when the question is None or empty. A ghost
  out-parameter records the chunks handed to the summarizer.
- Shared helpers (module `Strings`): Python's whitespace set, `str.strip()`
  and string concatenation. `Wrappers` holds `Option`.

Strings are `seq<char>`. Dafny's `char` is a Unicode scalar value, so
`|s|` counts code points, like Python's `len`. A Python `str` can also hold
lone surrogates, which a Dafny `char` cannot: the model covers only strings
made of Unicode scalar values.

The extractor does not return an empty string on every failure. A failure
part-way through returns the pages read before it, because the text is
initialised at line 12, outside the `try`. A failure to open the file, or
a failure before any page has given text, returns the empty string.

## Model

| member | source | states |
|---|---|---|
| Strings.TrimStart | GPT/pdfgpt.py:43 | The result is the suffix that does not start with whitespace, and everything cut off is whitespace (Python's isspace set). |
| Strings.TrimEnd | GPT/pdfgpt.py:43 | The result is the prefix that does not end with whitespace, and everything cut off is whitespace. |
| Strings.Strip | GPT/pdfgpt.py:43 | `str.strip()`: the result neither starts nor ends with whitespace, and it is empty exactly when the input is all whitespace. |
| Strings.IsSpace | GPT/pdfgpt.py:43 | Python's `str.isspace` set; below U+0080 it is exactly the characters 9-13, 28-31 and the space. |
| Strings.StripIsInfix | GPT/pdfgpt.py:43 | The stripped string is the piece of the input that starts after the leading whitespace, and everything before it is whitespace. |
| Strings.StripTrailer | GPT/pdfgpt.py:43 | Everything after the stripped piece in the input is whitespace. |
| Strings.StripPadded | GPT/pdfgpt.py:43 | Stripping removes exactly the surrounding whitespace: a core with non-space ends comes back unchanged from any whitespace padding. |
| Chunking.Window | GPT/pdfgpt.py:28 | The slice `text[i:i+max_length]` with the end clamped to the text: non-empty, at most max_length long, taken at offset i * max_length, and either full width or ending at the end of the text. |
| Chunking.ChunkText | GPT/pdfgpt.py:27-28 | There are exactly ceil(len / max_length) chunks, so empty text gives no chunks. |
| Chunking.ChunkShape | GPT/pdfgpt.py:28 | Every chunk is non-empty and at most max_length long. Every chunk but the last is exactly max_length long, and the last ends at the end of the text. Chunk i is the text at offset i * max_length. |
| Chunking.ChunksCoverPrefix | GPT/pdfgpt.py:28 | The first i chunks, joined, are the first min(i * max_length, len) characters of the text. |
| Chunking.ChunksConcatenate | GPT/pdfgpt.py:27-28 | Joining all chunks in order gives back the text exactly. |
| Chunking.ChunksOfPrefix | GPT/pdfgpt.py:28 | The first k chunks of a text are the chunks of its first k * max_length characters. |
| PdfExtraction.PageText | GPT/pdfgpt.py:16 | `page.extract_text() or ""`: the page's text when there is one, and "" when extraction gives None. |
| PdfExtraction.ScanFrom | GPT/pdfgpt.py:15-21 | Reading on from page i gives the text of some leading pages. The text exceeds the cap only with the warning, and never with both the warning and the error. |
| PdfExtraction.Extract | GPT/pdfgpt.py:11-24 | An unopenable file gives "" and the error. Otherwise the text is the joined text of some leading pages, within the cap unless the warning is raised. |
| PdfExtraction.ExtractTextFromPdf | GPT/pdfgpt.py:11-24 | The page loop with its `break`s and `except` returns exactly `Extract(pdf)`. |
| PdfExtraction.ScanToFirstStop | GPT/pdfgpt.py:15-23 | Reading ends at the first stopping page: the pages before a raising page and the error, or the pages up to the page that crosses the cap and the warning. |
| PdfExtraction.ScanToEnd | GPT/pdfgpt.py:15-21 | With no stopping page left, reading runs to the last page with no flag. |
| PdfExtraction.FirstStopExists | GPT/pdfgpt.py:15-21 | Any stopping page has a first stopping page at or before it. |
| PdfExtraction.ExtractReadsAllPages | GPT/pdfgpt.py:15-21 | If no page raises and the cap is never crossed, all pages are read, in order, with a page without text contributing "", and no flag is raised. |
| PdfExtraction.ExtractFailsAt | GPT/pdfgpt.py:12-24 | A failure at page k, with no earlier stop, returns the text of pages 0..k-1 and reports the error instead of raising it. |
| PdfExtraction.ExtractTruncatesAt | GPT/pdfgpt.py:17-21 | Crossing the cap at page k, with no earlier stop, returns pages 0..k with the warning; the length is over the cap by at most page k's length. |
| PdfExtraction.ExtractWarnsIff | GPT/pdfgpt.py:15-21 | The size warning is raised if and only if some page takes the joined text past 10,000,000 characters before any page raises. |
| PdfExtraction.ExtractFailsIff | GPT/pdfgpt.py:15-24 | The error is reported if and only if some page raises before the joined text has crossed the cap. |
| PdfProcessing.Asked | GPT/pdfgpt.py:41 | The truth value of `question`: false exactly for None and "". |
| PdfProcessing.FirstChunks | GPT/pdfgpt.py:37 | `chunks[:5]`: the first min(5, len) chunks, in order. |
| PdfProcessing.Spaced | GPT/pdfgpt.py:36-38 | The loop's `summary += fragment + " "`: one extra character per fragment, and a space at the end when there is any fragment. |
| PdfProcessing.Summary | GPT/pdfgpt.py:36-43 | The summary `process_pdf` returns neither starts nor ends with whitespace, and it is "" when there are no chunks. |
| PdfProcessing.Answer | GPT/pdfgpt.py:41 | Without a question (None or ""), the answer is "No question provided.". Otherwise it is the QA model's answer for the question over the first min(10,000, len) characters. |
| PdfProcessing.ProcessPdf | GPT/pdfgpt.py:31-43 | The summarizer is given exactly the first min(5, chunks) chunks of the extracted text, in order. The summary is those fragments, each followed by a space, stripped. The answer is `Answer` over the extracted text. |
| PdfProcessing.SpacedIsJoinedPlusSpace | GPT/pdfgpt.py:37-38 | Appending each fragment plus one space gives the fragments joined by single spaces, plus one trailing space. |
| PdfProcessing.SummaryOfCleanFragments | GPT/pdfgpt.py:37-43 | When every fragment is non-empty with non-space ends, the stripped summary is the fragments joined by exactly one space. No fragments give "". |
| PdfProcessing.SummaryReadsOnlyOpening | GPT/pdfgpt.py:35-38 | Two texts that agree on their first 5 * 1000 characters get the same summary: the chunks after the fifth are ignored. |
| PdfProcessing.AnswerReadsOnlyContext | GPT/pdfgpt.py:41 | The answer depends only on the first 10,000 characters. Without a question it does not depend on the QA model at all. |

## Left out

- The Streamlit UI (GPT/pdfgpt.py:46-74): title, uploader, question input, button, spinner and rendering. It holds no pipeline logic.
- The 200 MB upload check (GPT/pdfgpt.py:53-59). It is a floating-point size in megabytes, used only for a UI message.
- Model loading and inference (GPT/pdfgpt.py:7-8, 38, 41). The models are opaque function parameters. The `max_length=50, min_length=20, do_sample=False` arguments are hints to the model and are not modelled. An exception from a model call, which would propagate out of `process_pdf`, is not modelled.
- PDF library internals (GPT/pdfgpt.py:14-16). A PDF is a list of per-page outcomes. A failure when the document is closed after the loop is not modelled. It would keep the whole text and report the error.
- `st.warning` and `st.error` (GPT/pdfgpt.py:20, 23) are the `truncated` and `failed` flags of `Extraction`. Their message text is not modelled. `process_pdf` drops these flags, as the source does.
- Chunking.ChunkText: requires max_length > 0. In Python a width of 0 raises ValueError and a negative width gives an empty list. Neither happens in this program, which always uses 1000.
- PdfProcessing.Answer: the QA call count is not recorded, because the model is a pure function parameter. That it is not consulted without a question is stated as independence from the model (AnswerReadsOnlyContext).
- Email redaction, a similarity guard on answers and word-limit truncation are not part of GPT/pdfgpt.py, so they are not modelled.

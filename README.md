# PDF to Audio: the text-extraction core in Dafny

The application takes an uploaded PDF and a page range typed by the user, and extracts the
text of the selected pages. First it uses the PDF's embedded text (PyPDF2). If that yields
only whitespace, it falls back to OCR: each selected page is rendered at 3x with PyMuPDF and
read with Tesseract. If the result is still blank, the user is told that no text was found.
Otherwise the text goes to speech synthesis.

This project models that core. The pieces are:

- `PyText` (`pytext.dfy`) holds the Python string behaviour the code depends on:
  - `str.isspace` and `str.strip`;
  - `int()` on a string in base 10. It skips surrounding whitespace, accepts one sign, and then
    digits with single underscores. Its whitespace is not quite `str.isspace`: it does not skip
    the separators U+001C to U+001F, which `strip()` does remove;
  - `str.split` on `-`.

  `Join` (`sep.join`) and `Flatten` (`"".join`) are not called by the application. They are
  reference definitions that the lemmas use to characterise `split` and the page loops.
- `PageRanges` (`page_range.dfy`) is the page-range parse block of the button handler. It is
  pulled out as the function `ParsePageRange`. The result is no range, a zero-based half-open
  `PageRange(start, stop)`, or the `ValueError` with its cause.
- `Extraction` (`extraction.dfy`) is `pdf_to_text`. `PdfToText` is a method that runs the source's
  two loops (`DirectPass` and `OcrPass`) over one accumulator. It is proved equal to the function `ExtractText`, and the
  properties are proved as lemmas about `ExtractText`.
  - The libraries become plain inputs. A `TextLayer` is either unreadable or a sequence of
    per-page `extract_text()` outcomes (text, `None`, or raises).
  - A `RasterDoc` is either unopenable or a sequence of per-page OCR outcomes (text, or raises).
- `App` (`app.dfy`) is the button handler minus presentation. It parses the range, catches
  `ValueError`, extracts the text, and applies the blank-text gate.

`PdfToText` has one extra out-parameter, `ocrAttempted`. It records whether the OCR branch
was entered, which is where the OCR library would be called. The source has no such value.
It exists so that "OCR is never attempted when direct text is found" can be stated.

In these places the model follows the code, which a reader might not expect:

- When the direct pass yields non-empty whitespace, the OCR text is appended to that
  whitespace (`text += ...`). It does not replace it. `OcrFallbackAppends` states this.
- One page whose OCR raises makes the whole result `""`. No per-page isolation is done.
- A reversed range such as `"5-2"`, or `"0"`, is not a format error. It is accepted and
  selects no page, and the user then sees "no text found".
- `int()` accepts more than `"<n>"`, e.g. `" 3 "`, `"+3"` and `"1_0"`. The model accepts these too.
- A range starting past the last page, such as `"9"` on a five-page file, is accepted. It
  selects no page, and the user then sees "no text found".

## Model

| member | source | states |
|---|---|---|
| `PageRanges.ParsePageRange` | audioapp.py:153-160 | The result is "no range" exactly when the input is empty. A parsed range from input without `-` spans exactly one page. Input without `-` fails exactly when `int()` rejects the whole input, and the error names that input. Input with `-` fails exactly when the unpacking of its parts fails, with the unpacking's error. |
| `PageRanges.ParseTwoParts` | audioapp.py:155-157 | Two dash-free parts that `int()` reads as a and b make `"a-b"` parse to `(a-1, b)`. |
| `PageRanges.RejectsFileSeparator` | audioapp.py:159 | `"\x1c3"` is refused with `int()`'s error naming the whole input. |
| `PageRanges.UnpackTwo` | audioapp.py:156 | `first, last = map(int, parts)` succeeds exactly when there are two parts and both are integers, and then it binds their values. A first part that is not an integer is the error. Failing that, a second part that is not an integer is the error. With both integers and a third part, the error is that third part when it is not an integer, and "too many values" otherwise. |
| `PageRanges.ParseSinglePage` | audioapp.py:158-160 | For every natural n, `"n"` parses to `(n-1, n)`. |
| `PageRanges.ParsePageSpan` | audioapp.py:155-157 | For all naturals a and b, `"a-b"` parses to `(a-1, b)`. |
| `PageRanges.RejectsWithoutDigits` | audioapp.py:154-160 | Every non-empty input without a decimal digit raises `ValueError`. |
| `PageRanges.RejectsLeadingDash` | audioapp.py:155-156 | An input starting with `-` (e.g. `"-5"`) fails because `int("")` raises. |
| `PageRanges.RejectsExtraDashes` | audioapp.py:156 | Two or more `-` give three or more parts, which the unpacking rejects. |
| `PageRanges.ParsedRangeBounds` | audioapp.py:153-160 | Every accepted range has `stop >= 0` and `start >= -1`. No part can carry a minus sign. |
| `PageRanges.ReversedRangeAccepted` | audioapp.py:155-157 | `"5-2"` parses to `(4, 2)`; it is not an error. |
| `PageRanges.PageZeroAccepted` | audioapp.py:158-160 | `"0"` parses to `(-1, 0)`; it is not an error. |
| `PyText.Count` | audioapp.py:155 | `c` occurs in `s` exactly when the count is non-zero (`"-" in page_input`). |
| `PyText.Split` | audioapp.py:156 | `split` gives one part more than there are separators. |
| `PyText.SplitParts` | audioapp.py:156 | No part of `split` contains the separator, and every character of a part occurs in the input. |
| `PyText.SplitJoin` | audioapp.py:156 | Joining the parts of `split` with the separator gives back the input. |
| `PyText.SplitWithoutSep` | audioapp.py:156 | A string without the separator splits into itself alone. |
| `PyText.SplitAtFirst` | audioapp.py:156 | The first separator ends the first part; the rest splits independently. |
| `PyText.ParseInt` | audioapp.py:156-159 | `int()` in base 10 on a `str`: `int()` whitespace around the number, one optional sign, then digits with single underscores between them; anything else is the `ValueError`. Its properties are the `ParseInt...` and `IntWhitespace` lemmas. |
| `PyText.IsIntSpace` | audioapp.py:156-159 | The whitespace `int()` skips: `isspace` characters other than U+001C to U+001F. |
| `PyText.IntWhitespace` | audioapp.py:156-159 | `int()` reads `" 3\n"` and `"\xa03"` as 3 and rejects `"\x1c3"`, although `strip()` removes the `\x1c`. |
| `PyText.ParseIntDecimal` | audioapp.py:156-159 | `int()` reads back the decimal spelling of every natural number. |
| `PyText.ParseIntNeedsDigit` | audioapp.py:156-159 | `int()` raises on every string without a decimal digit. |
| `PyText.ParseIntNonNegative` | audioapp.py:156-159 | Without a `-` in the text, any value `int()` returns is non-negative. |
| `PyText.IsSpace` | audioapp.py:36 | `str.isspace`: the Unicode whitespace characters, listed by code point. |
| `PyText.Strip` | audioapp.py:36 | Stripping with a given whitespace set; with `IsSpace` it is `str.strip()`. Its properties are `StripIsSlice`, `TrimStartShape`, `TrimEndShape` and `BlankIffStripEmpty`. |
| `PyText.TrimStartShape` | audioapp.py:36 | `lstrip` drops exactly the leading whitespace and keeps a suffix. |
| `PyText.TrimEndShape` | audioapp.py:36 | `rstrip` drops exactly the trailing whitespace and keeps a prefix. |
| `PyText.StripIsSlice` | audioapp.py:36 | `strip` returns a contiguous slice of its input. |
| `PyText.BlankIffStripEmpty` | audioapp.py:36 | `not s.strip()` holds exactly when every character of `s` is whitespace. |
| `Extraction.Bounds` | audioapp.py:22-25 | The effective bounds are `0 <= first_page` and `last_page <= num_pages`. With no range they are exactly `(0, num_pages)`. A range already inside the document is kept unchanged. |
| `Extraction.Selected` | audioapp.py:41 | The OCR loop's filter: every page without a range, otherwise those with `start <= i < stop`. |
| `Extraction.JoinRange` | audioapp.py:27-29 | The direct loop over a page interval: contributions appended in ascending order, failing once any page raises. Its meaning is `JoinRangeMeaning`. |
| `Extraction.DirectStage` | audioapp.py:17-33 | The text after the direct pass's `try` block: the loop over the clamped interval, or `""` when anything raises. Its properties are `DirectStageConcatenates` and `DirectFailureResets`. |
| `Extraction.OcrRun` | audioapp.py:40-47 | The OCR loop over every page index, skipping pages that are not selected. Its meaning is `OcrRunIsClampedJoin` and `OcrRunFailsIff`. |
| `Extraction.ExtractText` | audioapp.py:10-53 | The value `pdf_to_text` returns: the direct text unless it is blank, otherwise the direct text followed by the OCR text, or `""` when OCR raises. The `PdfToText` method is proved to compute it; its properties are the lemmas below. |
| `Extraction.SameIndexSet` | audioapp.py:22-41 | For the same page count, the clamped interval and the OCR loop's filter select the same page indices. |
| `Extraction.PdfToText` | audioapp.py:10-53 | `pdf_to_text` runs the direct pass, then the OCR pass only when the direct text is blank. It computes `ExtractText`, and it enters the OCR branch exactly when the direct text is blank. |
| `Extraction.DirectPass` | audioapp.py:17-33 | The loop over the clamped page interval, with its `try` block, computes `DirectStage`: the pages' texts appended in order, or `""` once anything raises. |
| `Extraction.OcrPass` | audioapp.py:38-51 | The OCR loop over every page index, skipping unselected pages, appends the OCR lines to the direct text. It returns `""` when the document cannot be opened or a selected page raises. |
| `Extraction.JoinRangeNoneExtends` | audioapp.py:27-33 | If the direct loop raises on some page, the whole pass raises. |
| `Extraction.OcrRunNoneExtends` | audioapp.py:40-51 | If the OCR loop raises on a selected page, the whole OCR pass raises. |
| `Extraction.JoinRangeMeaning` | audioapp.py:27-29 | The per-page loop succeeds exactly when no page in the interval raises. Its text is then the pages' strings in ascending order with no separators. |
| `Extraction.OcrRunPrefix` | audioapp.py:40-47 | After the first n pages, the OCR loop has appended the lines of the clamped interval, cut off at n. |
| `Extraction.OcrRunIsClampedJoin` | audioapp.py:40-47 | Walking all pages and skipping unselected ones gives the same result as a loop over the clamped interval. |
| `Extraction.OcrRunFailsAt` | audioapp.py:43-51 | One selected page whose OCR raises makes the OCR pass fail. |
| `Extraction.OcrRunFailsIff` | audioapp.py:40-51 | The OCR pass fails exactly when some page of the clamped interval raises. |
| `Extraction.DirectPagesJoin` | audioapp.py:27-29 | Over an interval where no page raises, the direct loop gives the pages' strings in ascending order with nothing between them. |
| `Extraction.OcrLinesJoin` | audioapp.py:43-47 | Over an interval where every page is recognised, the OCR lines come out in ascending order, each with its `"\n"`. |
| `Extraction.DirectStageConcatenates` | audioapp.py:22-29 | If no selected page raises, the direct text is the selected pages' texts in ascending order with nothing in between. A page returning `None` adds `""`. |
| `Extraction.DirectFailureResets` | audioapp.py:17-33 | An unreadable document, or a selected page that raises, resets the direct text to `""`, discarding partial text. |
| `Extraction.DirectTextSkipsOcr` | audioapp.py:36-53 | If the direct text is not blank, it is returned unchanged, and the OCR input does not affect the result. |
| `Extraction.BlankFallback` | audioapp.py:36-53 | If the direct text is blank, the result is `""` when the OCR loop fails. Otherwise it is the direct text followed by the OCR text. |
| `Extraction.OcrFallbackAppends` | audioapp.py:36-47 | If the direct text is blank and no selected page fails OCR, the result is the direct text followed by each selected page's OCR text plus `"\n"`, in ascending order. |
| `Extraction.OcrFailureEmpties` | audioapp.py:38-51 | If the direct text is blank and the OCR document cannot be opened, or a selected page fails OCR, the result is `""`. |
| `Extraction.EmptyClampedInterval` | audioapp.py:22-25 | The clamped interval is empty exactly when the range is reversed, ends at page 0 or before, starts at or past the last page, or the document has no pages. |
| `Extraction.EmptySelectionGivesEmpty` | audioapp.py:22-47 | A range whose clamped interval is empty in every document that opens selects nothing in either pass, so the result is `""`. |
| `Extraction.ReversedRangeGivesEmpty` | audioapp.py:22-47 | A reversed range, or one ending at page 0 or before, gives `""` for every document. |
| `Extraction.PastEndRangeGivesEmpty` | audioapp.py:22-47 | A range starting at or past the last page of both documents gives `""`. |
| `Extraction.ConcatenationExample` | audioapp.py:27-29 | Three pages "A", "B", "C" with no range give exactly "ABC". |
| `Extraction.ClampExample` | audioapp.py:22-25 | Range `(0, 1000)` on a five-page document reads pages 0 to 4. |
| `Extraction.ScannedExample` | audioapp.py:36-47 | A scanned two-page document with range "1-2" gives both pages' OCR text in order, each followed by a newline. |
| `App.Gate` | audioapp.py:165-168 | Text is reported as "no text" exactly when all of it is whitespace. Otherwise it goes to synthesis unchanged. |
| `App.Convert` | audioapp.py:151-192 | A range parse error yields the invalid-range outcome, and extraction does not run. Otherwise the outcome is the gate applied to `pdf_to_text`'s result. Text handed to synthesis always has a visible character. |
| `App.MalformedInputsRejected` | audioapp.py:153-160 | "abc", "1-2-3" and "-5" raise `ValueError`, reported as an invalid range format. |
| `App.EmptyRangesFindNoText` | audioapp.py:153-166 | An accepted range whose clamped interval is empty in every document that opens leads to "no text found". |
| `App.PageBeyondEndFindsNoText` | audioapp.py:153-166 | `"9"` on a five-page document leads to "no text found". |
| `App.UnopenableDocumentFindsNoText` | audioapp.py:17-53 | A document neither library can open leads to "no text found" for any range. |

## Left out

- The Streamlit presentation is not modelled: styling, sidebar, widgets, spinners, the
  `st.warning`/`st.info`/`st.error`/`st.success` messages, the text expander, the audio
  player, the download button, and the missing-file warning. It is presentation only.
- `text_to_audio` and the gTTS network service are not modelled. `Synthesize(text)` marks the
  hand-over. The audio-failure branch after the hand-over is not modelled.
- PyPDF2, PyMuPDF, PIL and Tesseract are not modelled; they are foreign libraries. Each
  appears only as given per-page outcomes. The 3x rendering and the image conversion are
  folded into one per-page OCR outcome.
- `pdf_file.seek(0)` and `read()` are left out: they are I/O on the uploaded file and cannot
  fail in the application.
- `doc.close()` raising is not modelled. That exception would also make the result `""`.
- The generic `except Exception` branch at the end of the handler is not modelled. In the
  model, nothing outside `pdf_to_text`'s own `try` blocks raises.
- PyText.ParseInt: Unicode decimal digits, which Python's `int()` also accepts, are not
  accepted. The model takes ASCII `0`-`9` only.
- PyText.ParseInt: the 4300-digit limit of `int()` is not modelled. The limit depends on the
  interpreter version and on an environment setting.
- The language table is not modelled. It is a fixed lookup with no logic, used only by speech
  synthesis.

/**
 * `pdf_to_text`: a direct text pass over the selected pages, and, when that yields
 * only whitespace, an OCR pass over the same pages.  The PDF, rendering and OCR
 * libraries are replaced by what they return for each page.
 */
module Extraction {
  import opened Wrappers
  import opened PyText
  import opened PageRanges

  /** What `page.extract_text()` does for one page. */
  datatype PageText =
    | Extracted(text: string)  // returns a string, possibly empty
    | NoText                   // returns None
    | ExtractFails             // raises

  /** `PdfReader(io.BytesIO(file_bytes))` and its page list, or an exception while opening it. */
  datatype TextLayer = Unreadable | Readable(pages: seq<PageText>)

  /** Loading one page, rendering it at 3x, and running Tesseract on the image. */
  datatype OcrPage =
    | Recognized(text: string)  // `image_to_string` returns this text
    | OcrFails                  // one of the four steps raises

  /** `fitz.open(stream=file_bytes, filetype="pdf")` and its pages, or an exception while opening it. */
  datatype RasterDoc = CannotOpen | Opened(pages: seq<OcrPage>)

  function Max(a: int, b: int): int { if a >= b then a else b }

  function Min(a: int, b: int): int { if a <= b then a else b }

  /**
   * `(first_page, last_page)` of the direct pass: all pages without a range,
   * otherwise the range clamped to `[0, num_pages]`.
   */
  function Bounds(pages: Option<PageRange>, numPages: nat): (b: (int, int))
    ensures 0 <= b.0 && b.1 <= numPages
    ensures pages.None? ==> b == (0, numPages)
    ensures pages.Some? && 0 <= pages.value.start && pages.value.stop <= numPages
            ==> b == (pages.value.start, pages.value.stop)
  {
    if pages.None? then (0, numPages)
    else (Max(0, pages.value.start), Min(numPages, pages.value.stop))
  }

  /** The OCR pass keeps page `i` unless `pages and not (pages[0] <= i < pages[1])`. */
  predicate Selected(pages: Option<PageRange>, i: int)
  {
    pages.None? || pages.value.start <= i < pages.value.stop
  }

  /** For the same page count, the clamped interval and the OCR filter pick the same pages. */
  lemma SameIndexSet(pages: Option<PageRange>, numPages: nat, i: int)
    ensures Bounds(pages, numPages).0 <= i < Bounds(pages, numPages).1
            <==> 0 <= i < numPages && Selected(pages, i)
  {
  }

  /** One page's contribution to the direct pass, `page.extract_text() or ""`; `None` if it raises. */
  function DirectPage(p: PageText): Option<string>
  {
    match p
    case Extracted(t) => Some(t)
    case NoText => Some([])
    case ExtractFails => None
  }

  function DirectPages(ps: seq<PageText>): seq<Option<string>>
  {
    seq(|ps|, i requires 0 <= i < |ps| => DirectPage(ps[i]))
  }

  /** One page's contribution to the OCR pass, `ocr_text + "\n"`; `None` if it raises. */
  function OcrLine(p: OcrPage): Option<string>
  {
    match p
    case Recognized(t) => Some(t + "\n")
    case OcrFails => None
  }

  function OcrLines(ops: seq<OcrPage>): seq<Option<string>>
  {
    seq(|ops|, i requires 0 <= i < |ops| => OcrLine(ops[i]))
  }

  /**
   * Appending the contributions of pages `lo <= i < hi` in ascending order, as
   * `for i in range(lo, hi): text += ...` does; `None` once any of them raises.
   * An empty or reversed interval contributes nothing.
   */
  function JoinRange(xs: seq<Option<string>>, lo: int, hi: int): Option<string>
    requires 0 <= lo && (lo < hi ==> hi <= |xs|)
    decreases hi - lo
  {
    if hi <= lo then Some([])
    else
      match JoinRange(xs, lo, hi - 1)
      case None => None
      case Some(acc) =>
        match xs[hi - 1]
        case None => None
        case Some(t) => Some(acc + t)
  }

  /**
   * The OCR loop over the first `n` pages: every page index is visited, the
   * unselected ones are skipped, the selected ones append their line.
   */
  function OcrRun(ops: seq<OcrPage>, pages: Option<PageRange>, n: nat): Option<string>
    requires n <= |ops|
  {
    if n == 0 then Some([])
    else
      match OcrRun(ops, pages, n - 1)
      case None => None
      case Some(acc) =>
        if !Selected(pages, n - 1) then Some(acc)
        else
          match OcrLine(ops[n - 1])
          case None => None
          case Some(line) => Some(acc + line)
  }

  /** The text after the `try` block of the direct pass: an exception resets it to `""`. */
  function DirectStage(layer: TextLayer, pages: Option<PageRange>): string
  {
    match layer
    case Unreadable => []
    case Readable(ps) =>
      var b := Bounds(pages, |ps|);
      JoinRange(DirectPages(ps), b.0, b.1).GetOr([])
  }

  /** What the OCR `try` block appends to the text, or `None` when it raises. */
  function OcrStage(raster: RasterDoc, pages: Option<PageRange>): Option<string>
  {
    match raster
    case CannotOpen => None
    case Opened(ops) => OcrRun(ops, pages, |ops|)
  }

  /**
   * What `pdf_to_text` returns: the direct text unless it is blank; otherwise
   * the OCR lines appended to it, or `""` if the OCR pass raises anywhere.
   */
  function ExtractText(layer: TextLayer, raster: RasterDoc, pages: Option<PageRange>): string
  {
    var direct := DirectStage(layer, pages);
    if !Blank(direct) then direct
    else
      match OcrStage(raster, pages)
      case None => []
      case Some(ocr) => direct + ocr
  }

  /**
   * `pdf_to_text(pdf_file, pages)`.  `ocrAttempted` reports whether the OCR
   * branch was entered, i.e. whether the OCR library was called at all.
   */
  method PdfToText(layer: TextLayer, raster: RasterDoc, pages: Option<PageRange>)
    returns (text: string, ocrAttempted: bool)
    ensures text == ExtractText(layer, raster, pages)
    ensures ocrAttempted == Blank(DirectStage(layer, pages))
  {
    text := DirectPass(layer, pages);
    BlankIffStripEmpty(text);
    ocrAttempted := Strip(IsSpace, text) == [];
    if ocrAttempted {
      text := OcrPass(raster, pages, text);
    }
  }

  /**
   * The first `try` block of `pdf_to_text`: the selected pages' texts appended in
   * ascending order; an exception anywhere resets the text to `""`.
   */
  method DirectPass(layer: TextLayer, pages: Option<PageRange>) returns (text: string)
    ensures text == DirectStage(layer, pages)
  {
    text := "";
    match layer {
      case Unreadable =>
        text := "";
      case Readable(ps) =>
        var numPages := |ps|;
        var b := Bounds(pages, numPages);
        var firstPage, lastPage := b.0, b.1;
        ghost var xs := DirectPages(ps);
        var i := firstPage;
        while i < lastPage
          invariant firstPage <= i && (i == firstPage || i <= lastPage)
          invariant JoinRange(xs, firstPage, i) == Some(text)
        {
          match ps[i] {
            case ExtractFails =>
              JoinRangeNoneExtends(xs, firstPage, i + 1, lastPage);
              text := "";
              break;
            case NoText =>
              text := text + "";
            case Extracted(t) =>
              text := text + t;
          }
          i := i + 1;
        }
    }
  }

  /**
   * The OCR branch of `pdf_to_text`, entered with the direct pass's text: every
   * page index is visited, the selected ones append their OCR text and a newline,
   * and an exception anywhere makes the function return `""`.
   */
  method OcrPass(raster: RasterDoc, pages: Option<PageRange>, direct: string) returns (text: string)
    ensures OcrStage(raster, pages).None? ==> text == []
    ensures OcrStage(raster, pages).Some? ==> text == direct + OcrStage(raster, pages).value
  {
    text := direct;
    match raster {
      case CannotOpen =>
        text := "";
        return;
      case Opened(ops) =>
        var i := 0;
        while i < |ops|
          invariant 0 <= i <= |ops|
          invariant OcrRun(ops, pages, i).Some?
          invariant text == direct + OcrRun(ops, pages, i).value
        {
          if pages.Some? && !(pages.value.start <= i < pages.value.stop) {
            i := i + 1;
            continue;
          }
          match ops[i] {
            case OcrFails =>
              OcrRunNoneExtends(ops, pages, i + 1, |ops|);
              text := "";
              return;
            case Recognized(ocrText) =>
              text := text + (ocrText + "\n");
          }
          i := i + 1;
        }
    }
  }

  /** Once a page raises, the direct pass over any longer interval fails too. */
  lemma {:induction false} JoinRangeNoneExtends(xs: seq<Option<string>>, lo: int, j: int, hi: int)
    requires 0 <= lo <= j <= hi <= |xs|
    requires JoinRange(xs, lo, j) == None
    ensures JoinRange(xs, lo, hi) == None
    decreases hi - j
  {
    if j < hi {
      JoinRangeNoneExtends(xs, lo, j, hi - 1);
    }
  }

  /** Once a selected page raises, the OCR loop over more pages fails too. */
  lemma {:induction false} OcrRunNoneExtends(ops: seq<OcrPage>, pages: Option<PageRange>, j: nat, n: nat)
    requires j <= n <= |ops|
    requires OcrRun(ops, pages, j) == None
    ensures OcrRun(ops, pages, n) == None
    decreases n - j
  {
    if j < n {
      OcrRunNoneExtends(ops, pages, j, n - 1);
    }
  }

  /** The strings of a sequence of contributions, failures read as `""`. */
  function Values(xs: seq<Option<string>>): seq<string>
  {
    seq(|xs|, k requires 0 <= k < |xs| => xs[k].GetOr([]))
  }

  /**
   * `JoinRange` against the plain definition: it succeeds exactly when no page in
   * the interval raises, and then it is `"".join` of the pages' strings in order.
   */
  lemma {:induction false} JoinRangeMeaning(xs: seq<Option<string>>, lo: int, hi: int)
    requires 0 <= lo <= hi <= |xs|
    ensures JoinRange(xs, lo, hi).Some? <==> forall i :: lo <= i < hi ==> xs[i].Some?
    ensures JoinRange(xs, lo, hi).Some? ==> JoinRange(xs, lo, hi).value == Flatten(Values(xs[lo..hi]))
    decreases hi - lo
  {
    if lo < hi {
      JoinRangeMeaning(xs, lo, hi - 1);
      if JoinRange(xs, lo, hi).Some? {
        assert Values(xs[lo..hi]) == Values(xs[lo..hi - 1]) + [xs[hi - 1].value];
        FlattenSnoc(Values(xs[lo..hi - 1]), xs[hi - 1].value);
      }
    }
  }

  /**
   * The OCR loop over the first `n` pages produces the lines of the clamped
   * interval cut off at `n`.
   */
  lemma {:induction false} OcrRunPrefix(ops: seq<OcrPage>, pages: Option<PageRange>, n: nat)
    requires n <= |ops|
    ensures OcrRun(ops, pages, n)
            == JoinRange(OcrLines(ops), Bounds(pages, |ops|).0, Min(Bounds(pages, |ops|).1, n))
  {
    if n > 0 {
      OcrRunPrefix(ops, pages, n - 1);
      SameIndexSet(pages, |ops|, n - 1);
    }
  }

  /**
   * Walking every page and skipping the unselected ones gives exactly what the
   * direct pass's loop over the clamped interval would give for the OCR lines.
   */
  lemma OcrRunIsClampedJoin(ops: seq<OcrPage>, pages: Option<PageRange>)
    ensures OcrRun(ops, pages, |ops|)
            == JoinRange(OcrLines(ops), Bounds(pages, |ops|).0, Bounds(pages, |ops|).1)
  {
    OcrRunPrefix(ops, pages, |ops|);
  }

  /** The strings the direct pass reads from pages that do not raise: `page.extract_text() or ""`. */
  function PageStrings(ps: seq<PageText>): seq<string>
  {
    seq(|ps|, k requires 0 <= k < |ps| => if ps[k].Extracted? then ps[k].text else [])
  }

  /** The strings the OCR pass appends for pages that do not raise: `ocr_text + "\n"`. */
  function OcrStrings(ops: seq<OcrPage>): seq<string>
  {
    seq(|ops|, k requires 0 <= k < |ops| => if ops[k].Recognized? then ops[k].text + "\n" else [])
  }

  /**
   * When no page of the clamped interval raises, the direct text is the pages'
   * texts in ascending order with nothing in between, a page without text adding `""`.
   */
  lemma DirectStageConcatenates(ps: seq<PageText>, pages: Option<PageRange>, first: int, last: int)
    requires Bounds(pages, |ps|) == (first, last) && first <= last
    requires forall i :: first <= i < last ==> !ps[i].ExtractFails?
    ensures DirectStage(Readable(ps), pages) == Flatten(PageStrings(ps[first..last]))
  {
    DirectPagesJoin(ps, first, last);
  }

  /** The direct loop over an interval of pages none of which raises joins their strings. */
  lemma DirectPagesJoin(ps: seq<PageText>, first: int, last: int)
    requires 0 <= first <= last <= |ps|
    requires forall i :: first <= i < last ==> !ps[i].ExtractFails?
    ensures JoinRange(DirectPages(ps), first, last) == Some(Flatten(PageStrings(ps[first..last])))
  {
    var xs := DirectPages(ps);
    JoinRangeMeaning(xs, first, last);
    forall i | first <= i < last ensures xs[i].Some? {
      assert xs[i] == DirectPage(ps[i]);
    }
    var vs, want := Values(xs[first..last]), PageStrings(ps[first..last]);
    forall k | 0 <= k < last - first ensures vs[k] == want[k] {
      assert xs[first..last][k] == DirectPage(ps[first + k]);
    }
    assert vs == want;
  }

  /**
   * An unreadable document, or a page of the clamped interval that raises, discards
   * whatever the direct pass had collected: its text is `""`.
   */
  lemma DirectFailureResets(layer: TextLayer, pages: Option<PageRange>)
    requires layer.Unreadable?
             || exists i :: Bounds(pages, |layer.pages|).0 <= i < Bounds(pages, |layer.pages|).1
                            && layer.pages[i].ExtractFails?
    ensures DirectStage(layer, pages) == []
  {
    if layer.Readable? {
      var ps := layer.pages;
      var b := Bounds(pages, |ps|);
      var i :| b.0 <= i < b.1 && ps[i].ExtractFails?;
      JoinRangeMeaning(DirectPages(ps), b.0, b.1);
      assert DirectPages(ps)[i].None?;
      assert JoinRange(DirectPages(ps), b.0, b.1) == None;
    }
  }

  /**
   * Direct text that is not blank is the result, whatever the OCR library would
   * have done: the OCR input is never consulted.
   */
  lemma DirectTextSkipsOcr(layer: TextLayer, raster: RasterDoc, other: RasterDoc, pages: Option<PageRange>)
    requires !Blank(DirectStage(layer, pages))
    ensures ExtractText(layer, raster, pages) == DirectStage(layer, pages)
    ensures ExtractText(layer, raster, pages) == ExtractText(layer, other, pages)
  {
  }

  /** With blank direct text, the result is what the OCR loop makes of it. */
  lemma BlankFallback(layer: TextLayer, ops: seq<OcrPage>, pages: Option<PageRange>)
    requires Blank(DirectStage(layer, pages))
    ensures OcrRun(ops, pages, |ops|).None? ==> ExtractText(layer, Opened(ops), pages) == []
    ensures OcrRun(ops, pages, |ops|).Some?
            ==> ExtractText(layer, Opened(ops), pages) == DirectStage(layer, pages) + OcrRun(ops, pages, |ops|).value
  {
    assert OcrStage(Opened(ops), pages) == OcrRun(ops, pages, |ops|);
  }

  /** One selected page whose OCR raises makes the whole OCR loop fail. */
  lemma OcrRunFailsAt(ops: seq<OcrPage>, pages: Option<PageRange>, i: int)
    requires Bounds(pages, |ops|).0 <= i < Bounds(pages, |ops|).1 && ops[i].OcrFails?
    ensures OcrRun(ops, pages, |ops|) == None
  {
    OcrRunFailsIff(ops, pages);
  }

  /** The OCR loop fails exactly when a page of the clamped interval fails. */
  lemma OcrRunFailsIff(ops: seq<OcrPage>, pages: Option<PageRange>)
    ensures OcrRun(ops, pages, |ops|).None?
            <==> exists i :: Bounds(pages, |ops|).0 <= i < Bounds(pages, |ops|).1 && ops[i].OcrFails?
  {
    var b := Bounds(pages, |ops|);
    OcrRunIsClampedJoin(ops, pages);
    if b.0 <= b.1 {
      JoinRangeMeaning(OcrLines(ops), b.0, b.1);
      if OcrRun(ops, pages, |ops|).None? {
        var i :| b.0 <= i < b.1 && OcrLines(ops)[i].None?;
        assert ops[i].OcrFails?;
      } else {
        forall i | b.0 <= i < b.1 ensures !ops[i].OcrFails? {
          assert OcrLines(ops)[i].Some?;
        }
      }
    }
  }

  /**
   * Blank direct text and an OCR pass without failures: the result is the direct
   * text followed by each page of the clamped interval's OCR text and a newline,
   * in ascending page order.
   */
  lemma OcrFallbackAppends(layer: TextLayer, ops: seq<OcrPage>, pages: Option<PageRange>, first: int, last: int)
    requires Blank(DirectStage(layer, pages))
    requires Bounds(pages, |ops|) == (first, last) && first <= last
    requires forall i :: first <= i < last ==> ops[i].Recognized?
    ensures ExtractText(layer, Opened(ops), pages)
            == DirectStage(layer, pages) + Flatten(OcrStrings(ops[first..last]))
  {
    OcrRunIsClampedJoin(ops, pages);
    OcrLinesJoin(ops, first, last);
    BlankFallback(layer, ops, pages);
  }

  /** The OCR lines of an interval of pages all recognised, joined in ascending order. */
  lemma OcrLinesJoin(ops: seq<OcrPage>, first: int, last: int)
    requires 0 <= first <= last <= |ops|
    requires forall i :: first <= i < last ==> ops[i].Recognized?
    ensures JoinRange(OcrLines(ops), first, last) == Some(Flatten(OcrStrings(ops[first..last])))
  {
    var xs := OcrLines(ops);
    JoinRangeMeaning(xs, first, last);
    forall i | first <= i < last ensures xs[i].Some? {
      assert xs[i] == OcrLine(ops[i]);
    }
    var vs, want := Values(xs[first..last]), OcrStrings(ops[first..last]);
    forall k | 0 <= k < last - first ensures vs[k] == want[k] {
      assert xs[first..last][k] == OcrLine(ops[first + k]);
    }
    assert vs == want;
  }

  /**
   * Blank direct text and an OCR library that cannot open the document, or that
   * raises on a selected page: the whole result is `""`.
   */
  lemma OcrFailureEmpties(layer: TextLayer, raster: RasterDoc, pages: Option<PageRange>)
    requires Blank(DirectStage(layer, pages))
    requires raster.CannotOpen?
             || exists i :: Bounds(pages, |raster.pages|).0 <= i < Bounds(pages, |raster.pages|).1
                            && raster.pages[i].OcrFails?
    ensures ExtractText(layer, raster, pages) == []
  {
    if raster.Opened? {
      var ops := raster.pages;
      var i :| Bounds(pages, |ops|).0 <= i < Bounds(pages, |ops|).1 && ops[i].OcrFails?;
      OcrRunFailsAt(ops, pages, i);
      BlankFallback(layer, ops, pages);
    }
  }

  /**
   * The clamped interval of a range is empty exactly when the range is reversed,
   * ends at page 0 or before, starts at or past the last page, or the document
   * has no pages.
   */
  lemma EmptyClampedInterval(pages: PageRange, numPages: nat)
    ensures Bounds(Some(pages), numPages).1 <= Bounds(Some(pages), numPages).0
            <==> pages.stop <= pages.start || pages.stop <= 0 || pages.start >= numPages || numPages == 0
  {
  }

  /**
   * A range whose clamped interval is empty in every document that opens selects
   * no page in either pass: the result is `""`.
   */
  lemma EmptySelectionGivesEmpty(layer: TextLayer, raster: RasterDoc, pages: Option<PageRange>)
    requires layer.Readable? ==> Bounds(pages, |layer.pages|).1 <= Bounds(pages, |layer.pages|).0
    requires raster.Opened? ==> Bounds(pages, |raster.pages|).1 <= Bounds(pages, |raster.pages|).0
    ensures ExtractText(layer, raster, pages) == []
  {
    assert DirectStage(layer, pages) == [];
    assert Blank([]);
    if raster.Opened? {
      OcrRunIsClampedJoin(raster.pages, pages);
    }
  }

  /**
   * A reversed range such as `(4, 2)`, or one ending at page 0 or before such as
   * `(-1, 0)`, gives `""` in every document.
   */
  lemma ReversedRangeGivesEmpty(layer: TextLayer, raster: RasterDoc, pages: PageRange)
    requires pages.stop <= pages.start || pages.stop <= 0
    ensures ExtractText(layer, raster, Some(pages)) == []
  {
    if layer.Readable? {
      EmptyClampedInterval(pages, |layer.pages|);
    }
    if raster.Opened? {
      EmptyClampedInterval(pages, |raster.pages|);
    }
    EmptySelectionGivesEmpty(layer, raster, Some(pages));
  }

  /** A range starting at or past the last page of both documents, such as `(8, 9)` on five pages, gives `""`. */
  lemma PastEndRangeGivesEmpty(ps: seq<PageText>, ops: seq<OcrPage>, pages: PageRange)
    requires pages.start >= |ps| && pages.start >= |ops|
    ensures ExtractText(Readable(ps), Opened(ops), Some(pages)) == []
  {
    EmptyClampedInterval(pages, |ps|);
    EmptyClampedInterval(pages, |ops|);
    EmptySelectionGivesEmpty(Readable(ps), Opened(ops), Some(pages));
  }

  /** Three text pages "A", "B", "C" and no range give "ABC". */
  lemma ConcatenationExample(raster: RasterDoc)
    ensures ExtractText(Readable([Extracted("A"), Extracted("B"), Extracted("C")]), raster, None) == "ABC"
  {
    var ps := [Extracted("A"), Extracted("B"), Extracted("C")];
    DirectStageConcatenates(ps, None, 0, 3);
    assert PageStrings(ps) == ["A", "B", "C"];
    assert ps[0..3] == ps;
    assert Flatten(["C"]) == "C";
    assert Flatten(["B", "C"]) == "BC";
    assert DirectStage(Readable(ps), None) == "ABC";
    assert !IsSpace("ABC"[0]);
  }

  /** Asking for pages `(0, 1000)` of a five-page document reads pages 0 to 4. */
  lemma ClampExample()
    ensures Bounds(Some(PageRange(0, 1000)), 5) == (0, 5)
  {
  }

  /** A scanned two-page document with range "1-2": both pages are recognised, in order. */
  lemma ScannedExample(t0: string, t1: string)
    ensures ExtractText(Readable([NoText, NoText]), Opened([Recognized(t0), Recognized(t1)]), Some(PageRange(0, 2)))
            == t0 + "\n" + t1 + "\n"
  {
    var ops := [Recognized(t0), Recognized(t1)];
    DirectStageConcatenates([NoText, NoText], Some(PageRange(0, 2)), 0, 2);
    assert PageStrings([NoText, NoText]) == [[], []];
    assert [NoText, NoText][0..2] == [NoText, NoText];
    assert Blank([]);
    OcrFallbackAppends(Readable([NoText, NoText]), ops, Some(PageRange(0, 2)), 0, 2);
    assert ops[0..2] == ops;
    assert OcrStrings(ops) == [t0 + "\n", t1 + "\n"];
    assert Flatten([[], []]) == [];
    assert Flatten([t1 + "\n"]) == t1 + "\n";
    assert Flatten([t0 + "\n", t1 + "\n"]) == (t0 + "\n") + (t1 + "\n");
  }
}

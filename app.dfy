/**
 * The convert button's handler, without its presentation: the range is parsed,
 * the text extracted, and blank text is reported instead of being synthesised.
 */
module App {
  import opened Wrappers
  import opened PyText
  import opened PageRanges
  import opened Extraction

  /** How one press of the convert button ends. */
  datatype Outcome =
    | InvalidRange(reason: RangeError)  // the `except ValueError` branch
    | NoTextFound                       // "No text could be found"
    | Synthesize(text: string)          // the text handed to `text_to_audio`

  /** The gate `if not extracted_text.strip()`: only text with a visible character reaches synthesis. */
  function Gate(text: string): (o: Outcome)
    ensures o == NoTextFound <==> forall i :: 0 <= i < |text| ==> IsSpace(text[i])
    ensures o != NoTextFound ==> o == Synthesize(text)
  {
    BlankIffStripEmpty(text);
    if Strip(IsSpace, text) == [] then NoTextFound else Synthesize(text)
  }

  /**
   * Parse the range, extract the text, apply the gate.  A malformed range
   * stops everything before extraction starts.
   */
  method Convert(pageInput: string, layer: TextLayer, raster: RasterDoc) returns (outcome: Outcome)
    ensures outcome.InvalidRange? <==> ParsePageRange(pageInput).Err?
    ensures ParsePageRange(pageInput).Err? ==> outcome == InvalidRange(ParsePageRange(pageInput).error)
    ensures ParsePageRange(pageInput).Ok?
            ==> outcome == Gate(ExtractText(layer, raster, ParsePageRange(pageInput).value))
    ensures outcome.Synthesize? ==> exists i :: 0 <= i < |outcome.text| && !IsSpace(outcome.text[i])
  {
    var parsed := ParsePageRange(pageInput);
    if parsed.Err? {
      outcome := InvalidRange(parsed.error);
      return;
    }
    var extracted, _ := PdfToText(layer, raster, parsed.value);
    outcome := Gate(extracted);
  }

  /** "abc", "1-2-3" and "-5" are reported as an invalid range format. */
  lemma MalformedInputsRejected()
    ensures ParsePageRange("abc").Err?
    ensures ParsePageRange("1-2-3").Err?
    ensures ParsePageRange("-5") == Err(NotAnInteger([]))
  {
    RejectsWithoutDigits("abc");
    assert Count("1-2-3", '-') == 2;
    RejectsExtraDashes("1-2-3");
    RejectsLeadingDash("-5");
  }

  /**
   * A range that is accepted but selects no page of the documents that open, such
   * as "5-2" (`(4, 2)`), "0" (`(-1, 0)`) or "9" on a five-page file, finds no text.
   */
  lemma EmptyRangesFindNoText(pageInput: string, layer: TextLayer, raster: RasterDoc)
    requires ParsePageRange(pageInput).Ok?
    requires layer.Readable?
             ==> Bounds(ParsePageRange(pageInput).value, |layer.pages|).1
                 <= Bounds(ParsePageRange(pageInput).value, |layer.pages|).0
    requires raster.Opened?
             ==> Bounds(ParsePageRange(pageInput).value, |raster.pages|).1
                 <= Bounds(ParsePageRange(pageInput).value, |raster.pages|).0
    ensures Gate(ExtractText(layer, raster, ParsePageRange(pageInput).value)) == NoTextFound
  {
    EmptySelectionGivesEmpty(layer, raster, ParsePageRange(pageInput).value);
    assert Blank([]);
  }

  /** "9" on a five-page document asks for page 8 only, which does not exist: no text is found. */
  lemma PageBeyondEndFindsNoText(ps: seq<PageText>, ops: seq<OcrPage>)
    requires |ps| == 5 && |ops| == 5
    ensures Gate(ExtractText(Readable(ps), Opened(ops), ParsePageRange("9").value)) == NoTextFound
  {
    ParseSinglePage(9);
    assert Decimal(9) == "9";
    PastEndRangeGivesEmpty(ps, ops, PageRange(8, 9));
    assert Blank([]);
  }

  /** A document that neither library can open is reported as having no text, whatever the range. */
  lemma UnopenableDocumentFindsNoText(pages: Option<PageRange>)
    ensures Gate(ExtractText(Unreadable, CannotOpen, pages)) == NoTextFound
  {
    assert Blank([]);
  }
}

/** `extract_text`: choose and check the pages, then produce one result per
    chosen page — its text (from OCR when asked for and needed) and, when
    positions are requested, one entry per line of every text block. The
    source is a generator: a stream is the results produced before it
    stopped, and the error it stopped with, if any. */
module TextExtraction {
  import opened Wrappers
  import opened Errors
  import opened Text
  import opened Geometry
  import opened Engine
  import Ocr

  /** The OCR options dictionary: a missing `enabled` or `force` is false,
      a missing `language` is `None`. */
  datatype OcrOptions = OcrOptions(enabled: bool, force: bool, language: Option<string>)

  /** `TextBlockResult`: one line of a text block. */
  datatype TextBlockResult = TextBlockResult(text: string, x0: real, y0: real, x1: real, y1: real, blockNumber: nat, lineNumber: nat)

  /** `PageTextResult`. */
  datatype PageTextResult = PageTextResult(pageNumber: int, text: string, blocks: seq<TextBlockResult>)

  /** What the generator produces: the results it yielded, and the error it
      raised, if it stopped early. */
  datatype TextStream = TextStream(yielded: seq<PageTextResult>, raised: Option<Error>)

  // ---------------------------------------------------------------------
  // Page selection
  // ---------------------------------------------------------------------

  /** The pages to extract: the requested list as given (order and
      duplicates kept) when it is non-empty, otherwise every page in order. */
  function Selection(pages: Option<seq<int>>, pageCount: nat): (sel: seq<int>)
    ensures pages.Some? && |pages.value| > 0 ==> sel == pages.value
    ensures !(pages.Some? && |pages.value| > 0) ==> |sel| == pageCount && forall i :: 0 <= i < pageCount ==> sel[i] == i
  {
    if pages.Some? && |pages.value| > 0 then pages.value else seq(pageCount, i => i)
  }

  /** The requested indices outside the document, in request order. */
  function OutOfRange(sel: seq<int>, pageCount: nat): (bad: seq<int>)
    ensures |bad| <= |sel|
    ensures forall x :: x in bad <==> x in sel && !(0 <= x < pageCount)
  {
    if |sel| == 0 then []
    else (if 0 <= sel[0] < pageCount then [] else [sel[0]]) + OutOfRange(sel[1..], pageCount)
  }

  /** The out-of-range indices keep request order: checking two consecutive
      parts of a request is checking each in turn. With a one-index request
      giving that index exactly when it is out of range, this determines the
      result. */
  lemma {:induction false} OutOfRangeAppend(a: seq<int>, b: seq<int>, pageCount: nat)
    ensures OutOfRange(a + b, pageCount) == OutOfRange(a, pageCount) + OutOfRange(b, pageCount)
  {
    if |a| == 0 {
      assert a + b == b;
    } else {
      assert (a + b)[1..] == a[1..] + b;
      OutOfRangeAppend(a[1..], b, pageCount);
    }
  }

  /** Duplicates are kept: an out-of-range index is listed as often as it
      is requested. */
  lemma {:induction false} OutOfRangeCount(sel: seq<int>, pageCount: nat, x: int)
    ensures multiset(OutOfRange(sel, pageCount))[x] == if 0 <= x < pageCount then 0 else multiset(sel)[x]
  {
    if |sel| > 0 {
      OutOfRangeCount(sel[1..], pageCount, x);
      assert sel == [sel[0]] + sel[1..];
    }
  }

  /** A selection without out-of-range indices addresses pages only. */
  lemma SelectionInRange(pages: Option<seq<int>>, pageCount: nat)
    requires OutOfRange(Selection(pages, pageCount), pageCount) == []
    ensures forall i :: 0 <= i < |Selection(pages, pageCount)| ==> 0 <= Selection(pages, pageCount)[i] < pageCount
  {
    var sel := Selection(pages, pageCount);
    forall i | 0 <= i < |sel|
      ensures 0 <= sel[i] < pageCount
    {
      assert sel[i] in sel;
    }
  }

  // ---------------------------------------------------------------------
  // OCR decision
  // ---------------------------------------------------------------------

  /** Whether the page goes through OCR: options present and enabled, and
      either the page has no text but whitespace or OCR is forced. */
  predicate UseOcr(options: Option<OcrOptions>, pageText: string) {
    options.Some? && options.value.enabled && (|Strip(pageText)| == 0 || options.value.force)
  }

  /** The decision in terms of the page text itself. */
  lemma UseOcrIff(options: Option<OcrOptions>, pageText: string)
    ensures UseOcr(options, pageText) <==>
      options.Some? && options.value.enabled && (IsBlank(pageText) || options.value.force)
  {
    StripEmptyIffBlank(pageText);
  }

  function Language(o: OcrOptions): string {
    o.language.GetOr(Ocr.DefaultLanguage)
  }

  // ---------------------------------------------------------------------
  // Block flattening
  // ---------------------------------------------------------------------

  /** A line's text: its spans' texts run together, a missing text read as
      empty. */
  function SpanText(spans: seq<DictSpan>): (t: string)
    ensures forall i :: 0 <= i < |spans| ==> |spans[i].text.GetOr("")| <= |t|
  {
    if |spans| == 0 then "" else spans[0].text.GetOr("") + SpanText(spans[1..])
  }

  /** The entry for one line of the `blockNumber`-th text block. A missing
      bounding box reads as (0, 0, 0, 0). */
  function LineEntry(line: DictLine, blockNumber: nat, lineNumber: nat): TextBlockResult {
    var b := line.bbox.GetOr(Rect(0.0, 0.0, 0.0, 0.0));
    TextBlockResult(SpanText(line.spans.GetOr([])), b.x0, b.y0, b.x1, b.y1, blockNumber, lineNumber)
  }

  predicate IsTextBlock(b: DictBlock) {
    b.blockType == Some(0)
  }

  function LinesOf(b: DictBlock): seq<DictLine> {
    b.lines.GetOr([])
  }

  /** The text blocks among `bs`, in order; image blocks are dropped. */
  function TextBlocks(bs: seq<DictBlock>): (tb: seq<DictBlock>)
    ensures |tb| <= |bs|
    ensures forall i :: 0 <= i < |tb| ==> IsTextBlock(tb[i])
  {
    if |bs| == 0 then []
    else (if IsTextBlock(bs[0]) then [bs[0]] else []) + TextBlocks(bs[1..])
  }

  /** The entries of one text block. */
  function BlockEntries(b: DictBlock, blockNumber: nat): (es: seq<TextBlockResult>)
    ensures |es| == |LinesOf(b)|
    ensures forall l :: 0 <= l < |es| ==> es[l] == LineEntry(LinesOf(b)[l], blockNumber, l)
  {
    seq(|LinesOf(b)|, l requires 0 <= l < |LinesOf(b)| => LineEntry(LinesOf(b)[l], blockNumber, l))
  }

  /** The line entries of blocks `bs`, whose first text block is numbered
      `first`. Every entry is the entry of the line its numbers name: the
      block number counts text blocks only, the line number is the index
      within the block. */
  function Flatten(bs: seq<DictBlock>, first: nat): (es: seq<TextBlockResult>)
    ensures forall i :: 0 <= i < |es| ==>
      && first <= es[i].blockNumber < first + |TextBlocks(bs)|
      && es[i].lineNumber < |LinesOf(TextBlocks(bs)[es[i].blockNumber - first])|
      && es[i] == LineEntry(LinesOf(TextBlocks(bs)[es[i].blockNumber - first])[es[i].lineNumber], es[i].blockNumber, es[i].lineNumber)
  {
    if |bs| == 0 then []
    else if IsTextBlock(bs[0]) then
      var rest := Flatten(bs[1..], first + 1);
      assert TextBlocks(bs) == [bs[0]] + TextBlocks(bs[1..]);
      BlockEntries(bs[0], first) + rest
    else
      assert TextBlocks(bs) == TextBlocks(bs[1..]);
      Flatten(bs[1..], first)
  }

  /** Entries come block by block and line by line, each (block, line) pair
      once. */
  predicate LinesOrdered(es: seq<TextBlockResult>) {
    forall i, j :: 0 <= i < j < |es| ==>
      es[i].blockNumber < es[j].blockNumber
      || (es[i].blockNumber == es[j].blockNumber && es[i].lineNumber < es[j].lineNumber)
  }

  function LineCount(tb: seq<DictBlock>): nat {
    if |tb| == 0 then 0 else |LinesOf(tb[0])| + LineCount(tb[1..])
  }

  /** Every line of every text block gives exactly one entry. */
  lemma {:induction false} FlattenCount(bs: seq<DictBlock>, first: nat)
    ensures |Flatten(bs, first)| == LineCount(TextBlocks(bs))
  {
    if |bs| > 0 {
      if IsTextBlock(bs[0]) {
        FlattenCount(bs[1..], first + 1);
        assert TextBlocks(bs) == [bs[0]] + TextBlocks(bs[1..]);
        assert ([bs[0]] + TextBlocks(bs[1..]))[1..] == TextBlocks(bs[1..]);
      } else {
        FlattenCount(bs[1..], first);
        assert TextBlocks(bs) == TextBlocks(bs[1..]);
      }
    }
  }

  /** Two ordered runs of entries, the first wholly in earlier blocks, are
      ordered together. */
  lemma OrderedConcat(a: seq<TextBlockResult>, b: seq<TextBlockResult>)
    requires LinesOrdered(a) && LinesOrdered(b)
    requires forall i, j :: 0 <= i < |a| && 0 <= j < |b| ==> a[i].blockNumber < b[j].blockNumber
    ensures LinesOrdered(a + b)
  {
    var es := a + b;
    forall i, j | 0 <= i < j < |es|
      ensures es[i].blockNumber < es[j].blockNumber
        || (es[i].blockNumber == es[j].blockNumber && es[i].lineNumber < es[j].lineNumber)
    {
      if j < |a| {
        assert es[i] == a[i] && es[j] == a[j];
      } else if i < |a| {
        assert es[i] == a[i] && es[j] == b[j - |a|];
      } else {
        assert es[i] == b[i - |a|] && es[j] == b[j - |a|];
      }
    }
  }

  /** The entries come block by block and, within a block, line by line. */
  lemma {:induction false} FlattenOrdered(bs: seq<DictBlock>, first: nat)
    ensures LinesOrdered(Flatten(bs, first))
  {
    if |bs| > 0 {
      if IsTextBlock(bs[0]) {
        FlattenOrdered(bs[1..], first + 1);
        var head := BlockEntries(bs[0], first);
        var rest := Flatten(bs[1..], first + 1);
        assert forall i :: 0 <= i < |head| ==> head[i].blockNumber == first && head[i].lineNumber == i;
        OrderedConcat(head, rest);
        assert head + rest == Flatten(bs, first);
      } else {
        FlattenOrdered(bs[1..], first);
      }
    }
  }

  /** Every line of every text block gives exactly one entry, in order. */
  lemma FlattenShape(bs: seq<DictBlock>, first: nat)
    ensures |Flatten(bs, first)| == LineCount(TextBlocks(bs))
    ensures LinesOrdered(Flatten(bs, first))
  {
    FlattenCount(bs, first);
    FlattenOrdered(bs, first);
  }

  // ---------------------------------------------------------------------
  // The generator
  // ---------------------------------------------------------------------

  /** The result for one page: the engine's text, or the OCR text when OCR
      is used (failing as `ocr_page` fails); line entries only when
      positions are requested. */
  function PageResult(page: PdfPage, pageNumber: int, includePositions: bool, options: Option<OcrOptions>): (r: Result<PageTextResult, Error>)
    ensures !UseOcr(options, page.text) ==> r.Ok? && r.value.text == page.text
    ensures UseOcr(options, page.text) ==>
      && (r.Ok? <==> page.ocr(Language(options.value)).Recognised?)
      && (r.Ok? ==> r.value.text == page.ocr(Language(options.value)).text)
      && (r.Err? ==> r.error == Ocr.Classify(page.ocr(Language(options.value)).exception))
    ensures r.Ok? ==> r.value.pageNumber == pageNumber
    ensures r.Ok? && !includePositions ==> r.value.blocks == []
    ensures r.Ok? && includePositions ==> r.value.blocks == Flatten(page.blocks.GetOr([]), 0)
  {
    var text :- if UseOcr(options, page.text) then Ocr.OcrPage(page, Language(options.value)) else Ok(page.text);
    var blocks := if includePositions then Flatten(page.blocks.GetOr([]), 0) else [];
    Ok(PageTextResult(pageNumber, text, blocks))
  }

  /** The generator's loop: the result of each selected page in selection
      order, stopping at the first page whose result is an error, which is
      the error raised. */
  function Stream(sel: seq<int>, result: int -> Result<PageTextResult, Error>): (s: TextStream)
    ensures |s.yielded| <= |sel|
    ensures s.raised.None? <==> |s.yielded| == |sel|
    ensures forall i :: 0 <= i < |s.yielded| ==> result(sel[i]) == Ok(s.yielded[i])
    ensures s.raised.Some? ==> result(sel[|s.yielded|]) == Err(s.raised.value)
  {
    if |sel| == 0 then TextStream([], None)
    else match result(sel[0])
      case Err(e) => TextStream([], Some(e))
      case Ok(first) =>
        var rest := Stream(sel[1..], result);
        assert forall i :: 1 <= i < |sel| ==> sel[i] == sel[1..][i - 1];
        TextStream([first] + rest.yielded, rest.raised)
  }

  /** The result for page `p` of the document. An index outside the
      document never gets here: the selection is checked before the stream
      starts, so the error given for one is never produced. */
  function ResultOf(doc: Pdf, includePositions: bool, options: Option<OcrOptions>): int -> Result<PageTextResult, Error> {
    p => if 0 <= p < |doc.pages| then PageResult(doc.pages[p], p, includePositions, options) else Err(PagesOutOfRange([p], |doc.pages|))
  }

  /** `extract_text`. Errors found before the first page — empty input, an
      unopenable document, requested pages outside the document (all of
      them listed, with the page count) — stop the stream before it yields
      anything. Otherwise it yields one result per selected page, numbered
      with that page, until a page's OCR fails. */
  function ExtractText(open: Opener, pdfData: seq<byte>, pages: Option<seq<int>>, includePositions: bool, options: Option<OcrOptions>): (s: TextStream)
    ensures |pdfData| == 0 ==> s == TextStream([], Some(EmptyPdfData))
    ensures |pdfData| > 0 && open(pdfData).None? ==> s == TextStream([], Some(InvalidOrCorruptPdf))
    ensures |pdfData| > 0 && open(pdfData).Some? ==>
      var n := |open(pdfData).value.pages|;
      var sel := Selection(pages, n);
      && (OutOfRange(sel, n) != [] ==> s == TextStream([], Some(PagesOutOfRange(OutOfRange(sel, n), n))))
      && (OutOfRange(sel, n) == [] ==>
            && |s.yielded| <= |sel|
            && (s.raised.None? <==> |s.yielded| == |sel|)
            && (forall i :: 0 <= i < |s.yielded| ==>
                  && 0 <= sel[i] < n
                  && s.yielded[i].pageNumber == sel[i]
                  && PageResult(open(pdfData).value.pages[sel[i]], sel[i], includePositions, options) == Ok(s.yielded[i]))
            && (s.raised.Some? ==>
                  && 0 <= sel[|s.yielded|] < n
                  && PageResult(open(pdfData).value.pages[sel[|s.yielded|]], sel[|s.yielded|], includePositions, options)
                       == Err(s.raised.value)
                  && (s.raised.value == TesseractNotInstalled || s.raised.value.Reraised?)))
  {
    if |pdfData| == 0 then TextStream([], Some(EmptyPdfData))
    else match open(pdfData)
      case None => TextStream([], Some(InvalidOrCorruptPdf))
      case Some(doc) =>
        var n := |doc.pages|;
        var sel := Selection(pages, n);
        if OutOfRange(sel, n) != [] then TextStream([], Some(PagesOutOfRange(OutOfRange(sel, n), n)))
        else
          SelectionInRange(pages, n);
          Stream(sel, ResultOf(doc, includePositions, options))
  }
}

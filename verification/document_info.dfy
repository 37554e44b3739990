/** `get_document_info`: reject unusable input, then summarise every page
    (text, images, likely scanned, size) and the whole document (text
    anywhere, annotation count, metadata). */
module DocumentInfo {
  import opened Wrappers
  import opened Errors
  import opened Text
  import opened Engine

  /** `PageInfoResult`. */
  datatype PageInfo = PageInfo(pageNumber: nat, hasText: bool, hasImages: bool, likelyScanned: bool, width: real, height: real)

  /** `DocumentMetadataResult`. */
  datatype Metadata = Metadata(title: string, author: string, producer: string, creator: string)

  /** `DocumentInfoResult`. */
  datatype Info = Info(
    pageCount: nat,
    fileSizeBytes: nat,
    isEncrypted: bool,
    hasTextContent: bool,
    hasAnnotations: bool,
    existingAnnotationCount: nat,
    metadata: Metadata,
    pages: seq<PageInfo>)

  /** The annotations of the first `n` pages together. */
  function AnnotationsBefore(ps: seq<PdfPage>, n: nat): nat
    requires n <= |ps|
  {
    if n == 0 then 0 else AnnotationsBefore(ps, n - 1) + ps[n - 1].annotCount
  }

  /** The annotations of all the pages together. */
  function AnnotationTotal(ps: seq<PdfPage>): nat {
    AnnotationsBefore(ps, |ps|)
  }

  /** A metadata value, "" when the key is missing or there is no metadata. */
  function MetaValue(meta: Option<map<string, string>>, key: string): (v: string)
    ensures meta.Some? && key in meta.value ==> v == meta.value[key]
    ensures !(meta.Some? && key in meta.value) ==> v == ""
  {
    if meta.Some? && key in meta.value then meta.value[key] else ""
  }

  /** Whether a page has text: some character of it is not white space
      (`SummaryMeaning` relates this to the stripped text being non-empty). */
  predicate HasText(page: PdfPage) {
    !IsBlank(page.text)
  }

  /** The summary of one page; it looks scanned when it has images but no
      text. */
  function Summarise(page: PdfPage, i: nat): (p: PageInfo)
    ensures p.pageNumber == i && p.width == page.width && p.height == page.height
    ensures p.hasText == HasText(page)
    ensures p.likelyScanned <==> p.hasImages && !p.hasText
  {
    var hasText := HasText(page);
    var hasImages := page.imageCount > 0;
    PageInfo(i, hasText, hasImages, hasImages && !hasText, page.width, page.height)
  }

  /** A page has text exactly when its stripped text is non-empty; it has
      images when the engine lists at least one; it looks scanned exactly
      when it has images and only white space as text. */
  lemma SummaryMeaning(page: PdfPage, i: nat)
    ensures Summarise(page, i).hasText <==> |Strip(page.text)| > 0
    ensures Summarise(page, i).hasImages <==> page.imageCount > 0
    ensures Summarise(page, i).likelyScanned <==> page.imageCount > 0 && IsBlank(page.text)
  {
    StripEmptyIffBlank(page.text);
  }

  /** The per-page loop: one summary per page, whether any page has text,
      and the annotation count with its positivity flag. */
  method SummarisePages(ps: seq<PdfPage>) returns (pages: seq<PageInfo>, hasTextContent: bool, hasAnnotations: bool, annotationCount: nat)
    ensures |pages| == |ps|
    ensures forall k :: 0 <= k < |ps| ==> pages[k] == Summarise(ps[k], k)
    ensures hasTextContent <==> exists k :: 0 <= k < |ps| && HasText(ps[k])
    ensures annotationCount == AnnotationTotal(ps)
    ensures hasAnnotations <==> annotationCount > 0
  {
    hasTextContent := false;
    hasAnnotations := false;
    annotationCount := 0;
    pages := [];
    var i := 0;
    while i < |ps|
      invariant 0 <= i <= |ps|
      invariant |pages| == i
      invariant forall k :: 0 <= k < i ==> pages[k] == Summarise(ps[k], k)
      invariant hasTextContent <==> exists k :: 0 <= k < i && pages[k].hasText
      invariant annotationCount == AnnotationsBefore(ps, i)
      invariant hasAnnotations <==> annotationCount > 0
    {
      var info := Summarise(ps[i], i);
      ghost var before := pages;
      pages := pages + [info];
      forall k | 0 <= k < i + 1
        ensures pages[k] == Summarise(ps[k], k)
      {
        if k < i {
          assert pages[k] == before[k];
        }
      }
      hasTextContent := hasTextContent || info.hasText;
      hasAnnotations := hasAnnotations || ps[i].annotCount > 0;
      annotationCount := annotationCount + ps[i].annotCount;
      i := i + 1;
    }
  }

  /** `get_document_info`. An empty input, an input that does not open and
      an encrypted document are refused, in that order. Otherwise there is
      one summary per page, numbered by position; the document has text
      exactly when some page does; the annotation count is the sum over the
      pages and `hasAnnotations` says it is positive; the result never
      reports encryption; missing metadata reads as "". */
  method GetDocumentInfo(open: Opener, pdfData: seq<byte>) returns (r: Result<Info, Error>)
    ensures |pdfData| == 0 ==> r == Err(EmptyPdfData)
    ensures |pdfData| > 0 && open(pdfData).None? ==> r == Err(InvalidOrCorruptPdf)
    ensures |pdfData| > 0 && open(pdfData).Some? && open(pdfData).value.isEncrypted ==> r == Err(PdfIsEncrypted)
    ensures r.Ok? <==> |pdfData| > 0 && open(pdfData).Some? && !open(pdfData).value.isEncrypted
    ensures r.Ok? ==>
      var doc := open(pdfData).value;
      var info := r.value;
      && info.pageCount == |info.pages| == |doc.pages|
      && info.fileSizeBytes == |pdfData|
      && !info.isEncrypted
      && (forall i :: 0 <= i < |doc.pages| ==> info.pages[i] == Summarise(doc.pages[i], i))
      && (info.hasTextContent <==> exists i :: 0 <= i < |doc.pages| && !IsBlank(doc.pages[i].text))
      && info.existingAnnotationCount == AnnotationTotal(doc.pages)
      && (info.hasAnnotations <==> info.existingAnnotationCount > 0)
      && info.metadata == Metadata(MetaValue(doc.metadata, "title"), MetaValue(doc.metadata, "author"),
                                   MetaValue(doc.metadata, "producer"), MetaValue(doc.metadata, "creator"))
  {
    if |pdfData| == 0 {
      return Err(EmptyPdfData);
    }
    var attempt := open(pdfData);
    if attempt.None? {
      return Err(InvalidOrCorruptPdf);
    }
    var doc := attempt.value;
    if doc.isEncrypted {
      return Err(PdfIsEncrypted);
    }
    var pages, hasTextContent, hasAnnotations, annotationCount := SummarisePages(doc.pages);
    forall k | 0 <= k < |doc.pages| {
      SummaryMeaning(doc.pages[k], k);
    }
    var meta := Metadata(MetaValue(doc.metadata, "title"), MetaValue(doc.metadata, "author"),
                         MetaValue(doc.metadata, "producer"), MetaValue(doc.metadata, "creator"));
    return Ok(Info(|doc.pages|, |pdfData|, doc.isEncrypted, hasTextContent, hasAnnotations, annotationCount, meta, pages));
  }
}

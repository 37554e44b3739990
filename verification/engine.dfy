/** The document engine as data. Everything the core reads from an opened
    PDF — page sizes, page text, the text dictionary, image and annotation
    counts, text search and OCR — is a field of `Pdf` or `PdfPage`; opening
    bytes is a function the operations receive. */
module Engine {
  import opened Wrappers
  import opened Errors
  import opened Text
  import opened Geometry

  /** One span of `page.get_text("dict")`; a missing key is `None`. */
  datatype DictSpan = DictSpan(text: Option<string>)

  /** One line of the text dictionary: its spans and bounding box. */
  datatype DictLine = DictLine(spans: Option<seq<DictSpan>>, bbox: Option<Rect>)

  /** One block of the text dictionary; type 0 is text, others are images. */
  datatype DictBlock = DictBlock(blockType: Option<int>, lines: Option<seq<DictLine>>)

  /** The engine's answer to an OCR request: the recognised text, or the
      exception it threw. */
  datatype OcrAttempt = Recognised(text: string) | Raised(exception: Exception)

  datatype PdfPage = PdfPage(
    width: real,
    height: real,
    /** `page.get_text()` */
    text: string,
    /** `page.get_text("dict").get("blocks")` */
    blocks: Option<seq<DictBlock>>,
    /** `len(page.get_images())` */
    imageCount: nat,
    /** `len(list(page.annots() or []))` */
    annotCount: nat,
    /** `page.search_for(text)`: the render-space rectangles of every match */
    search: string -> seq<Rect>,
    /** OCR of the page in a language */
    ocr: string -> OcrAttempt)

  datatype Pdf = Pdf(pages: seq<PdfPage>, isEncrypted: bool, metadata: Option<map<string, string>>)

  /** `fitz.open(stream=..., filetype="pdf")`: `None` when the bytes do not
      open as a PDF. */
  type Opener = seq<byte> -> Option<Pdf>
}

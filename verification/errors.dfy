/** The exceptions the core raises. Every `ValueError` message of the core has
    its own constructor; the OCR path adds the not-installed error and the
    re-raise of an engine exception. */
module Errors {

  /** An exception thrown by a collaborator (the document or OCR engine):
      whether it is a `RuntimeError` (or a subclass), and its message. */
  datatype Exception = Exception(isRuntimeError: bool, message: string)

  datatype Error =
    | EmptyPdfData                                   // "Empty PDF data"
    | EmptyXfdfData                                  // "Empty XFDF data"
    | InvalidOrCorruptPdf                            // "Invalid or corrupt PDF"
    | PdfIsEncrypted                                 // "PDF is encrypted"
    | MalformedXfdf                                  // "Malformed XFDF"
    | InvalidHexColor(input: string)                 // "Invalid hex color: {input!r}"
    | PagesOutOfRange(invalid: seq<int>, pageCount: nat)
    | NotAnInteger(text: string)                     // int() of a page attribute failed
    | NotANumber(text: string)                       // float() of a rect field failed
    | TesseractNotInstalled                          // RuntimeError("Tesseract OCR is not installed")
    | Reraised(exception: Exception)                 // an engine exception propagated unchanged
}

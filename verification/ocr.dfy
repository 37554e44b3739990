/** `ocr_page`: run the engine's OCR on a page and translate the failure that
    means the OCR tool is missing into one recognisable error. */
module Ocr {
  import opened Wrappers
  import opened Errors
  import opened Text
  import opened Engine

  const DefaultLanguage: string := "eng"

  /** Whether a failure reports a missing OCR tool: a `RuntimeError` whose
      lower-cased message mentions "tesseract" or "not installed", or any
      other exception whose lower-cased message mentions "tesseract". */
  predicate ReportsMissingTool(e: Exception) {
    Contains(Lower(e.message), "tesseract")
      || (e.isRuntimeError && Contains(Lower(e.message), "not installed"))
  }

  /** The error an OCR failure turns into: the not-installed error, or the
      original exception raised again unchanged. */
  function Classify(e: Exception): (err: Error)
    ensures err == TesseractNotInstalled <==> ReportsMissingTool(e)
    ensures err != TesseractNotInstalled ==> err == Reraised(e)
  {
    if ReportsMissingTool(e) then TesseractNotInstalled else Reraised(e)
  }

  /** `ocr_page`: the recognised text, or the classified failure. */
  function OcrPage(page: PdfPage, language: string): (r: Result<string, Error>)
    ensures page.ocr(language).Recognised? <==> r.Ok?
    ensures r.Ok? ==> r.value == page.ocr(language).text
    ensures r.Err? ==> r.error == Classify(page.ocr(language).exception)
  {
    match page.ocr(language)
    case Recognised(text) => Ok(text)
    case Raised(e) => Err(Classify(e))
  }

  /** Lower-casing a slice is slicing the lower-cased string. */
  lemma LowerSlice(s: string, i: int, j: int)
    requires 0 <= i <= j <= |s|
    ensures Lower(s[i..j]) == Lower(s)[i..j]
  {
  }

  /** The match ignores case: "Tesseract", "TESSERACT" or any other spelling
      of the word anywhere in the message marks the tool as missing, whatever
      the kind of exception. */
  lemma MentionAnywhere(e: Exception, i: int)
    requires 0 <= i && i + 9 <= |e.message|
    requires Lower(e.message[i..i + 9]) == "tesseract"
    ensures Classify(e) == TesseractNotInstalled
  {
    var m := Lower(e.message);
    LowerSlice(e.message, i, i + 9);
    assert m[i..][..9] == m[i..i + 9];
    ContainsIff(m, "tesseract");
  }

  /** "not installed" alone only counts for a `RuntimeError`: any other
      exception with that message is raised again unchanged. */
  lemma NotInstalledNeedsRuntimeError(msg: string)
    requires Contains(Lower(msg), "not installed") && !Contains(Lower(msg), "tesseract")
    ensures Classify(Exception(true, msg)) == TesseractNotInstalled
    ensures Classify(Exception(false, msg)) == Reraised(Exception(false, msg))
  {
  }

  /** A message that mentions neither phrase is never reinterpreted. */
  lemma UnrelatedFailuresPropagate(e: Exception)
    requires forall i :: 0 <= i <= |e.message| - 9 ==> Lower(e.message)[i..][..9] != "tesseract"
    requires forall i :: 0 <= i <= |e.message| - 13 ==> Lower(e.message)[i..][..13] != "not installed"
    ensures Classify(e) == Reraised(e)
  {
    ContainsIff(Lower(e.message), "tesseract");
    ContainsIff(Lower(e.message), "not installed");
  }
}

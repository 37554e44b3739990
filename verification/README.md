# pdf-core redaction data pipeline, in Dafny

A model of the core of the redactr.io PDF service: the operations that turn
a PDF and an XFDF exchange document into a redacted PDF with an audit log,
and the operations around them. The service also suggests redactions as
XFDF highlights, extracts text (optionally through OCR), summarises a
document, and draws a branded overlay over each redacted region.

The document engine (PyMuPDF) is replaced by data. `Engine.Pdf` holds, per
page, the size, the text, the text dictionary, the image and annotation
counts, and two functions: text search and OCR. Opening bytes is a function
`seq<byte> -> Option<Pdf>`. The other collaborators are also parameters:
XML parsing, Python's `int()` and `float()`, SHA-256, saving the document,
the package version, and the random highlight names. The engine's effects
become data as well. The redaction step returns the list of operations it
asks of the engine (blackout marks, per-page flatten, re-marks, producer
string). The branding step returns its drawing directives (outline path,
FreeText label, image).

Coordinates are `real`. Render space has its origin at the top left of the
page; exchange space is PDF user space (section 8.3.2.3 of ISO 32000-1),
origin bottom left. The flip between them is `Geometry.FlipY`, an
involution.

Modules, following the source files:

- `Colors`, `Branding`: `branding.py`.
- `Exchange`, `Records`, `Redaction`, `RedactionProperties`: `redaction.py`.
- `Annotation`: `annotation.py`.
- `TextExtraction`: `text_extraction.py`.
- `DocumentInfo`: `document_info.py`.
- `Ocr`: `ocr.py`.
- `RoundTrip`: ties `annotation.py` to `redaction.py`.
- `Wrappers`, `Errors`, `Text`, `Geometry`, `Engine`: shared vocabulary.

`Errors.Error` has one constructor per exception the core raises.

Where the prose description of the service and the code differ, the model
follows the code:

- The icon side is computed from the height of the redacted rectangle, not
  from the height of the frame around it (`branding.py:175`).
- The returned redaction result carries a `redaction_log` that the declared
  result type omits (`redaction.py:136-141`).

## Model

| member | source | states |
|---|---|---|
| Geometry.FlipY | src/pdf_service/core/annotation.py:39-40 | The exchange rectangle keeps x, width and height; vertical order is preserved both ways; well-formedness is preserved both ways. |
| Geometry.FlipYInvolution | src/pdf_service/core/redaction.py:83-87 | Flipping back with the same page height restores the original rectangle exactly. |
| Geometry.FlipYInjective | src/pdf_service/core/redaction.py:84-85 | Distinct exchange rectangles on a page give distinct render rectangles. |
| Geometry.Width | src/pdf_service/core/branding.py:155 | PyMuPDF's width is never negative: x1 − x0 for an ordered rectangle, and 0 for one whose x1 lies left of x0. |
| Geometry.Height | src/pdf_service/core/branding.py:156 | PyMuPDF's height is never negative: y1 − y0 for an ordered rectangle, and 0 for one whose y1 lies above y0. |
| Colors.HexToRgb | src/pdf_service/core/branding.py:31-40 | The colour is accepted exactly when, after stripping leading '#', six hex digits remain. Each component lies in [0,1]. A rejection names the original input. |
| Colors.HexPairsIff | src/pdf_service/core/branding.py:37 | The three two-character slices all parse exactly when all six characters are hex digits. |
| Colors.HashOptional | src/pdf_service/core/branding.py:33 | A leading '#' is optional: an accepted colour parses the same with one prepended. |
| Colors.FormatHexRoundTrip | src/pdf_service/core/branding.py:37-40 | Parsing the '#RRGGBB' spelling of components 0..255 gives back each component divided by 255. |
| Colors.HexToRgbAsWritten | src/pdf_service/core/branding.py:31-40 | The parse with Python's `int(.., 16)`, for ASCII input, agrees with the strict parse on every input the strict parse accepts. |
| Colors.NegativeComponentAsWritten | src/pdf_service/core/branding.py:37 | "#-F0000", and "#-d0000" for any non-zero hex digit d, is accepted as written with a negative red component, outside [0,1]; the strict parse rejects it. |
| Branding.RedactionId | src/pdf_service/core/branding.py:43-46 | The identifier is 12 lower-case hex characters, a prefix of the digest of (page, x0, y0, x1, y1), so it is determined by page and rectangle. |
| Branding.FromConfig | src/pdf_service/core/branding.py:57-73 | No configuration means no style. A configuration succeeds exactly when its fill, its border (only if non-empty) and its text colour all parse; the style's colours are then those parses, an absent or empty border takes the fill, and prefix and icon default as in the source. A failure names the first bad colour in the order fill, border, text. |
| Branding.DefaultStyle | src/pdf_service/core/branding.py:62-72 | An empty configuration gives black fill and border, white text, no icon and prefix "ID:". |
| Branding.Classify | src/pdf_service/core/branding.py:15-18 | Medium or larger exactly when width ≥ 30 and height ≥ 10; large exactly when width ≥ 80 and height ≥ 20; large implies medium. |
| Branding.ClassifyMonotone | src/pdf_service/core/branding.py:159-170 | Growing the width or the height never lowers the tier. |
| Branding.Frame | src/pdf_service/core/branding.py:160-165 | The frame is the target grown by 3 on every side: moving each side back in by 3 gives the target, the centre is the target's, width and height grow by 6, and the target's corners lie inside. |
| Branding.CornerRadius | src/pdf_service/core/branding.py:84 | The radius is the least of 3, half the width and half the height. |
| Branding.RoundedRectPath | src/pdf_service/core/branding.py:76-137 | Eight segments alternate line and cubic curve, forming a closed path. The lines lie on the frame's four sides. Each corner curve runs from radius r before the corner to r after it, with control points r/3 from the corner along each side (the factor 2/3), where r is the clamped radius. Every segment stays inside a well-formed frame. |
| Branding.IconSize | src/pdf_service/core/branding.py:175 | The icon side is the lesser of 20 and the target height less 4. |
| Branding.IconRect | src/pdf_service/core/branding.py:173-182 | An icon square exists exactly when there are icon bytes and the side exceeds 4. It is then a side×side square at the frame's top-left, with side ≤ 20. |
| Branding.DrawBranding | src/pdf_service/core/branding.py:141-217 | The outline comes first, filled and stroked in the style's colours. A label appears only second and only for medium or larger targets, and then always: text "{prefix} {id}", font 7.0 (large) or 5.5 (medium), "helv", right-aligned, locked, in the style's colours. An image appears exactly when the icon square exists, and last. Nothing else is drawn: there are exactly 1 + label + image directives. |
| Branding.LabelPlacement | src/pdf_service/core/branding.py:189-197 | The label's left edge is the icon's right edge or the frame's left edge; its right edge is 2.5 inside the frame; its bottom is the frame's bottom; for large targets its top is below the target's vertical midpoint. |
| Exchange.FindAll | src/pdf_service/core/redaction.py:57 | `findall` returns only elements with that name, and every such element of the document. |
| Exchange.FindAllCount | src/pdf_service/core/redaction.py:57 | Each element with the name is returned as often as it occurs in the document; no other element is returned. |
| Exchange.FindAllAppend | src/pdf_service/core/redaction.py:57 | The search keeps document order: searching a document made of two parts is searching the first part, then the second. |
| Exchange.Lookup | src/pdf_service/core/redaction.py:54-57 | One lookup step returns exactly the highlight, redact and square elements under that naming. |
| Exchange.LookupTagOrder | src/pdf_service/core/redaction.py:56-57 | Within a lookup step all highlights precede all redacts, which precede all squares. |
| Exchange.LookupCount | src/pdf_service/core/redaction.py:54-57 | One lookup step returns every entry under its naming as often as it occurs in the document, and nothing else. |
| Exchange.SelectEntries | src/pdf_service/core/redaction.py:53-60 | The namespaced entries are used when there are any, otherwise the bare ones. Tag order is kept. Nothing is selected exactly when neither naming finds an entry. |
| Exchange.SelectEntriesCount | src/pdf_service/core/redaction.py:53-60 | The selection keeps duplicates: each entry of the naming in use is selected as often as it occurs in the document, and nothing else is. |
| Records.SplitByPage | src/pdf_service/core/redaction.py:65 | Splitting records by one page loses nothing and invents nothing. |
| Records.GroupByPagePermutes | src/pdf_service/core/redaction.py:100-102 | Grouping by page is a permutation of the accepted records. |
| Records.GroupByPageStable | src/pdf_service/core/redaction.py:88-102 | The records of every page keep their input order after grouping. |
| Records.GroupByPageContiguous | src/pdf_service/core/redaction.py:100-102 | After grouping, the records of each page are contiguous. |
| Records.GroupByPageFirstAppearance | src/pdf_service/core/redaction.py:65-100 | Pages come in the order of their first record in the input (dict insertion order). |
| Records.AuditLog | src/pdf_service/core/redaction.py:114-126 | One log entry per grouped record, in grouped order; each entry gives back its record's page, coordinates and identifier. |
| Redaction.Validate | src/pdf_service/core/redaction.py:35-60 | Errors come in order: empty PDF, empty XFDF, unopenable PDF, invalid style colour, malformed XML. The call passes exactly when none applies, and then yields the document, the style and the selected entries. |
| Redaction.ParseFields | src/pdf_service/core/redaction.py:74 | Every field is parsed in order; otherwise the error names the first field that is not a number. |
| Redaction.Examine | src/pdf_service/core/redaction.py:67-87 | A page attribute that is not an integer rejects. An empty rect or a page outside the document skips. Otherwise the entry is rejected with the first non-numeric field, skipped when there are not exactly four fields, and accepted when there are, on its page, with the render rectangle of those four numbers flipped with that page's height. |
| Redaction.ParseEntries | src/pdf_service/core/redaction.py:62-91 | Succeeds exactly when no entry is rejected, and otherwise reports the first rejection. On success the records are exactly the accepted verdicts, in entry order, each with the identifier of its page and rectangle; accepted plus skipped equals the entries. |
| Redaction.Remarks | src/pdf_service/core/redaction.py:99-111 | Exactly one re-mark per record, on its page and rectangle. It is branded exactly when a style is present, and then drawn with the record's own identifier. |
| Redaction.Redact | src/pdf_service/core/redaction.py:62-141 | The applied count equals the number of accepted entries and the log length. The hash is SHA-256 of the returned bytes. The operations are blackouts, flatten, grouped re-marks, then the producer "PDF Core v{version} by redactr.io". |
| Redaction.GroupedIsAccepted | src/pdf_service/core/redaction.py:100-102 | Every grouped record is one of the accepted records. |
| Redaction.LogIdsDerived | src/pdf_service/core/redaction.py:89-126 | Every log entry is on a page of the document, and its identifier is derived from its own page and coordinates. |
| Redaction.ApplyRedactions | src/pdf_service/core/redaction.py:30-141 | From the raw inputs: empty PDF, empty XFDF, unopenable PDF, bad style colour and malformed XML fail in that order; then it succeeds exactly when no selected entry is rejected, else fails with the first rejection. On success the count equals the accepted entries and the log length, the hash is SHA-256 of the returned bytes, the operations number two per region plus one per page plus the producer, last, and every log entry is on a page and carries the identifier of its page and coordinates. |
| RedactionProperties.NoEntriesNothingRedacted | src/pdf_service/core/redaction.py:58-97 | No selected entries gives success with zero redactions, an empty log, and only the flatten and the producer. |
| RedactionProperties.RemarksFollowLog | src/pdf_service/core/redaction.py:99-126 | The i-th re-mark and the i-th log entry name the same page and rectangle. A styled label big enough to show shows that entry's identifier. |
| Annotation.PageMatches | src/pdf_service/core/annotation.py:31-37 | Every match of a text on the remaining pages is a real engine hit of that text on its page. |
| Annotation.AllMatches | src/pdf_service/core/annotation.py:30-37 | Every match over all texts and pages is a real engine hit. |
| Annotation.PageResults | src/pdf_service/core/annotation.py:53-58 | Summary items exist only for pages with matches, and carry that page's match count. |
| Annotation.AllResults | src/pdf_service/core/annotation.py:30-58 | Every summary item names a searched text and a page, with a positive count equal to the engine's hit count. |
| Annotation.PageCounts | src/pdf_service/core/annotation.py:35-58 | For one text, the matches number the sum of the per-page counts. |
| Annotation.AllCounts | src/pdf_service/core/annotation.py:30-58 | Over all texts, the matches number the sum of the per-page counts. |
| Annotation.AllMatchesOrdered | src/pdf_service/core/annotation.py:30-37 | Matches come text-major, then by page, then in the engine's order on the page. |
| Annotation.AllMatchesComplete | src/pdf_service/core/annotation.py:30-37 | Every engine hit of every text on every page is among the matches. |
| Annotation.AllResultsComplete | src/pdf_service/core/annotation.py:53-58 | Every page where a text was found has its summary item. |
| Annotation.AllResultsOrdered | src/pdf_service/core/annotation.py:30-58 | Summary items come text by text in search order and, for one text, by increasing page: each item can be labelled with the searched text it reports so that labels never decrease and pages increase within a label. |
| Annotation.GetSuggestionAnnotations | src/pdf_service/core/annotation.py:14-71 | Errors: empty PDF, unopenable PDF. The total equals the number of highlights and the sum of the per-page counts. Each highlight has its own name, a searched text, and a rectangle that flips back to an engine hit of that text on its page. |
| Annotation.SuggestionsCharacterised | src/pdf_service/core/annotation.py:30-58 | The i-th highlight is the i-th of the ordered and complete engine matches: same page and text, its rectangle the match flipped with that page's height, its name the i-th generated name. Every page with a match has its summary item, and the summary is in text-then-page order. |
| TextExtraction.Selection | src/pdf_service/core/text_extraction.py:28 | A non-empty page list is used as given; otherwise every page, in order. |
| TextExtraction.OutOfRange | src/pdf_service/core/text_extraction.py:31 | The listed indices are exactly the requested indices outside the document. |
| TextExtraction.OutOfRangeAppend | src/pdf_service/core/text_extraction.py:31 | The listing keeps request order: checking a request made of two parts is checking the first part, then the second. |
| TextExtraction.OutOfRangeCount | src/pdf_service/core/text_extraction.py:31 | Duplicates are kept: an out-of-range index is listed as often as it is requested, an in-range one never. |
| TextExtraction.SelectionInRange | src/pdf_service/core/text_extraction.py:30-39 | A selection without out-of-range indices addresses only pages of the document. |
| TextExtraction.UseOcrIff | src/pdf_service/core/text_extraction.py:43-47 | OCR is used exactly when options are present and enabled, and the page text is blank or OCR is forced. |
| TextExtraction.Flatten | src/pdf_service/core/text_extraction.py:55-76 | Every entry is the entry of the line its numbers name. Block numbers count text blocks only; a line number is the index in its block. |
| TextExtraction.FlattenCount | src/pdf_service/core/text_extraction.py:57-76 | Every line of every text block gives exactly one entry. |
| TextExtraction.FlattenOrdered | src/pdf_service/core/text_extraction.py:57-76 | The entries come block by block and, within a block, line by line. |
| TextExtraction.FlattenShape | src/pdf_service/core/text_extraction.py:57-76 | Every line of every text block gives exactly one entry, ordered by block and then line. |
| TextExtraction.PageResult | src/pdf_service/core/text_extraction.py:38-82 | The text is the page's own unless OCR is used; then it is the OCR text, or the classified OCR failure. Blocks are empty without positions, else the flattened lines. |
| TextExtraction.Stream | src/pdf_service/core/text_extraction.py:38-82 | One result per selected page, in order, until the first failing page, whose error is the one raised. |
| TextExtraction.ExtractText | src/pdf_service/core/text_extraction.py:13-82 | Empty input, unopenable input, and out-of-range pages (all listed, with the page count) stop the stream before anything is yielded. Otherwise the i-th yielded result is the result of the i-th selected page, numbered with that page's index. The stream stops only at the first page whose OCR fails, raising that page's error. |
| DocumentInfo.Summarise | src/pdf_service/core/document_info.py:27-47 | Each page summary carries its index, its size, and "likely scanned" = has images and has no text. |
| DocumentInfo.SummaryMeaning | src/pdf_service/core/document_info.py:27-44 | A page has text exactly when its stripped text is non-empty, and has images exactly when the engine lists one. |
| DocumentInfo.SummarisePages | src/pdf_service/core/document_info.py:21-47 | One summary per page. "Has text" holds exactly when some page has text. The annotation count is the sum over the pages; "has annotations" means it is positive. |
| DocumentInfo.MetaValue | src/pdf_service/core/document_info.py:49-68 | A metadata value is the document's, or "" when missing. |
| DocumentInfo.GetDocumentInfo | src/pdf_service/core/document_info.py:8-71 | Errors, in order: empty, unopenable, encrypted. Otherwise: page count, file size, never encrypted, per-page summaries, document text flag, annotation total and flag, metadata defaults. |
| Ocr.Classify | src/pdf_service/core/ocr.py:12-19 | "Not installed" exactly when the lower-cased message mentions "tesseract", or the exception is a RuntimeError mentioning "not installed". Otherwise the exception is re-raised unchanged. |
| Ocr.OcrPage | src/pdf_service/core/ocr.py:8-19 | The engine's OCR text on success; on failure, the classification of the engine's exception. |
| Ocr.MentionAnywhere | src/pdf_service/core/ocr.py:13-17 | Any capitalisation of "tesseract" anywhere in the message means not installed, for any kind of exception. |
| Ocr.NotInstalledNeedsRuntimeError | src/pdf_service/core/ocr.py:13-19 | "not installed" alone counts only for a RuntimeError; other exceptions are re-raised. |
| Ocr.UnrelatedFailuresPropagate | src/pdf_service/core/ocr.py:15-19 | A message with neither phrase is re-raised unchanged. |
| Text.Strip | src/pdf_service/core/document_info.py:27 | The stripped string is a slice of the original with only white space cut off on either side, and, when non-empty, starts and ends with a non-space. |
| Text.StripEmptyIffBlank | src/pdf_service/core/document_info.py:27-28 | The stripped string is empty exactly when every character is white space. |
| Text.ContainsIff | src/pdf_service/core/ocr.py:13 | The substring test agrees with the positional definition. |
| Text.Split | src/pdf_service/core/redaction.py:74 | The split has at least one part, no part holds the separator, and joining the parts gives back the string. |
| Text.SplitJoin | src/pdf_service/core/redaction.py:74 | Splitting inverts joining for parts free of the separator. |
| RoundTrip.ExamineWritten | src/pdf_service/core/redaction.py:67-87 | A written highlight on a page of the document, whose page and coordinates read back as written, is accepted on its page, with its rectangle flipped back to render space. |
| RoundTrip.HighlightsSelected | src/pdf_service/core/redaction.py:53-60 | A document of namespaced highlights is selected whole and in order. |
| RoundTrip.FindAllWritten | src/pdf_service/core/annotation.py:27-50 | In the written entries (each highlight followed by its `contents` child) the namespaced highlight search finds exactly the written highlights, in order, and every other entry search finds nothing. |
| RoundTrip.WrittenSelected | src/pdf_service/core/annotation.py:27-50 | From the whole written document (`annots` container, highlights, `contents` children) the redaction step selects exactly the written highlights, in order. |
| RoundTrip.ParseWritten | src/pdf_service/core/redaction.py:62-91 | Written highlights whose values read back are all accepted, none is skipped, and each recovers its page and render rectangle. |
| RoundTrip.SuggestionsRedactExactly | src/pdf_service/core/annotation.py:37-50 | When the written suggestions' values read back, the redaction step selects exactly the written highlights from the written document, and redacting them marks exactly the engine's matches, in order, at the rectangles the engine reported. |

## Left out

- Engine effects are not modelled: content removal by `apply_redactions`, annotation appearance, `Shape` rendering, image embedding, and saving with garbage collection and deflate. The model lists the operations and directives it asks of the engine; the saved bytes come from a `serialize` parameter.
- What `set_metadata` does to metadata keys other than the producer is engine behaviour and is not modelled.
- SHA-256 is opaque. The identifier is modelled as a prefix of an abstract 64-character lower-hex digest of the packed input. `struct.pack(">iffff")` is left out: float32 rounding, the error for a page outside the 32-bit range, and the `OverflowError` for a finite coordinate beyond the float32 range (a rect such as "0,0,1e39,1" makes `apply_redactions` raise, while `Redaction.ApplyRedactions` accepts it).
- XML parsing and serialisation are parameters. The generated XFDF text is represented by its highlight entries. Attribute names other than `page` and `rect` are not read.
- In `apply_redactions`, Python's `int()` of the page attribute and `float()` of each rect field are the parameters `parseInt` and `parseFloat`; their leniency (white space, signs, underscores, "nan", "inf", non-ASCII digits) is not modelled.
- In `hex_to_rgb`, the strict two-hex-digit parse is `Colors.HexPair`; Python's `int(.., 16)` as written is modelled for ASCII input by `Colors.PyIntHexPair`.
- Branding.FromConfig: it parses colours with the corrected strict `Colors.HexToRgb`, and so do `Redaction.Validate` and `Redaction.ApplyRedactions` through it. A style colour such as "#-F0000" or "# F0000", which the code as written accepts, is rejected by the model with `InvalidHexColor`.
- Colors.HexToRgbAsWritten: non-ASCII Unicode digits, which Python's `int(.., 16)` also accepts, are not modelled.
- RoundTrip: the `str()` and `.2f` formatting of written highlights are parameters. The round-trip lemmas require each written page and coordinate to read back to its value, per value; with two decimals the real coordinates read back only approximately, and that case is not covered.
- All coordinates are `real`. There is no IEEE rounding.
- Highlight names come from `uuid4`; they are a parameter `names`, unconstrained.
- The package version lookup is a parameter, and logging is dropped.
- `Text.Lower` folds ASCII letters only; Python's `str.lower()` also folds other scripts.
- Ocr.OcrPage: the engine's OCR call is a per-page function of the language; the `get_textpage_ocr`/`get_text` pair is not split apart.
- `TextExtraction.OcrOptions` reads `enabled` and `force` as booleans (missing = false); other truthy values are not modelled.
- Closing the document (`with doc:`, `finally: doc.close()`) is not modelled.
- The gRPC servicer, the server, configuration, and the TypedDict declarations are not part of this model.

## Findings

| source | as written | input that shows it | evidently intended | confidence | as-written member | corrected member |
|---|---|---|---|---|---|---|
| src/pdf_service/core/branding.py:36-40 | Each component is read with `int(h[i:i+2], 16)`, which accepts a sign or surrounding white space | "#-F0000" is accepted with red = −15/255, outside [0,1] | Accept exactly six hex digits, so every component lies in [0,1] | not executed | Colors.NegativeComponentAsWritten | Colors.HexToRgb |

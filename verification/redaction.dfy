/** `apply_redactions`: validate the inputs, select and check the XFDF
    entries, flip accepted rectangles into render space, and describe what is
    done to the document — blackout marks, the per-page flatten, one re-mark
    per region (plain cross-out, or a transparent marker plus the branded
    overlay), the producer string — together with the audit log and the
    content hash. */
module Redaction {
  import opened Wrappers
  import opened Errors
  import opened Text
  import opened Geometry
  import opened Branding
  import opened Engine
  import opened Exchange
  import opened Records

  /** The producer metadata the output carries. */
  function Producer(version: string): string {
    "PDF Core v" + version + " by redactr.io"
  }

  /** What the pipeline asks the engine to do to the document, in order. */
  datatype PageOp =
    | MarkBlackout(page: int, rect: Rect)          // black-filled redact annotation
    | ApplyPageRedactions(page: int)               // destructive flatten of one page
    /** The redact annotation left on a region after the flatten: with no
        overlay, an opaque black one drawn crossed out; with one, a fully
        transparent one without cross-out, followed by the overlay drawing. */
    | ReMark(page: int, rect: Rect, overlay: Option<seq<Directive>>)
    | SetProducer(producer: string)

  /** The collaborators `apply_redactions` calls. */
  datatype Services = Services(
    open: Opener,
    /** ElementTree parsing; `None` for text that is not well-formed XML */
    parseXfdf: string -> Option<XfdfTree>,
    /** Python's `int(text)` */
    parseInt: string -> Option<int>,
    /** Python's `float(text)` */
    parseFloat: string -> Option<real>,
    /** SHA-256 hex digest of a packed identifier input */
    idDigest: IdInput -> HexDigest,
    /** SHA-256 of the output bytes */
    sha256: seq<byte> -> seq<byte>,
    /** the document with the operations applied, saved with garbage collection and deflate */
    serialize: (Pdf, seq<PageOp>) -> seq<byte>,
    /** the installed package version */
    version: string)

  /** `RedactionResult` together with the `redaction_log` the code returns,
      and the operations performed on the document. */
  datatype RedactionOutput = RedactionOutput(
    pdfData: seq<byte>,
    redactionsApplied: nat,
    contentHash: seq<byte>,
    redactionLog: seq<LogEntry>,
    operations: seq<PageOp>)

  // ---------------------------------------------------------------------
  // Validation
  // ---------------------------------------------------------------------

  /** What survives validation: the opened document, the style, the
      selected entries. */
  datatype Inputs = Inputs(doc: Pdf, style: Option<BrandingStyle>, entries: seq<Element>)

  /** The checks before any entry is read, in the order the code makes them:
      empty PDF, empty XFDF, unopenable PDF, bad style colour, malformed XML. */
  function Validate(svc: Services, pdfData: seq<byte>, xfdf: string, config: Option<StyleConfig>): (r: Result<Inputs, Error>)
    ensures |pdfData| == 0 ==> r == Err(EmptyPdfData)
    ensures |pdfData| > 0 && |xfdf| == 0 ==> r == Err(EmptyXfdfData)
    ensures |pdfData| > 0 && |xfdf| > 0 && svc.open(pdfData).None? ==> r == Err(InvalidOrCorruptPdf)
    ensures |pdfData| > 0 && |xfdf| > 0 && svc.open(pdfData).Some? && FromConfig(config).Err? ==>
      r == Err(FromConfig(config).error)
    ensures |pdfData| > 0 && |xfdf| > 0 && svc.open(pdfData).Some? && FromConfig(config).Ok? && svc.parseXfdf(xfdf).None? ==>
      r == Err(MalformedXfdf)
    ensures r.Ok? <==>
      |pdfData| > 0 && |xfdf| > 0 && svc.open(pdfData).Some? && FromConfig(config).Ok? && svc.parseXfdf(xfdf).Some?
    ensures r.Ok? ==>
      r.value == Inputs(svc.open(pdfData).value, FromConfig(config).value, SelectEntries(svc.parseXfdf(xfdf).value.descendants))
  {
    if |pdfData| == 0 then Err(EmptyPdfData)
    else if |xfdf| == 0 then Err(EmptyXfdfData)
    else match svc.open(pdfData)
      case None => Err(InvalidOrCorruptPdf)
      case Some(doc) =>
        var style :- FromConfig(config);
        match svc.parseXfdf(xfdf)
        case None => Err(MalformedXfdf)
        case Some(tree) => Ok(Inputs(doc, style, SelectEntries(tree.descendants)))
  }

  // ---------------------------------------------------------------------
  // Entries
  // ---------------------------------------------------------------------

  /** `[float(v) for v in fields]`: every field parsed, or the first field
      that does not parse. */
  function ParseFields(fields: seq<string>, parseFloat: string -> Option<real>): (r: Result<seq<real>, Error>)
    ensures r.Ok? ==> |r.value| == |fields| && forall i :: 0 <= i < |fields| ==> parseFloat(fields[i]) == Some(r.value[i])
    ensures r.Err? ==> exists i :: (0 <= i < |fields| && parseFloat(fields[i]).None? && r.error == NotANumber(fields[i])
      && forall j :: 0 <= j < i ==> parseFloat(fields[j]).Some?)
  {
    if |fields| == 0 then Ok([])
    else match parseFloat(fields[0])
      case None => Err(NotANumber(fields[0]))
      case Some(v) =>
        var rest :- ParseFields(fields[1..], parseFloat);
        assert forall i :: 1 <= i < |fields| ==> fields[i] == fields[1..][i - 1];
        Ok([v] + rest)
  }

  /** The fate of one entry. */
  datatype Verdict = Accept(page: int, rect: Rect) | Skip | Reject(error: Error)

  /** The page attribute, "0" when absent. */
  function PageText(e: Element): string {
    e.page.GetOr("0")
  }

  /** The rect attribute, "" when absent. */
  function RectText(e: Element): string {
    e.rect.GetOr("")
  }

  /** The comma-separated fields of the rect attribute. */
  function Fields(e: Element): seq<string> {
    Split(RectText(e), ',')
  }

  /** The page parses and lies in the document, and the rect is non-empty:
      the entry gets as far as its coordinates. */
  predicate Addressable(e: Element, pages: seq<PdfPage>, svc: Services) {
    && svc.parseInt(PageText(e)).Some?
    && |RectText(e)| > 0
    && 0 <= svc.parseInt(PageText(e)).value < |pages|
  }

  /** One iteration of the entry loop. The page is parsed first (failing
      the whole call when it is not an integer); an empty rect or a page
      outside the document skips the entry; the fields are then parsed
      (failing the call on a non-number) and anything but four of them skips
      the entry. An accepted entry's rectangle is flipped into render space
      with its own page's height. */
  function Examine(e: Element, pages: seq<PdfPage>, svc: Services): (v: Verdict)
    ensures v.Accept? ==>
      && svc.parseInt(PageText(e)) == Some(v.page)
      && 0 <= v.page < |pages|
      && |Split(RectText(e), ',')| == 4
      && ParseFields(Split(RectText(e), ','), svc.parseFloat) ==
           Ok(var x := FlipY(v.rect, pages[v.page].height); [x.x0, x.y0, x.x1, x.y1])
    ensures v.Reject? ==> v.error == NotAnInteger(PageText(e)) || v.error.NotANumber?
    ensures svc.parseInt(PageText(e)).None? ==> v == Reject(NotAnInteger(PageText(e)))
    ensures svc.parseInt(PageText(e)).Some? && (|RectText(e)| == 0 || !(0 <= svc.parseInt(PageText(e)).value < |pages|)) ==> v.Skip?
    ensures Addressable(e, pages, svc) && ParseFields(Fields(e), svc.parseFloat).Err? ==>
      v == Reject(ParseFields(Fields(e), svc.parseFloat).error)
    ensures Addressable(e, pages, svc) && ParseFields(Fields(e), svc.parseFloat).Ok? ==>
      var c := ParseFields(Fields(e), svc.parseFloat).value;
      var p := svc.parseInt(PageText(e)).value;
      && (|c| != 4 ==> v == Skip)
      && (|c| == 4 ==> v == Accept(p, FlipY(Rect(c[0], c[1], c[2], c[3]), pages[p].height)))
  {
    match svc.parseInt(PageText(e))
    case None => Reject(NotAnInteger(PageText(e)))
    case Some(p) =>
      if |RectText(e)| == 0 || p < 0 || p >= |pages| then Skip
      else match ParseFields(Fields(e), svc.parseFloat)
        case Err(err) => Reject(err)
        case Ok(c) =>
          if |c| != 4 then Skip
          else
            var exchange := Rect(c[0], c[1], c[2], c[3]);
            FlipYInvolution(exchange, pages[p].height);
            assert c == [exchange.x0, exchange.y0, exchange.x1, exchange.y1];
            Accept(p, FlipY(exchange, pages[p].height))
  }

  /** The entry loop's outcome: the accepted records in input order, and how
      many entries were skipped. */
  datatype Parsed = Parsed(records: seq<RedactionRecord>, skipped: nat)

  function Verdicts(es: seq<Element>, pages: seq<PdfPage>, svc: Services): (vs: seq<Verdict>)
    ensures |vs| == |es| && forall i :: 0 <= i < |es| ==> vs[i] == Examine(es[i], pages, svc)
  {
    seq(|es|, i requires 0 <= i < |es| => Examine(es[i], pages, svc))
  }

  /** The records of the accepted verdicts, in order, each with the
      identifier of its page and render rectangle. */
  function Accepted(vs: seq<Verdict>, digest: IdInput -> HexDigest): seq<RedactionRecord> {
    if |vs| == 0 then []
    else
      (if vs[0].Accept? then [RedactionRecord(vs[0].page, vs[0].rect, RedactionId(digest, vs[0].page, vs[0].rect))] else [])
      + Accepted(vs[1..], digest)
  }

  function AcceptCount(vs: seq<Verdict>): nat {
    if |vs| == 0 then 0 else (if vs[0].Accept? then 1 else 0) + AcceptCount(vs[1..])
  }

  function SkipCount(vs: seq<Verdict>): nat {
    if |vs| == 0 then 0 else (if vs[0].Skip? then 1 else 0) + SkipCount(vs[1..])
  }

  /** The entry loop. It stops at the first rejected entry; otherwise every
      entry is either accepted or skipped, the counts match the verdicts, and
      every record lies on a page of the document and carries the identifier
      of its page and render rectangle. */
  function ParseEntries(es: seq<Element>, pages: seq<PdfPage>, svc: Services): (r: Result<Parsed, Error>)
    ensures r.Ok? <==> forall i :: 0 <= i < |es| ==> !Examine(es[i], pages, svc).Reject?
    ensures r.Err? ==> exists i :: (0 <= i < |es| && Examine(es[i], pages, svc) == Reject(r.error)
      && forall j :: 0 <= j < i ==> !Examine(es[j], pages, svc).Reject?)
    ensures r.Ok? ==> |r.value.records| + r.value.skipped == |es|
    ensures r.Ok? ==> |r.value.records| == AcceptCount(Verdicts(es, pages, svc))
    ensures r.Ok? ==> r.value.skipped == SkipCount(Verdicts(es, pages, svc))
    ensures r.Ok? ==> r.value.records == Accepted(Verdicts(es, pages, svc), svc.idDigest)
    ensures r.Ok? ==> forall k :: 0 <= k < |r.value.records| ==>
      var rec := r.value.records[k];
      0 <= rec.page < |pages| && rec.redactionId == RedactionId(svc.idDigest, rec.page, rec.rect)
  {
    if |es| == 0 then Ok(Parsed([], 0))
    else
      var v := Examine(es[0], pages, svc);
      assert Verdicts(es, pages, svc)[1..] == Verdicts(es[1..], pages, svc);
      assert forall i :: 1 <= i < |es| ==> es[i] == es[1..][i - 1];
      match v
      case Reject(err) => Err(err)
      case Skip =>
        var rest :- ParseEntries(es[1..], pages, svc);
        Ok(Parsed(rest.records, rest.skipped + 1))
      case Accept(p, rect) =>
        var rest :- ParseEntries(es[1..], pages, svc);
        Ok(Parsed([RedactionRecord(p, rect, RedactionId(svc.idDigest, p, rect))] + rest.records, rest.skipped))
  }

  // ---------------------------------------------------------------------
  // Operations on the document
  // ---------------------------------------------------------------------

  /** One blackout mark per accepted record, in input order. */
  function Blackouts(rs: seq<RedactionRecord>): (ops: seq<PageOp>)
    ensures |ops| == |rs|
    ensures forall i :: 0 <= i < |rs| ==> ops[i] == MarkBlackout(rs[i].page, rs[i].rect)
  {
    seq(|rs|, i requires 0 <= i < |rs| => MarkBlackout(rs[i].page, rs[i].rect))
  }

  /** The flatten of every page of the document, in page order. */
  function ApplyAll(pageCount: nat): (ops: seq<PageOp>)
    ensures |ops| == pageCount
    ensures forall i :: 0 <= i < pageCount ==> ops[i] == ApplyPageRedactions(i)
  {
    seq(pageCount, i requires 0 <= i < pageCount => ApplyPageRedactions(i))
  }

  /** The re-mark of one region after the flatten. */
  function Remark(rec: RedactionRecord, style: Option<BrandingStyle>): PageOp {
    match style
    case None => ReMark(rec.page, rec.rect, None)
    case Some(st) => ReMark(rec.page, rec.rect, Some(DrawBranding(rec.rect, rec.redactionId, st)))
  }

  /** The re-marks of all regions, in the given (grouped) order: exactly one
      per region, on that region's page and rectangle; branded exactly when a
      style is present, and then with that region's own identifier. */
  function Remarks(rs: seq<RedactionRecord>, style: Option<BrandingStyle>): (ops: seq<PageOp>)
    ensures |ops| == |rs|
    ensures forall i :: 0 <= i < |rs| ==>
      && ops[i].ReMark? && ops[i].page == rs[i].page && ops[i].rect == rs[i].rect
      && (ops[i].overlay.Some? <==> style.Some?)
    ensures style.Some? ==> forall i :: 0 <= i < |rs| ==>
      ops[i].overlay == Some(DrawBranding(rs[i].rect, rs[i].redactionId, style.value))
  {
    seq(|rs|, i requires 0 <= i < |rs| => Remark(rs[i], style))
  }

  // ---------------------------------------------------------------------
  // The pipeline
  // ---------------------------------------------------------------------

  /** Everything after validation. The operations are the blackouts, the
      flatten of every page, the re-marks in grouped order and the producer
      string; the output bytes are the document with those operations
      applied, and the hash is over exactly those bytes. The count of
      applied redactions is the number of accepted entries and the length of
      the audit log. */
  function Redact(svc: Services, inp: Inputs): (r: Result<RedactionOutput, Error>)
    ensures ParseEntries(inp.entries, inp.doc.pages, svc).Err? ==> r == Err(ParseEntries(inp.entries, inp.doc.pages, svc).error)
    ensures r.Ok? ==>
      && ParseEntries(inp.entries, inp.doc.pages, svc).Ok?
      && var parsed := ParseEntries(inp.entries, inp.doc.pages, svc).value;
      && r.value.redactionsApplied == |parsed.records| == |r.value.redactionLog|
      && r.value.redactionLog == AuditLog(parsed.records)
      && r.value.contentHash == svc.sha256(r.value.pdfData)
      && r.value.pdfData == svc.serialize(inp.doc, r.value.operations)
      && r.value.operations ==
           Blackouts(parsed.records) + ApplyAll(|inp.doc.pages|)
           + Remarks(GroupByPage(parsed.records), inp.style) + [SetProducer(Producer(svc.version))]
  {
    var parsed :- ParseEntries(inp.entries, inp.doc.pages, svc);
    GroupByPagePermutes(parsed.records);
    var grouped := GroupByPage(parsed.records);
    var ops := Blackouts(parsed.records) + ApplyAll(|inp.doc.pages|)
               + Remarks(grouped, inp.style) + [SetProducer(Producer(svc.version))];
    var out := svc.serialize(inp.doc, ops);
    Ok(RedactionOutput(out, |parsed.records|, svc.sha256(out), AuditLog(parsed.records), ops))
  }

  /** A record of the grouped order is one of the accepted records. */
  lemma GroupedIsAccepted(rs: seq<RedactionRecord>, i: int)
    requires 0 <= i < |GroupByPage(rs)|
    ensures GroupByPage(rs)[i] in rs
  {
    GroupByPagePermutes(rs);
    assert GroupByPage(rs)[i] in multiset(GroupByPage(rs));
  }

  /** Every audit-log entry names a page of the document, and its identifier
      is the one derived from that entry's own page and coordinates: the log
      can be checked against the identifiers without the service. */
  lemma {:induction false} LogIdsDerived(svc: Services, inp: Inputs)
    requires Redact(svc, inp).Ok?
    ensures forall i :: 0 <= i < |Redact(svc, inp).value.redactionLog| ==>
      var e := Redact(svc, inp).value.redactionLog[i];
      && 0 <= e.page < |inp.doc.pages|
      && e.redactionId == RedactionId(svc.idDigest, e.page, Rect(e.x0, e.y0, e.x1, e.y1))
  {
    var parsed := ParseEntries(inp.entries, inp.doc.pages, svc).value;
    var log := Redact(svc, inp).value.redactionLog;
    forall i | 0 <= i < |log|
      ensures 0 <= log[i].page < |inp.doc.pages|
      ensures log[i].redactionId == RedactionId(svc.idDigest, log[i].page, Rect(log[i].x0, log[i].y0, log[i].x1, log[i].y1))
    {
      GroupedIsAccepted(parsed.records, i);
      var rec := GroupByPage(parsed.records)[i];
      var k :| 0 <= k < |parsed.records| && parsed.records[k] == rec;
    }
  }

  /** `apply_redactions`, in terms of its inputs. The checks come in the
      code's order: empty PDF, empty XFDF, unopenable PDF, bad style colour,
      malformed XML; then the first rejected entry. It succeeds exactly when
      all pass. On success one redaction is applied per accepted entry, each
      logged under the identifier derived from its page and rectangle, the
      operations are one blackout and one re-mark per region, one flatten
      per page and the producer string last, and the hash is the hash of the
      returned bytes. */
  function ApplyRedactions(svc: Services, pdfData: seq<byte>, xfdf: string, config: Option<StyleConfig>): (r: Result<RedactionOutput, Error>)
    ensures |pdfData| == 0 ==> r == Err(EmptyPdfData)
    ensures |pdfData| > 0 && |xfdf| == 0 ==> r == Err(EmptyXfdfData)
    ensures |pdfData| > 0 && |xfdf| > 0 && svc.open(pdfData).None? ==> r == Err(InvalidOrCorruptPdf)
    ensures (|pdfData| > 0 && |xfdf| > 0 && svc.open(pdfData).Some? && FromConfig(config).Err?) ==>
      r == Err(FromConfig(config).error)
    ensures (|pdfData| > 0 && |xfdf| > 0 && svc.open(pdfData).Some? && FromConfig(config).Ok? && svc.parseXfdf(xfdf).None?) ==>
      r == Err(MalformedXfdf)
    ensures (|pdfData| > 0 && |xfdf| > 0 && svc.open(pdfData).Some? && FromConfig(config).Ok? && svc.parseXfdf(xfdf).Some?) ==>
      var pages := svc.open(pdfData).value.pages;
      var es := SelectEntries(svc.parseXfdf(xfdf).value.descendants);
      && (r.Ok? <==> forall i :: 0 <= i < |es| ==> !Examine(es[i], pages, svc).Reject?)
      && (r.Err? ==> exists i :: (0 <= i < |es| && Examine(es[i], pages, svc) == Reject(r.error)
            && forall j :: 0 <= j < i ==> !Examine(es[j], pages, svc).Reject?))
    ensures r.Ok? ==>
      && |pdfData| > 0 && |xfdf| > 0 && svc.open(pdfData).Some? && FromConfig(config).Ok? && svc.parseXfdf(xfdf).Some?
      && var pages := svc.open(pdfData).value.pages;
      && var es := SelectEntries(svc.parseXfdf(xfdf).value.descendants);
      && var out := r.value;
      && out.redactionsApplied == AcceptCount(Verdicts(es, pages, svc)) == |out.redactionLog|
      && out.contentHash == svc.sha256(out.pdfData)
      && |out.operations| == 2 * out.redactionsApplied + |pages| + 1
      && out.operations[|out.operations| - 1] == SetProducer(Producer(svc.version))
      && forall i :: 0 <= i < |out.redactionLog| ==>
           var e := out.redactionLog[i];
           && 0 <= e.page < |pages|
           && e.redactionId == RedactionId(svc.idDigest, e.page, Rect(e.x0, e.y0, e.x1, e.y1))
  {
    var inp :- Validate(svc, pdfData, xfdf, config);
    var r := Redact(svc, inp);
    if r.Ok? then
      LogIdsDerived(svc, inp);
      r
    else r
  }
}

/** Properties of `apply_redactions` that relate its outputs to each other. */
module RedactionProperties {
  import opened Wrappers
  import opened Geometry
  import opened Branding
  import opened Engine
  import opened Records
  import opened Redaction

  /** With no selected entries nothing is redacted: the call succeeds, the
      log is empty, and the only operations are the flatten of every page
      and the producer string. */
  lemma NoEntriesNothingRedacted(svc: Services, inp: Inputs)
    requires inp.entries == []
    ensures Redact(svc, inp).Ok?
    ensures Redact(svc, inp).value.redactionsApplied == 0
    ensures Redact(svc, inp).value.redactionLog == []
    ensures Redact(svc, inp).value.operations == ApplyAll(|inp.doc.pages|) + [SetProducer(Producer(svc.version))]
  {
    assert GroupByPage([]) == [];
  }

  /** The re-marks and the audit log list the regions in the same order: the
      i-th re-mark sits on the i-th log entry's page and rectangle, and when
      a style is in force and the region is big enough to carry a label,
      that label shows the i-th log entry's identifier. */
  lemma {:induction false} RemarksFollowLog(svc: Services, inp: Inputs, i: int)
    requires Redact(svc, inp).Ok?
    requires 0 <= i < |Redact(svc, inp).value.redactionLog|
    ensures var out := Redact(svc, inp).value;
      var e := out.redactionLog[i];
      var op := out.operations[out.redactionsApplied + |inp.doc.pages| + i];
      && op.ReMark? && op.page == e.page && op.rect == Rect(e.x0, e.y0, e.x1, e.y1)
      && (op.overlay.Some? <==> inp.style.Some?)
      && (inp.style.Some? && TierOf(op.rect) != Small ==>
            op.overlay.value[1].FreeText? && op.overlay.value[1].text == LabelText(inp.style.value, e.redactionId))
  {
    var parsed := ParseEntries(inp.entries, inp.doc.pages, svc).value;
    var out := Redact(svc, inp).value;
    var g := GroupByPage(parsed.records);
    var n := |parsed.records|;
    var pre := Blackouts(parsed.records) + ApplyAll(|inp.doc.pages|);
    var rm := Remarks(g, inp.style);
    assert out.operations == pre + rm + [SetProducer(Producer(svc.version))];
    assert out.operations[n + |inp.doc.pages| + i] == rm[i];
  }
}

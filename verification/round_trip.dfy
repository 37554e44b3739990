/** The two halves of the pipeline meet in the exchange document: the
    highlights the suggestion step emits, written as namespaced highlight
    entries, are read back by the redaction step as exactly the regions the
    engine found. Number formatting is a parameter; all that is asked of it
    is that, for the numbers actually written, the parser reads each one
    back unchanged and no formatted coordinate contains a comma. */
module RoundTrip {
  import opened Wrappers
  import opened Text
  import opened Geometry
  import opened Engine
  import opened Exchange
  import opened Branding
  import opened Records
  import opened Annotation
  import opened Redaction

  /** A coordinate whose formatted text parses back to it and holds no
      comma. */
  predicate RealReadsBack(x: real, svc: Services, formatReal: real -> string) {
    svc.parseFloat(formatReal(x)) == Some(x) && ',' !in formatReal(x)
  }

  /** The numbers written for one highlight — its page and its four
      coordinates — are read back unchanged. */
  predicate WritesBack(h: Highlight, svc: Services, formatInt: int -> string, formatReal: real -> string) {
    && svc.parseInt(formatInt(h.page)) == Some(h.page)
    && RealReadsBack(h.rect.x0, svc, formatReal) && RealReadsBack(h.rect.y0, svc, formatReal)
    && RealReadsBack(h.rect.x1, svc, formatReal) && RealReadsBack(h.rect.y1, svc, formatReal)
  }

  predicate AllWriteBack(hs: seq<Highlight>, svc: Services, formatInt: int -> string, formatReal: real -> string) {
    forall i :: 0 <= i < |hs| ==> WritesBack(hs[i], svc, formatInt, formatReal)
  }

  /** The four coordinates of an exchange rectangle, comma separated. */
  function RectField(r: Rect, formatReal: real -> string): string {
    Join([formatReal(r.x0), formatReal(r.y0), formatReal(r.x1), formatReal(r.y1)], ',')
  }

  /** A highlight as an entry of the exchange document. */
  function ToElement(h: Highlight, formatInt: int -> string, formatReal: real -> string): Element {
    Element(Qualified(XfdfNamespace, "highlight"), Some(formatInt(h.page)), Some(RectField(h.rect, formatReal)))
  }

  function ToElements(hs: seq<Highlight>, formatInt: int -> string, formatReal: real -> string): (es: seq<Element>)
    ensures |es| == |hs|
    ensures forall i :: 0 <= i < |hs| ==> es[i] == ToElement(hs[i], formatInt, formatReal)
  {
    seq(|hs|, i requires 0 <= i < |hs| => ToElement(hs[i], formatInt, formatReal))
  }

  /** The comma-separated field splits back into the four coordinates. */
  lemma RectFieldSplits(r: Rect, formatReal: real -> string)
    requires ',' !in formatReal(r.x0) && ',' !in formatReal(r.y0) && ',' !in formatReal(r.x1) && ',' !in formatReal(r.y1)
    ensures Split(RectField(r, formatReal), ',') == [formatReal(r.x0), formatReal(r.y0), formatReal(r.x1), formatReal(r.y1)]
    ensures |RectField(r, formatReal)| > 0
  {
    var parts := [formatReal(r.x0), formatReal(r.y0), formatReal(r.x1), formatReal(r.y1)];
    SplitJoin(parts, ',');
    assert Join(parts, ',') == parts[0] + [','] + Join(parts[1..], ',');
  }

  /** A written highlight on a page of the document is accepted, on its
      page, with its rectangle flipped back into render space. */
  lemma {:induction false} ExamineWritten(h: Highlight, pages: seq<PdfPage>, svc: Services, formatInt: int -> string, formatReal: real -> string)
    requires WritesBack(h, svc, formatInt, formatReal)
    requires h.page < |pages|
    ensures Examine(ToElement(h, formatInt, formatReal), pages, svc) == Accept(h.page, FlipY(h.rect, pages[h.page].height))
  {
    var e := ToElement(h, formatInt, formatReal);
    RectFieldSplits(h.rect, formatReal);
    var fields := Split(RectText(e), ',');
    assert PageText(e) == formatInt(h.page);
    var coords := [h.rect.x0, h.rect.y0, h.rect.x1, h.rect.y1];
    assert forall i :: 0 <= i < 4 ==> svc.parseFloat(fields[i]) == Some(coords[i]);
    var parsed := ParseFields(fields, svc.parseFloat);
    assert parsed.Ok?;
    assert parsed.value == coords;
  }

  /** `findall` returns a list whose elements all carry the name unchanged,
      and nothing from a list with no such element. */
  lemma {:induction false} FindAllOnly(es: seq<Element>, n: Name, m: Name)
    requires forall i :: 0 <= i < |es| ==> es[i].name == n
    ensures FindAll(es, n) == es
    ensures m != n ==> FindAll(es, m) == []
  {
    if |es| > 0 {
      FindAllOnly(es[1..], n, m);
      assert [es[0]] + es[1..] == es;
    }
  }

  /** A document holding only namespaced highlights is selected whole, in
      order. */
  lemma HighlightsSelected(es: seq<Element>)
    requires forall i :: 0 <= i < |es| ==> es[i].name == Qualified(XfdfNamespace, "highlight")
    ensures SelectEntries(es) == es
  {
    var h := TagName("highlight", true);
    FindAllOnly(es, h, TagName("redact", true));
    FindAllOnly(es, h, TagName("square", true));
    FindAllOnly(es, h, TagName("highlight", false));
    FindAllOnly(es, h, TagName("redact", false));
    FindAllOnly(es, h, TagName("square", false));
    assert Lookup(es, true) == es;
  }

  /** An element the writer adds that carries no attribute the parser
      reads: the `annots` container and each highlight's `contents`. */
  function Plain(local: string): Element {
    Element(Qualified(XfdfNamespace, local), None, None)
  }

  /** The elements below the root of the written exchange document, in
      document order: the `annots` container, then each highlight followed by
      its `contents` child. */
  function WrittenDocument(hs: seq<Highlight>, formatInt: int -> string, formatReal: real -> string): seq<Element> {
    [Plain("annots")] + WrittenEntries(hs, formatInt, formatReal)
  }

  function WrittenEntries(hs: seq<Highlight>, formatInt: int -> string, formatReal: real -> string): seq<Element> {
    if |hs| == 0 then []
    else [ToElement(hs[0], formatInt, formatReal), Plain("contents")] + WrittenEntries(hs[1..], formatInt, formatReal)
  }

  /** Searching the written entries for the namespaced highlight name finds
      the highlights, in order; searching for any other entry name finds
      nothing. */
  lemma {:induction false} FindAllWritten(hs: seq<Highlight>, formatInt: int -> string, formatReal: real -> string, n: Name)
    requires n != Qualified(XfdfNamespace, "contents") && n != Qualified(XfdfNamespace, "annots")
    ensures FindAll(WrittenEntries(hs, formatInt, formatReal), n) ==
      if n == Qualified(XfdfNamespace, "highlight") then ToElements(hs, formatInt, formatReal) else []
  {
    if |hs| > 0 {
      var pair := [ToElement(hs[0], formatInt, formatReal), Plain("contents")];
      FindAllAppend(pair, WrittenEntries(hs[1..], formatInt, formatReal), n);
      FindAllWritten(hs[1..], formatInt, formatReal, n);
      assert pair[1..] == [Plain("contents")];
      assert ToElements(hs, formatInt, formatReal) == [ToElement(hs[0], formatInt, formatReal)] + ToElements(hs[1..], formatInt, formatReal);
    }
  }

  /** The redaction step selects exactly the written highlights, in order,
      from the whole written document: the container and the `contents`
      children are passed over. */
  lemma WrittenSelected(hs: seq<Highlight>, formatInt: int -> string, formatReal: real -> string)
    ensures SelectEntries(WrittenDocument(hs, formatInt, formatReal)) == ToElements(hs, formatInt, formatReal)
  {
    var body := WrittenEntries(hs, formatInt, formatReal);
    var doc := WrittenDocument(hs, formatInt, formatReal);
    forall tag | tag in EntryTags
      ensures FindAll(doc, TagName(tag, true)) == if tag == "highlight" then ToElements(hs, formatInt, formatReal) else []
      ensures FindAll(doc, TagName(tag, false)) == []
    {
      FindAllAppend([Plain("annots")], body, TagName(tag, true));
      FindAllAppend([Plain("annots")], body, TagName(tag, false));
      FindAllWritten(hs, formatInt, formatReal, TagName(tag, true));
      FindAllWritten(hs, formatInt, formatReal, TagName(tag, false));
    }
    assert Lookup(doc, true) == ToElements(hs, formatInt, formatReal);
    assert Lookup(doc, false) == [];
  }

  /** Reading back written highlights accepts every one of them, skips none,
      and recovers each one's page and render rectangle. */
  lemma {:induction false} ParseWritten(hs: seq<Highlight>, pages: seq<PdfPage>, svc: Services, formatInt: int -> string, formatReal: real -> string)
    requires AllWriteBack(hs, svc, formatInt, formatReal)
    requires forall i :: 0 <= i < |hs| ==> hs[i].page < |pages|
    ensures ParseEntries(ToElements(hs, formatInt, formatReal), pages, svc).Ok?
    ensures var parsed := ParseEntries(ToElements(hs, formatInt, formatReal), pages, svc).value;
      && parsed.skipped == 0 && |parsed.records| == |hs|
      && forall i :: 0 <= i < |hs| ==>
           parsed.records[i].page == hs[i].page && parsed.records[i].rect == FlipY(hs[i].rect, pages[hs[i].page].height)
  {
    var es := ToElements(hs, formatInt, formatReal);
    if |hs| > 0 {
      ExamineWritten(hs[0], pages, svc, formatInt, formatReal);
      ParseWritten(hs[1..], pages, svc, formatInt, formatReal);
      assert ToElements(hs[1..], formatInt, formatReal) == es[1..];
      var rest := ParseEntries(es[1..], pages, svc).value;
      var parsed := ParseEntries(es, pages, svc).value;
      assert parsed.records[1..] == rest.records;
      forall i | 0 < i < |hs|
        ensures parsed.records[i].page == hs[i].page && parsed.records[i].rect == FlipY(hs[i].rect, pages[hs[i].page].height)
      {
        assert parsed.records[i] == rest.records[i - 1] && hs[i] == hs[1..][i - 1];
      }
    }
  }

  /** The suggestion step and the redaction step agree: redacting the
      suggestions of a document, written out as the exchange document with
      faithful formatting of the numbers written, selects every suggestion
      and nothing else, skips none, and marks exactly
      the engine's matches — the `i`-th region is the `i`-th match, on its
      page, at the rectangle the engine reported, in render space. */
  lemma SuggestionsRedactExactly(open: Opener, names: nat -> string, pdfData: seq<byte>, texts: seq<string>,
                                 svc: Services, formatInt: int -> string, formatReal: real -> string)
    requires GetSuggestionAnnotations(open, names, pdfData, texts).Ok?
    requires AllWriteBack(GetSuggestionAnnotations(open, names, pdfData, texts).value.highlights, svc, formatInt, formatReal)
    ensures var pages := open(pdfData).value.pages;
      var hs := GetSuggestionAnnotations(open, names, pdfData, texts).value.highlights;
      var es := ToElements(hs, formatInt, formatReal);
      var ms := AllMatches(pages, texts, 0);
      && SelectEntries(es) == es
      && SelectEntries(WrittenDocument(hs, formatInt, formatReal)) == es
      && ParseEntries(es, pages, svc).Ok?
      && ParseEntries(es, pages, svc).value.skipped == 0
      && |ParseEntries(es, pages, svc).value.records| == |ms|
      && forall i :: 0 <= i < |ms| ==>
           ParseEntries(es, pages, svc).value.records[i].page == ms[i].page
           && ParseEntries(es, pages, svc).value.records[i].rect == ms[i].hit
  {
    var pages := open(pdfData).value.pages;
    var out := GetSuggestionAnnotations(open, names, pdfData, texts).value;
    var hs := out.highlights;
    var es := ToElements(hs, formatInt, formatReal);
    var ms := AllMatches(pages, texts, 0);
    SuggestionsCharacterised(open, names, pdfData, texts);
    HighlightsSelected(es);
    WrittenSelected(hs, formatInt, formatReal);
    ParseWritten(hs, pages, svc, formatInt, formatReal);
    var parsed := ParseEntries(es, pages, svc).value;
    forall i | 0 <= i < |ms|
      ensures parsed.records[i].page == ms[i].page && parsed.records[i].rect == ms[i].hit
    {
      assert hs[i] == ToHighlight(pages, texts, names, ms, i);
      FlipYInvolution(ms[i].hit, pages[ms[i].page].height);
    }
  }
}

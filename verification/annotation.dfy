/** `get_suggestion_annotations`: search every page for every text, and
    turn each match into a highlight entry in exchange space, with a count of
    all suggestions and a per-page summary of the texts that were found. */
module Annotation {
  import opened Wrappers
  import opened Errors
  import opened Text
  import opened Geometry
  import opened Engine

  /** One engine match: which text, which page, which match on that page,
      and its render-space rectangle. */
  datatype Match = Match(textIndex: nat, page: nat, index: nat, hit: Rect)

  /** One highlight entry of the output document; its rectangle is in
      exchange space. */
  datatype Highlight = Highlight(name: string, page: nat, rect: Rect, contents: string)

  /** `SuggestionResultItem`. */
  datatype SuggestionResultItem = SuggestionResultItem(text: string, page: nat, occurrencesFound: nat)

  /** `SuggestionAnnotationsResult`, with the exchange document given by its
      highlight entries. */
  datatype Suggestions = Suggestions(highlights: seq<Highlight>, totalSuggestions: nat, results: seq<SuggestionResultItem>)

  /** The engine's matches of text `t` on page `p`. */
  function Hits(pages: seq<PdfPage>, texts: seq<string>, t: nat, p: nat): seq<Rect>
    requires t < |texts| && p < |pages|
  {
    pages[p].search(texts[t])
  }

  /** A match that really is the engine's `index`-th match of its text on
      its page. */
  predicate IsMatch(pages: seq<PdfPage>, texts: seq<string>, m: Match) {
    && m.textIndex < |texts| && m.page < |pages|
    && m.index < |Hits(pages, texts, m.textIndex, m.page)|
    && m.hit == Hits(pages, texts, m.textIndex, m.page)[m.index]
  }

  /** The visiting order: text first, then page, then match. */
  predicate Before(a: Match, b: Match) {
    || a.textIndex < b.textIndex
    || (a.textIndex == b.textIndex && a.page < b.page)
    || (a.textIndex == b.textIndex && a.page == b.page && a.index < b.index)
  }

  predicate Ordered(ms: seq<Match>) {
    forall i, j :: 0 <= i < j < |ms| ==> Before(ms[i], ms[j])
  }

  /** The matches of text `t` on pages `p` onward. */
  function PageMatches(pages: seq<PdfPage>, texts: seq<string>, t: nat, p: nat): (ms: seq<Match>)
    requires t < |texts| && p <= |pages|
    ensures forall i :: 0 <= i < |ms| ==> IsMatch(pages, texts, ms[i]) && ms[i].textIndex == t && ms[i].page >= p
    decreases |pages| - p
  {
    if p == |pages| then []
    else
      var hits := Hits(pages, texts, t, p);
      seq(|hits|, k requires 0 <= k < |hits| => Match(t, p, k, hits[k])) + PageMatches(pages, texts, t, p + 1)
  }

  /** The matches of texts `t` onward, over all pages. */
  function AllMatches(pages: seq<PdfPage>, texts: seq<string>, t: nat): (ms: seq<Match>)
    requires t <= |texts|
    ensures forall i :: 0 <= i < |ms| ==> IsMatch(pages, texts, ms[i]) && ms[i].textIndex >= t
    decreases |texts| - t
  {
    if t == |texts| then [] else PageMatches(pages, texts, t, 0) + AllMatches(pages, texts, t + 1)
  }

  /** The per-page summary for text `t`, pages `p` onward: one item per page
      with at least one match. */
  function PageResults(pages: seq<PdfPage>, texts: seq<string>, t: nat, p: nat): (rs: seq<SuggestionResultItem>)
    requires t < |texts| && p <= |pages|
    ensures forall i :: 0 <= i < |rs| ==>
      && p <= rs[i].page < |pages| && rs[i].text == texts[t]
      && rs[i].occurrencesFound == |Hits(pages, texts, t, rs[i].page)| > 0
    ensures forall i, j :: 0 <= i < j < |rs| ==> rs[i].page < rs[j].page
    decreases |pages| - p
  {
    if p == |pages| then []
    else
      var n := |Hits(pages, texts, t, p)|;
      (if n > 0 then [SuggestionResultItem(texts[t], p, n)] else []) + PageResults(pages, texts, t, p + 1)
  }

  function AllResults(pages: seq<PdfPage>, texts: seq<string>, t: nat): (rs: seq<SuggestionResultItem>)
    requires t <= |texts|
    ensures forall i :: 0 <= i < |rs| ==>
      && rs[i].page < |pages| && rs[i].text in texts[t..]
      && rs[i].occurrencesFound == |pages[rs[i].page].search(rs[i].text)| > 0
    decreases |texts| - t
  {
    if t == |texts| then [] else PageResults(pages, texts, t, 0) + AllResults(pages, texts, t + 1)
  }

  function Occurrences(rs: seq<SuggestionResultItem>): nat {
    if |rs| == 0 then 0 else rs[0].occurrencesFound + Occurrences(rs[1..])
  }

  lemma {:induction false} OccurrencesAppend(a: seq<SuggestionResultItem>, b: seq<SuggestionResultItem>)
    ensures Occurrences(a + b) == Occurrences(a) + Occurrences(b)
  {
    if |a| == 0 {
      assert a + b == b;
    } else {
      assert (a + b)[1..] == a[1..] + b;
      OccurrencesAppend(a[1..], b);
    }
  }

  /** The summary accounts for every match of one text. */
  lemma {:induction false} PageCounts(pages: seq<PdfPage>, texts: seq<string>, t: nat, p: nat)
    requires t < |texts| && p <= |pages|
    ensures |PageMatches(pages, texts, t, p)| == Occurrences(PageResults(pages, texts, t, p))
    decreases |pages| - p
  {
    if p < |pages| {
      PageCounts(pages, texts, t, p + 1);
      var n := |Hits(pages, texts, t, p)|;
      var head := if n > 0 then [SuggestionResultItem(texts[t], p, n)] else [];
      OccurrencesAppend(head, PageResults(pages, texts, t, p + 1));
    }
  }

  /** The summary accounts for every match of every text. */
  lemma {:induction false} AllCounts(pages: seq<PdfPage>, texts: seq<string>, t: nat)
    requires t <= |texts|
    ensures |AllMatches(pages, texts, t)| == Occurrences(AllResults(pages, texts, t))
    decreases |texts| - t
  {
    if t < |texts| {
      PageCounts(pages, texts, t, 0);
      AllCounts(pages, texts, t + 1);
      OccurrencesAppend(PageResults(pages, texts, t, 0), AllResults(pages, texts, t + 1));
    }
  }

  /** The highlight entry for the `i`-th match: the `i`-th fresh name, the
      match's page, its rectangle flipped into exchange space with its page's
      height, and the searched text as contents. */
  function ToHighlight(pages: seq<PdfPage>, texts: seq<string>, names: nat -> string, ms: seq<Match>, i: nat): Highlight
    requires i < |ms| && IsMatch(pages, texts, ms[i])
  {
    var m := ms[i];
    Highlight(names(i), m.page, FlipY(m.hit, pages[m.page].height), texts[m.textIndex])
  }

  /** Every highlight flips back to the match it was made from. */
  lemma FlipsBack(pages: seq<PdfPage>, texts: seq<string>, names: nat -> string, ms: seq<Match>)
    requires forall i :: 0 <= i < |ms| ==> IsMatch(pages, texts, ms[i])
    ensures forall i :: 0 <= i < |ms| ==>
      FlipY(ToHighlight(pages, texts, names, ms, i).rect, pages[ms[i].page].height) == ms[i].hit
  {
    forall i | 0 <= i < |ms| {
      FlipYInvolution(ms[i].hit, pages[ms[i].page].height);
    }
  }

  /** The highlights and the summary for an opened document's pages. */
  function Annotate(pages: seq<PdfPage>, texts: seq<string>, names: nat -> string): (s: Suggestions)
    ensures s.totalSuggestions == |s.highlights| == Occurrences(s.results)
    ensures forall i :: 0 <= i < |s.highlights| ==>
      var h := s.highlights[i];
      && h.page < |pages| && h.contents in texts && h.name == names(i)
      && FlipY(h.rect, pages[h.page].height) in pages[h.page].search(h.contents)
    ensures forall i :: 0 <= i < |s.results| ==>
      var item := s.results[i];
      && item.page < |pages| && item.text in texts
      && item.occurrencesFound == |pages[item.page].search(item.text)| > 0
  {
    var ms := AllMatches(pages, texts, 0);
    var hs := seq(|ms|, i requires 0 <= i < |ms| => ToHighlight(pages, texts, names, ms, i));
    AllCounts(pages, texts, 0);
    FlipsBack(pages, texts, names, ms);
    assert texts[0..] == texts;
    Suggestions(hs, |ms|, AllResults(pages, texts, 0))
  }

  /** `get_suggestion_annotations`. `names(i)` stands for the random name
      of the `i`-th highlight. Every highlight flips back to an engine match
      of its contents on its page; with distinct names no two highlights
      share one; the total equals the number of highlights and the sum of
      the per-page counts. */
  function GetSuggestionAnnotations(open: Opener, names: nat -> string, pdfData: seq<byte>, texts: seq<string>): (r: Result<Suggestions, Error>)
    ensures |pdfData| == 0 ==> r == Err(EmptyPdfData)
    ensures |pdfData| > 0 && open(pdfData).None? ==> r == Err(InvalidOrCorruptPdf)
    ensures r.Ok? <==> |pdfData| > 0 && open(pdfData).Some?
    ensures r.Ok? ==> r.value.totalSuggestions == |r.value.highlights| == Occurrences(r.value.results)
    ensures r.Ok? ==> forall i :: 0 <= i < |r.value.highlights| ==>
      var h := r.value.highlights[i];
      && h.page < |open(pdfData).value.pages| && h.contents in texts && h.name == names(i)
      && FlipY(h.rect, open(pdfData).value.pages[h.page].height) in open(pdfData).value.pages[h.page].search(h.contents)
    ensures r.Ok? ==> forall i :: 0 <= i < |r.value.results| ==>
      var item := r.value.results[i];
      && item.page < |open(pdfData).value.pages| && item.text in texts
      && item.occurrencesFound == |open(pdfData).value.pages[item.page].search(item.text)| > 0
  {
    if |pdfData| == 0 then Err(EmptyPdfData)
    else match open(pdfData)
      case None => Err(InvalidOrCorruptPdf)
      case Some(doc) => Ok(Annotate(doc.pages, texts, names))
  }

  // ---------------------------------------------------------------------
  // Order and completeness
  // ---------------------------------------------------------------------

  lemma {:induction false} PageMatchesOrdered(pages: seq<PdfPage>, texts: seq<string>, t: nat, p: nat)
    requires t < |texts| && p <= |pages|
    ensures Ordered(PageMatches(pages, texts, t, p))
    decreases |pages| - p
  {
    if p < |pages| {
      PageMatchesOrdered(pages, texts, t, p + 1);
      var hits := Hits(pages, texts, t, p);
      var head := seq(|hits|, k requires 0 <= k < |hits| => Match(t, p, k, hits[k]));
      var tail := PageMatches(pages, texts, t, p + 1);
      var ms := head + tail;
      forall i, j | 0 <= i < j < |ms|
        ensures Before(ms[i], ms[j])
      {
        if j < |head| {
          assert ms[i] == head[i] && ms[j] == head[j];
        } else if i < |head| {
          assert ms[i] == head[i] && ms[j] == tail[j - |head|];
        } else {
          assert ms[i] == tail[i - |head|] && ms[j] == tail[j - |head|];
        }
      }
    }
  }

  /** Matches come in the order the loops visit them: text, then page, then
      the engine's order on the page. */
  lemma {:induction false} AllMatchesOrdered(pages: seq<PdfPage>, texts: seq<string>, t: nat)
    requires t <= |texts|
    ensures Ordered(AllMatches(pages, texts, t))
    decreases |texts| - t
  {
    if t < |texts| {
      PageMatchesOrdered(pages, texts, t, 0);
      AllMatchesOrdered(pages, texts, t + 1);
      var head := PageMatches(pages, texts, t, 0);
      var tail := AllMatches(pages, texts, t + 1);
      var ms := head + tail;
      forall i, j | 0 <= i < j < |ms|
        ensures Before(ms[i], ms[j])
      {
        if j < |head| {
          assert ms[i] == head[i] && ms[j] == head[j];
        } else if i < |head| {
          assert ms[i] == head[i] && ms[j] == tail[j - |head|];
        } else {
          assert ms[i] == tail[i - |head|] && ms[j] == tail[j - |head|];
        }
      }
    }
  }

  lemma {:induction false} PageMatchesComplete(pages: seq<PdfPage>, texts: seq<string>, t: nat, p: nat, q: nat, k: nat)
    requires t < |texts| && p <= q < |pages| && k < |Hits(pages, texts, t, q)|
    ensures Match(t, q, k, Hits(pages, texts, t, q)[k]) in PageMatches(pages, texts, t, p)
    decreases |pages| - p
  {
    var hits := Hits(pages, texts, t, p);
    var head := seq(|hits|, k requires 0 <= k < |hits| => Match(t, p, k, hits[k]));
    if q == p {
      assert head[k] == Match(t, q, k, Hits(pages, texts, t, q)[k]);
    } else {
      PageMatchesComplete(pages, texts, t, p + 1, q, k);
    }
  }

  /** Every engine match of every text on every page is among the matches. */
  lemma {:induction false} AllMatchesComplete(pages: seq<PdfPage>, texts: seq<string>, t: nat, u: nat, q: nat, k: nat)
    requires t <= u < |texts| && q < |pages| && k < |Hits(pages, texts, u, q)|
    ensures Match(u, q, k, Hits(pages, texts, u, q)[k]) in AllMatches(pages, texts, t)
    decreases |texts| - t
  {
    if u == t {
      PageMatchesComplete(pages, texts, t, 0, q, k);
    } else {
      AllMatchesComplete(pages, texts, t + 1, u, q, k);
    }
  }

  lemma {:induction false} PageResultsComplete(pages: seq<PdfPage>, texts: seq<string>, t: nat, p: nat, q: nat)
    requires t < |texts| && p <= q < |pages| && |Hits(pages, texts, t, q)| > 0
    ensures SuggestionResultItem(texts[t], q, |Hits(pages, texts, t, q)|) in PageResults(pages, texts, t, p)
    decreases |pages| - p
  {
    if q > p {
      PageResultsComplete(pages, texts, t, p + 1, q);
    }
  }

  /** Every page on which a text was found has its summary item. */
  lemma {:induction false} AllResultsComplete(pages: seq<PdfPage>, texts: seq<string>, t: nat, u: nat, q: nat)
    requires t <= u < |texts| && q < |pages| && |Hits(pages, texts, u, q)| > 0
    ensures SuggestionResultItem(texts[u], q, |Hits(pages, texts, u, q)|) in AllResults(pages, texts, t)
    decreases |texts| - t
  {
    if u == t {
      PageResultsComplete(pages, texts, t, 0, q);
    } else {
      AllResultsComplete(pages, texts, t + 1, u, q);
    }
  }

  /** `keys[i]` is the index of the searched text that summary item `i`
      reports, and the items come text by text in search order and, for one
      text, by increasing page. */
  predicate ResultsInOrder(rs: seq<SuggestionResultItem>, texts: seq<string>, keys: seq<nat>) {
    && |keys| == |rs|
    && (forall i :: 0 <= i < |rs| ==> keys[i] < |texts| && rs[i].text == texts[keys[i]])
    && (forall i, j :: 0 <= i < j < |rs| ==>
          keys[i] < keys[j] || (keys[i] == keys[j] && rs[i].page < rs[j].page))
  }

  /** Items of text `t` followed by items of later texts stay in order. */
  lemma KeyedConcat(a: seq<SuggestionResultItem>, b: seq<SuggestionResultItem>, texts: seq<string>,
                    ka: seq<nat>, kb: seq<nat>, t: nat)
    requires ResultsInOrder(a, texts, ka) && ResultsInOrder(b, texts, kb)
    requires forall i :: 0 <= i < |ka| ==> ka[i] == t
    requires forall i :: 0 <= i < |kb| ==> t < kb[i]
    ensures ResultsInOrder(a + b, texts, ka + kb)
  {
    var rs, keys := a + b, ka + kb;
    forall i | 0 <= i < |rs|
      ensures keys[i] < |texts| && rs[i].text == texts[keys[i]]
    {
      if i < |a| {
        assert rs[i] == a[i] && keys[i] == ka[i];
      } else {
        assert rs[i] == b[i - |a|] && keys[i] == kb[i - |a|];
      }
    }
    forall i, j | 0 <= i < j < |rs|
      ensures keys[i] < keys[j] || (keys[i] == keys[j] && rs[i].page < rs[j].page)
    {
      if j < |a| {
        assert rs[i] == a[i] && rs[j] == a[j] && keys[i] == ka[i] && keys[j] == ka[j];
      } else if i < |a| {
        assert keys[i] == ka[i] && keys[j] == kb[j - |a|];
      } else {
        assert rs[i] == b[i - |a|] && rs[j] == b[j - |a|];
        assert keys[i] == kb[i - |a|] && keys[j] == kb[j - |a|];
      }
    }
  }

  /** The text indices of the summary items of texts `t` onward. */
  lemma {:induction false} AllResultsKeys(pages: seq<PdfPage>, texts: seq<string>, t: nat) returns (keys: seq<nat>)
    requires t <= |texts|
    ensures ResultsInOrder(AllResults(pages, texts, t), texts, keys)
    ensures forall i :: 0 <= i < |keys| ==> t <= keys[i]
    decreases |texts| - t
  {
    if t == |texts| {
      keys := [];
    } else {
      var head := PageResults(pages, texts, t, 0);
      var headKeys := seq(|head|, _ => t);
      assert ResultsInOrder(head, texts, headKeys);
      var restKeys := AllResultsKeys(pages, texts, t + 1);
      KeyedConcat(head, AllResults(pages, texts, t + 1), texts, headKeys, restKeys, t);
      keys := headKeys + restKeys;
    }
  }

  /** The summary lists its items text by text, in search order, and for one
      text by increasing page: the order of the two nested loops. */
  lemma AllResultsOrdered(pages: seq<PdfPage>, texts: seq<string>)
    ensures exists keys :: ResultsInOrder(AllResults(pages, texts, 0), texts, keys)
  {
    var keys := AllResultsKeys(pages, texts, 0);
  }

  /** The highlights are exactly the engine's matches, one each, in the
      loops' order: the `i`-th highlight comes from the `i`-th match, the
      matches are ordered by text, page and position, and no match is
      missing. Every page that has a match of a text has its summary item,
      and the summary comes text by text and then page by page. */
  lemma SuggestionsCharacterised(open: Opener, names: nat -> string, pdfData: seq<byte>, texts: seq<string>)
    requires GetSuggestionAnnotations(open, names, pdfData, texts).Ok?
    ensures var pages := open(pdfData).value.pages;
      var ms := AllMatches(pages, texts, 0);
      var out := GetSuggestionAnnotations(open, names, pdfData, texts).value;
      && |out.highlights| == |ms|
      && (forall i :: 0 <= i < |ms| ==>
            && out.highlights[i].page == ms[i].page && out.highlights[i].contents == texts[ms[i].textIndex]
            && out.highlights[i].rect == FlipY(ms[i].hit, pages[ms[i].page].height)
            && out.highlights[i].name == names(i))
      && Ordered(ms)
      && (forall u, q, k :: 0 <= u < |texts| && 0 <= q < |pages| && 0 <= k < |pages[q].search(texts[u])| ==>
            Match(u, q, k, pages[q].search(texts[u])[k]) in ms)
      && (forall u, q :: 0 <= u < |texts| && 0 <= q < |pages| && |pages[q].search(texts[u])| > 0 ==>
            SuggestionResultItem(texts[u], q, |pages[q].search(texts[u])|) in out.results)
      && (exists keys :: ResultsInOrder(out.results, texts, keys))
  {
    var pages := open(pdfData).value.pages;
    AllMatchesOrdered(pages, texts, 0);
    AllResultsOrdered(pages, texts);
    forall u, q, k | 0 <= u < |texts| && 0 <= q < |pages| && 0 <= k < |pages[q].search(texts[u])|
      ensures Match(u, q, k, pages[q].search(texts[u])[k]) in AllMatches(pages, texts, 0)
    {
      AllMatchesComplete(pages, texts, 0, u, q, k);
    }
    forall u, q | 0 <= u < |texts| && 0 <= q < |pages| && |pages[q].search(texts[u])| > 0
      ensures SuggestionResultItem(texts[u], q, |pages[q].search(texts[u])|) in AllResults(pages, texts, 0)
    {
      AllResultsComplete(pages, texts, 0, u, q);
    }
  }
}

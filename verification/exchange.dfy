/** The XFDF exchange document as the redaction step reads it: the root's
    descendant elements in document order, and the selection of the
    highlight, redact and square entries by a namespaced lookup with a bare
    fallback. */
module Exchange {
  import opened Wrappers

  const XfdfNamespace: string := "http://ns.adobe.com/xfdf/"

  /** The entry tags that describe a region, in lookup order. */
  const EntryTags: seq<string> := ["highlight", "redact", "square"]

  /** An element name: in a namespace (`{ns}local`), or bare. */
  datatype Name = Qualified(ns: string, local: string) | Bare(local: string)

  /** An element with the two attributes the parser reads. */
  datatype Element = Element(name: Name, page: Option<string>, rect: Option<string>)

  /** A parsed document: the root's name and all elements below it in
      document order (what `root.findall(".//tag")` searches). */
  datatype XfdfTree = XfdfTree(root: Name, descendants: seq<Element>)

  /** The name a tag is looked up under in each of the two steps. */
  function TagName(tag: string, namespaced: bool): Name {
    if namespaced then Qualified(XfdfNamespace, tag) else Bare(tag)
  }

  /** `findall(".//name")`: the elements with that name, in document order,
      each as often as it occurs. */
  function FindAll(es: seq<Element>, n: Name): (r: seq<Element>)
    ensures |r| <= |es|
    ensures forall i :: 0 <= i < |r| ==> r[i].name == n
    ensures forall e :: e in r <==> e in es && e.name == n
  {
    if |es| == 0 then []
    else if es[0].name == n then [es[0]] + FindAll(es[1..], n)
    else FindAll(es[1..], n)
  }

  /** Each element with the name is found as often as it occurs; others
      not at all. */
  lemma {:induction false} FindAllCount(es: seq<Element>, n: Name, e: Element)
    ensures multiset(FindAll(es, n))[e] == if e.name == n then multiset(es)[e] else 0
  {
    if |es| > 0 {
      FindAllCount(es[1..], n, e);
      assert es == [es[0]] + es[1..];
    }
  }

  /** The search keeps document order: searching two consecutive parts of
      a document is searching each in turn. With a one-element document
      giving that element exactly when it has the name, this determines the
      result. */
  lemma {:induction false} FindAllAppend(a: seq<Element>, b: seq<Element>, n: Name)
    ensures FindAll(a + b, n) == FindAll(a, n) + FindAll(b, n)
  {
    if |a| == 0 {
      assert a + b == b;
    } else {
      assert (a + b)[1..] == a[1..] + b;
      FindAllAppend(a[1..], b, n);
    }
  }

  /** One lookup step: all highlights, then all redacts, then all squares,
      each entry as often as it occurs in the document. */
  function Lookup(es: seq<Element>, namespaced: bool): (r: seq<Element>)
    ensures forall e :: e in r <==> e in es && e.name in {TagName("highlight", namespaced), TagName("redact", namespaced), TagName("square", namespaced)}
  {
    FindAll(es, TagName("highlight", namespaced))
      + FindAll(es, TagName("redact", namespaced))
      + FindAll(es, TagName("square", namespaced))
  }

  /** The position of an entry's tag in the lookup order. */
  function TagRank(e: Element): nat {
    if e.name.local == "highlight" then 0 else if e.name.local == "redact" then 1 else 2
  }

  /** Whether an element is a region entry under the given naming. */
  predicate IsEntry(e: Element, namespaced: bool) {
    e.name in {TagName("highlight", namespaced), TagName("redact", namespaced), TagName("square", namespaced)}
  }

  /** The entries `apply_redactions` processes. The namespaced lookup wins
      whenever it finds anything; the bare lookup is used only otherwise.
      Every selected element is a highlight, redact or square from the
      document, all highlights come before all redacts and those before all
      squares, and nothing is selected exactly when the document has no such
      element under either naming. */
  function SelectEntries(es: seq<Element>): (r: seq<Element>)
    ensures (exists e :: e in es && IsEntry(e, true)) ==>
      forall e :: e in r <==> e in es && IsEntry(e, true)
    ensures !(exists e :: e in es && IsEntry(e, true)) ==>
      forall e :: e in r <==> e in es && IsEntry(e, false)
    ensures forall i, j :: 0 <= i < j < |r| ==> TagRank(r[i]) <= TagRank(r[j])
    ensures |r| == 0 <==> forall e :: e in es ==> !IsEntry(e, true) && !IsEntry(e, false)
  {
    var ns := Lookup(es, true);
    LookupEmpty(es, true);
    LookupEmpty(es, false);
    LookupTagOrder(es, |ns| > 0);
    if |ns| > 0 then ns else Lookup(es, false)
  }

  /** A lookup step finds nothing exactly when no element is an entry under
      its naming. */
  lemma LookupEmpty(es: seq<Element>, namespaced: bool)
    ensures |Lookup(es, namespaced)| == 0 <==> forall e :: e in es ==> !IsEntry(e, namespaced)
  {
    var r := Lookup(es, namespaced);
    if |r| > 0 {
      assert r[0] in r;
    }
  }

  /** Within one lookup step the tags come in lookup order. */
  lemma LookupTagOrder(es: seq<Element>, namespaced: bool)
    ensures var r := Lookup(es, namespaced);
      forall i, j :: 0 <= i < j < |r| ==> TagRank(r[i]) <= TagRank(r[j])
  {
    var h := FindAll(es, TagName("highlight", namespaced));
    var d := FindAll(es, TagName("redact", namespaced));
    var q := FindAll(es, TagName("square", namespaced));
    var r := h + d + q;
    assert forall i :: 0 <= i < |h| ==> TagRank(r[i]) == 0;
    assert forall i :: |h| <= i < |h| + |d| ==> r[i] == d[i - |h|] && TagRank(r[i]) == 1;
    assert forall i :: |h| + |d| <= i < |r| ==> r[i] == q[i - |h| - |d|] && TagRank(r[i]) == 2;
  }

  /** A lookup step keeps every entry under its naming as often as it
      occurs in the document, and nothing else. */
  lemma LookupCount(es: seq<Element>, namespaced: bool, e: Element)
    ensures multiset(Lookup(es, namespaced))[e] == if IsEntry(e, namespaced) then multiset(es)[e] else 0
  {
    FindAllCount(es, TagName("highlight", namespaced), e);
    FindAllCount(es, TagName("redact", namespaced), e);
    FindAllCount(es, TagName("square", namespaced), e);
  }

  /** The selection keeps duplicates: each entry of the chosen naming is
      selected as often as it occurs in the document, and nothing else is. */
  lemma SelectEntriesCount(es: seq<Element>, e: Element)
    ensures (exists x :: x in es && IsEntry(x, true)) ==>
      multiset(SelectEntries(es))[e] == if IsEntry(e, true) then multiset(es)[e] else 0
    ensures !(exists x :: x in es && IsEntry(x, true)) ==>
      multiset(SelectEntries(es))[e] == if IsEntry(e, false) then multiset(es)[e] else 0
  {
    LookupEmpty(es, true);
    LookupCount(es, true, e);
    LookupCount(es, false, e);
  }
}

/** The catalogue entities and the rules that build them from already
    located HTML elements (`Api::from_html`, `Category::title`,
    `Category::items`, `Category::from_html`). */
module Catalogue {
  import opened Results
  import opened Text

  /** An HTML element as the extraction rules see it: the text fragments
      `text()` yields, its `href` attribute if any, and its `dt`, `dd` and
      `a` descendants in document order. */
  datatype Element = Element(
    fragments: seq<string>,
    href: Option<string>,
    dts: seq<Element>,
    dds: seq<Element>,
    anchors: seq<Element>)

  /** One catalogued API: the text of its link and the link target. */
  datatype Api = Api(name: string, spec: string)

  /** A named group of APIs, in document order. */
  datatype Category = Category(title: string, items: seq<Api>)

  /** An entry (`dd`) becomes an API from its first `a` descendant. */
  function ApiFromHtml(el: Element): (r: Result<Api>)
    ensures r.Ok? <==> |el.anchors| > 0 && el.anchors[0].href.Some?
    ensures |el.anchors| == 0 ==> r == Err(MissingLink)
    ensures |el.anchors| > 0 && el.anchors[0].href.None? ==> r == Err(MissingHref)
    ensures r.Ok? ==> r.value.name == JoinedText(el.anchors[0].fragments)
    ensures r.Ok? ==> r.value.spec == el.anchors[0].href.value
  {
    if |el.anchors| == 0 then Err(MissingLink)
    else
      var a := el.anchors[0];
      match a.href
      case None => Err(MissingHref)
      case Some(h) => Ok(Api(JoinedText(a.fragments), h))
  }

  /** Only the first link of an entry matters: any later `a` elements, and
      the entry's own text and attributes, are ignored; two entries without
      any link fail alike. */
  lemma ApiFromHtmlFirstLinkOnly(el: Element, other: Element)
    requires || (|el.anchors| == 0 && |other.anchors| == 0)
             || (|el.anchors| > 0 && |other.anchors| > 0 && other.anchors[0] == el.anchors[0])
    ensures ApiFromHtml(other) == ApiFromHtml(el)
  {
  }

  /** A category's title is the joined text of its first `dt`. */
  function Title(el: Element): (r: Result<string>)
    ensures r.Ok? <==> |el.dts| > 0
    ensures r.Err? ==> r.error == MissingTitle
    ensures r.Ok? ==> r.value == JoinedText(el.dts[0].fragments)
  {
    if |el.dts| == 0 then Err(MissingTitle) else Ok(JoinedText(el.dts[0].fragments))
  }

  /** `el.select(&DD).map(Api::from_html)`: one result per `dd`, in order. */
  function ApiResults(dds: seq<Element>): (rs: seq<Result<Api>>)
    ensures |rs| == |dds|
    ensures forall i | 0 <= i < |dds| :: rs[i] == ApiFromHtml(dds[i])
  {
    seq(|dds|, i requires 0 <= i < |dds| => ApiFromHtml(dds[i]))
  }

  /** A category's items: every `dd` must yield an API; the first one that
      does not decides the error. */
  function Items(el: Element): (r: Result<seq<Api>>)
    ensures r.Ok? <==> forall i | 0 <= i < |el.dds| :: ApiFromHtml(el.dds[i]).Ok?
    ensures r.Ok? ==> |r.value| == |el.dds|
    ensures r.Ok? ==> forall i | 0 <= i < |el.dds| :: r.value[i] == ApiFromHtml(el.dds[i]).value
    ensures r.Err? ==>
      exists i | 0 <= i < |el.dds| ::
        && ApiFromHtml(el.dds[i]) == Err(r.error)
        && forall j | 0 <= j < i :: ApiFromHtml(el.dds[j]).Ok?
  {
    var rs := ApiResults(el.dds);
    var r := Collect(rs);
    assert r.Err? ==> rs[FirstFailure(rs)] == Err(r.error);
    r
  }

  /** A category: the title is extracted first, so a missing `dt` is
      reported even when some `dd` is malformed too. */
  function CategoryFromHtml(el: Element): (r: Result<Category>)
    ensures |el.dts| == 0 ==> r == Err(MissingTitle)
    ensures r.Ok? <==> |el.dts| > 0 && Items(el).Ok?
    ensures |el.dts| > 0 && Items(el).Err? ==> r == Err(Items(el).error)
    ensures r.Ok? ==> r.value.title == JoinedText(el.dts[0].fragments)
    ensures r.Ok? ==> r.value.items == Items(el).value
  {
    var title :- Title(el);
    var items :- Items(el);
    Ok(Category(title, items))
  }
}

/** server/lib/pdf-converter.ts: every page rendered at scale 2 to a PNG, with
    the page's link annotations normalised into canvas coordinates. */
module PdfConverter {
  import opened Common
  import opened Types
  import opened Geometry
  import opened PdfJs

  const RenderScale: real := 2.0

  datatype Converted = Converted(images: seq<Bytes>, links: seq<seq<LinkInfo>>)

  /** A page converts when it renders and its annotations can be read. */
  predicate PageConverts(p: PdfPage) {
    p.render(RenderScale).Some? && p.annotations.Some?
  }

  /** The links of the page with 0-based index `k`. */
  function ConvertedLinks(p: PdfPage, k: nat): seq<LinkInfo>
    requires p.annotations.Some?
  {
    PageLinks(p.viewport(RenderScale), p.annotations.value, Some(k))
  }

  /** convertPdfToImages over a loaded document (`None`: the document does not
      load). The first page that fails to render or to list its annotations
      rejects the whole conversion. */
  method ConvertPdfToImages(doc: Option<seq<PdfPage>>) returns (r: Result<Converted>)
    ensures r.Success? <==> doc.Some? && forall k :: 0 <= k < |doc.value| ==> PageConverts(doc.value[k])
    ensures r.Success? ==>
      && |r.value.images| == |doc.value| && |r.value.links| == |doc.value|
      && forall k :: 0 <= k < |doc.value| ==>
        && r.value.images[k] == doc.value[k].render(RenderScale).value.png
        && r.value.links[k] == ConvertedLinks(doc.value[k], k)
  {
    if doc.None? {
      return Failure("Invalid PDF structure");
    }
    var pages := doc.value;
    var images: seq<Bytes> := [];
    var links: seq<seq<LinkInfo>> := [];
    for i := 0 to |pages|
      invariant |images| == i && |links| == i
      invariant forall k :: 0 <= k < i ==> PageConverts(pages[k])
      invariant forall k :: 0 <= k < i ==>
        images[k] == pages[k].render(RenderScale).value.png && links[k] == ConvertedLinks(pages[k], k)
    {
      var page := pages[i];
      var canvas := page.render(RenderScale);
      if canvas.None? {
        return Failure("page render failed");
      }
      images := images + [canvas.value.png];
      if page.annotations.None? {
        return Failure("getAnnotations failed");
      }
      links := links + [ConvertedLinks(page, i)];
    }
    return Success(Converted(images, links));
  }

  /** Every link listed for page k carries pageIndex k, a URL, and a
      non-negative width and height. */
  lemma ConvertedLinksOfPage(p: PdfPage, k: nat)
    requires p.annotations.Some?
    ensures forall l :: l in ConvertedLinks(p, k) ==>
      l.pageIndex == Some(k as int) && l.url != "" && l.width >= 0.0 && l.height >= 0.0
  {
    PageLinksWellFormed(p.viewport(RenderScale), p.annotations.value, Some(k));
  }
}

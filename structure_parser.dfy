/** server/lib/pdf-structure-parser.ts, parsePdf: the page loop that turns
    every page of a loaded document into its links and its blocks. */
module StructureParser {
  import opened Common
  import opened Types
  import opened Geometry
  import opened PdfJs
  import opened ParserText
  import opened ParserRegions
  import opened ParserLines
  import opened ParserBlocks

  /** Pages are rendered and measured at scale 1.5. */
  const ParseScale: real := 1.5

  datatype ParsedPage = ParsedPage(pageIndex: int, width: real, height: real, blocks: seq<ExtractedBlock>, links: seq<LinkInfo>)

  /** Every entry of the text content has a string and a transform; a marked
      content entry has no transform, and reading `transform[4]` throws. */
  predicate AllTextItems(content: seq<TextContentItem>) {
    forall j :: 0 <= j < |content| ==> content[j].TextItem?
  }

  /** A page parses when it renders, its annotations and its text content can
      be read, and the text content holds only text items. Nothing about the
      crops matters: a crop that throws only loses its image block. */
  predicate PageParses(p: PdfPage) {
    && p.render(ParseScale).Some?
    && p.annotations.Some?
    && p.textContent.Some?
    && AllTextItems(p.textContent.value)
  }

  /** The text items in viewport coordinates, in content order. */
  function PageItems(vp: Viewport, content: seq<TextContentItem>): (items: seq<NormItem>)
    requires AllTextItems(content)
    ensures |items| == |content|
  {
    seq(|content|, j requires 0 <= j < |content| => NormalizeItem(vp, content[j]))
  }

  /** The items after link embedding. */
  function EmbeddedItems(items: seq<NormItem>, links: seq<LinkInfo>): (out: seq<NormItem>)
    ensures |out| == |items|
  {
    seq(|items|, k requires 0 <= k < |items| => Embed(items[k], links))
  }

  /** The items of a page, normalised, embedded and sorted by y. */
  function SortedItems(vp: Viewport, content: seq<TextContentItem>, links: seq<LinkInfo>): seq<NormItem>
    requires AllTextItems(content)
  {
    SortByY(EmbeddedItems(PageItems(vp, content), links))
  }

  /** The page as parsePdf builds it, for the page with 0-based index k. */
  function ParsePage(p: PdfPage, k: nat, lineOrder: seq<NormItem> -> seq<NormItem>): ParsedPage
    requires PageParses(p)
  {
    var vp := p.viewport(ParseScale);
    var links := ExtractLinks(vp, p.annotations.value, k);
    var regions := Group(SortedItems(vp, p.textContent.value, links));
    ParsedPage(k, vp.width, vp.height, PageBlocks(p.render(ParseScale).value, vp.width, vp.height, regions, lineOrder), links)
  }

  /** The parsed pages of a document whose pages all parse, in page order. */
  function ParsedPages(pages: seq<PdfPage>, lineOrder: seq<NormItem> -> seq<NormItem>): (r: seq<ParsedPage>)
    requires forall k :: 0 <= k < |pages| ==> PageParses(pages[k])
    ensures |r| == |pages|
  {
    seq(|pages|, k requires 0 <= k < |pages| => ParsePage(pages[k], k, lineOrder))
  }

  /** One turn of the page loop (`None`: a call on the page throws, which
      rejects the whole parse). */
  method ParsePageStep(p: PdfPage, k: nat, lineOrder: seq<NormItem> -> seq<NormItem>) returns (r: Option<ParsedPage>)
    ensures r.Some? <==> PageParses(p)
    ensures r.Some? ==> r.value == ParsePage(p, k, lineOrder)
  {
    var vp := p.viewport(ParseScale);
    var raster := p.render(ParseScale);
    if raster.None? {
      return None;
    }
    if p.annotations.None? {
      return None;
    }
    var links := ExtractLinks(vp, p.annotations.value, k);
    if p.textContent.None? || !AllTextItems(p.textContent.value) {
      return None;
    }
    var items := PageItems(vp, p.textContent.value);
    var embedded := EmbedLinks(items, links);
    assert embedded == EmbeddedItems(items, links);
    var sorted := SortByY(embedded);
    var regions := GroupRegions(sorted);
    var blocks := EmitBlocks(raster.value, vp.width, vp.height, regions, lineOrder);
    return Some(ParsedPage(k, vp.width, vp.height, blocks, links));
  }

  /** parsePdf over a loaded document (`None`: reading or loading it fails).
      Any failing page rethrows; otherwise one parsed page per page, in order. */
  method ParsePdf(doc: Option<seq<PdfPage>>, lineOrder: seq<NormItem> -> seq<NormItem>) returns (r: Result<seq<ParsedPage>>)
    ensures r.Success? <==> doc.Some? && forall k :: 0 <= k < |doc.value| ==> PageParses(doc.value[k])
    ensures r.Success? ==> r.value == ParsedPages(doc.value, lineOrder)
  {
    if doc.None? {
      return Failure("Invalid PDF structure");
    }
    var pages := doc.value;
    var parsed: seq<ParsedPage> := [];
    for i := 0 to |pages|
      invariant forall k :: 0 <= k < i ==> PageParses(pages[k])
      invariant parsed == ParsedPages(pages[..i], lineOrder)
    {
      var page := ParsePageStep(pages[i], i, lineOrder);
      if page.None? {
        return Failure("page could not be parsed");
      }
      ParsedPagesSnoc(pages, i, lineOrder);
      parsed := parsed + [page.value];
    }
    assert pages[..|pages|] == pages;
    return Success(parsed);
  }

  /** One more page parsed extends the parsed prefix by that page. */
  lemma ParsedPagesSnoc(pages: seq<PdfPage>, i: nat, lineOrder: seq<NormItem> -> seq<NormItem>)
    requires i < |pages|
    requires forall k :: 0 <= k <= i ==> PageParses(pages[k])
    ensures ParsedPages(pages[..i + 1], lineOrder) == ParsedPages(pages[..i], lineOrder) + [ParsePage(pages[i], i, lineOrder)]
  {
    var a, b := ParsedPages(pages[..i + 1], lineOrder), ParsedPages(pages[..i], lineOrder) + [ParsePage(pages[i], i, lineOrder)];
    forall k | 0 <= k <= i ensures a[k] == b[k] {
      assert pages[..i + 1][k] == pages[k];
      if k < i {
        assert pages[..i][k] == pages[k];
      }
    }
  }

  // ---------------------------------------------------------------------------
  // What a parsed page satisfies

  /** A parsed page carries its 0-based index and the viewport's size, and its
      links are the page's URL link annotations in order, each with a URL,
      that page index and a non-negative extent. */
  lemma ParsedPageHeader(p: PdfPage, k: nat, lineOrder: seq<NormItem> -> seq<NormItem>)
    requires PageParses(p)
    ensures var pp, vp := ParsePage(p, k, lineOrder), p.viewport(ParseScale);
      && pp.pageIndex == k && pp.width == vp.width && pp.height == vp.height
      && pp.links == PageLinks(vp, p.annotations.value, Some(k))
      && forall l :: l in pp.links ==> l.url != "" && l.pageIndex == Some(k as int) && l.width >= 0.0 && l.height >= 0.0
  {
    PageLinksWellFormed(p.viewport(ParseScale), p.annotations.value, Some(k));
  }

  /** The regions of a parsed page: every non-blank item lands in exactly one
      region, in y order; the regions are well formed and separated. */
  lemma ParsedPageRegions(vp: Viewport, content: seq<TextContentItem>, links: seq<LinkInfo>)
    requires AllTextItems(content)
    ensures var sorted := SortedItems(vp, content, links);
      && SortedByY(sorted)
      && multiset(sorted) == multiset(EmbeddedItems(PageItems(vp, content), links))
      && Flatten(Group(sorted)) == NonBlank(sorted)
      && AllWellFormed(Group(sorted)) && Separated(Group(sorted))
  {
    SortByYFacts(EmbeddedItems(PageItems(vp, content), links));
    GroupFacts(SortedItems(vp, content, links));
  }

  /** The blocks of a parsed page come top to bottom without overlapping;
      its text blocks are one per region, in order; its image blocks are
      non-empty gap bands holding their crops. */
  lemma ParsedPageBlocks(p: PdfPage, k: nat, lineOrder: seq<NormItem> -> seq<NormItem>)
    requires PageParses(p)
    ensures var vp := p.viewport(ParseScale);
      var regions := Group(SortedItems(vp, p.textContent.value, ExtractLinks(vp, p.annotations.value, k)));
      var blocks := ParsePage(p, k, lineOrder).blocks;
      && Ordered(blocks)
      && OnePerRegion(TextBlocks(blocks), regions, RegionHtmls(regions, lineOrder), |regions|)
      && forall b :: b in blocks ==> GapImage(p.render(ParseScale).value, vp.width, b)
  {
    var vp := p.viewport(ParseScale);
    var links := ExtractLinks(vp, p.annotations.value, k);
    var regions := Group(SortedItems(vp, p.textContent.value, links));
    var raster := p.render(ParseScale).value;
    GroupFacts(SortedItems(vp, p.textContent.value, links));
    PageBlocksOrdered(raster, vp.width, vp.height, regions, lineOrder);
    PageTextBlocks(raster, vp.width, vp.height, regions, lineOrder);
    PageImages(raster, vp.width, vp.height, regions, lineOrder);
  }
}

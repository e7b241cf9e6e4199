/** server/lib/processor.ts, processFile: a PDF becomes the blocks of its
    parsed pages, each image block with the page links that cross it; any
    other file is cut into strips. */
module Processor {
  import opened Common
  import opened Types
  import opened PdfJs
  import opened ParserText
  import opened ParserBlocks
  import opened StructureParser
  import opened ImageSlicer

  /** A ProcessedBlock: HTML text without links, or an image with its links,
      width and height. */
  datatype ProcessedBlock =
    | TextOut(content: string, links: seq<LinkInfo>)
    | ImageOut(buffer: Bytes, links: seq<LinkInfo>, width: real, height: real)

  const PdfMime: string := "application/pdf"
  /** The strip height used when the requested one is not positive. */
  const NoSlicing: int := 100000

  // ---------------------------------------------------------------------------
  // Links of an image block

  /** The link and the band [blockY, blockY + blockH) overlap: the end of
      their intersection lies strictly below its start. */
  predicate Overlaps(l: LinkInfo, blockY: real, blockH: real) {
    Min(l.y + l.height, blockY + blockH) > Max(l.y, blockY)
  }

  /** The link moved into the block's frame: only y changes. */
  function Shift(l: LinkInfo, blockY: real): LinkInfo {
    l.(y := l.y - blockY)
  }

  /** The links kept for a block, in page-link order, each shifted. */
  function BlockLinks(links: seq<LinkInfo>, blockY: real, blockH: real): seq<LinkInfo> {
    if links == [] then []
    else
      var last := links[|links| - 1];
      BlockLinks(links[..|links| - 1], blockY, blockH) + (if Overlaps(last, blockY, blockH) then [Shift(last, blockY)] else [])
  }

  /** The inner loop over the page links, pushing into `blockLinks`. */
  method LinksForBlock(links: seq<LinkInfo>, blockY: real, blockH: real) returns (blockLinks: seq<LinkInfo>)
    ensures blockLinks == BlockLinks(links, blockY, blockH)
  {
    blockLinks := [];
    for k := 0 to |links|
      invariant blockLinks == BlockLinks(links[..k], blockY, blockH)
    {
      assert links[..k + 1][..k] == links[..k];
      var link := links[k];
      var start := Max(link.y, blockY);
      var end := Min(link.y + link.height, blockY + blockH);
      if end > start {
        blockLinks := blockLinks + [Shift(link, blockY)];
      }
    }
    assert links[..|links|] == links;
  }

  /** Overlap without the min and max: both extents are positive and each
      starts strictly above the other's end. Links that merely touch the
      block, links of height 0 and blocks of height 0 never overlap. */
  lemma OverlapsIff(l: LinkInfo, blockY: real, blockH: real)
    ensures Overlaps(l, blockY, blockH) <==>
      && l.y < blockY + blockH && blockY < l.y + l.height
      && l.height > 0.0 && blockH > 0.0
  {
  }

  /** Every kept link is a page link that overlaps the block, shifted by
      blockY; every page link that overlaps the block is kept. */
  lemma {:induction false} BlockLinksSpec(links: seq<LinkInfo>, blockY: real, blockH: real)
    ensures forall o :: o in BlockLinks(links, blockY, blockH) <==>
      exists l :: l in links && Overlaps(l, blockY, blockH) && o == Shift(l, blockY)
  {
    if links != [] {
      var init := links[..|links| - 1];
      BlockLinksSpec(init, blockY, blockH);
      assert links == init + [links[|links| - 1]];
    }
  }

  /** In the block's frame every kept link crosses [0, blockH): it starts
      above the block's bottom and ends below its top. */
  lemma BlockLinksInFrame(links: seq<LinkInfo>, blockY: real, blockH: real)
    ensures forall o :: o in BlockLinks(links, blockY, blockH) ==> o.y < blockH && o.y + o.height > 0.0
  {
    BlockLinksSpec(links, blockY, blockH);
  }

  // ---------------------------------------------------------------------------
  // The PDF path

  /** A text block keeps its HTML and gets no links; an image block keeps its
      PNG, width and height and gets the page links that cross it. */
  function ProcessBlock(links: seq<LinkInfo>, b: ExtractedBlock): ProcessedBlock {
    match b
    case TextBlock(html, _, _, _) => TextOut(html, [])
    case ImageBlock(png, y, _, w, h) => ImageOut(png, BlockLinks(links, y, h), w, h)
  }

  /** The processed blocks of one page, in block order. */
  function PageOut(page: ParsedPage): (out: seq<ProcessedBlock>)
    ensures |out| == |page.blocks|
  {
    seq(|page.blocks|, j requires 0 <= j < |page.blocks| => ProcessBlock(page.links, page.blocks[j]))
  }

  /** The processed blocks of the first n pages: page order, then block order. */
  function PdfBlocks(pages: seq<ParsedPage>, n: nat): seq<ProcessedBlock>
    requires n <= |pages|
  {
    if n == 0 then [] else PdfBlocks(pages, n - 1) + PageOut(pages[n - 1])
  }

  /** The number of blocks on the first n pages. */
  function BlockCount(pages: seq<ParsedPage>, n: nat): nat
    requires n <= |pages|
  {
    if n == 0 then 0 else BlockCount(pages, n - 1) + |pages[n - 1].blocks|
  }

  lemma {:induction false} PdfBlocksLength(pages: seq<ParsedPage>, n: nat)
    requires n <= |pages|
    ensures |PdfBlocks(pages, n)| == BlockCount(pages, n)
  {
    if n > 0 {
      PdfBlocksLength(pages, n - 1);
    }
  }

  /** One processed block per page block, in page order then block order:
      block j of page i lands at position BlockCount(pages, i) + j, text
      blocks as text without links, image blocks with the links that cross them. */
  lemma {:induction false} PdfBlocksAt(pages: seq<ParsedPage>, n: nat, i: nat, j: nat)
    requires i < n <= |pages| && j < |pages[i].blocks|
    ensures BlockCount(pages, i) + j < |PdfBlocks(pages, n)|
    ensures PdfBlocks(pages, n)[BlockCount(pages, i) + j] == ProcessBlock(pages[i].links, pages[i].blocks[j])
  {
    PdfBlocksLength(pages, n - 1);
    if i < n - 1 {
      PdfBlocksAt(pages, n - 1, i, j);
    }
  }

  /** One turn of the loop over a page's blocks. */
  method ProcessBlockStep(links: seq<LinkInfo>, b: ExtractedBlock) returns (out: ProcessedBlock)
    ensures out == ProcessBlock(links, b)
  {
    match b
    case TextBlock(html, _, _, _) =>
      out := TextOut(html, []);
    case ImageBlock(png, y, _, w, h) =>
      var blockLinks := LinksForBlock(links, y, h);
      out := ImageOut(png, blockLinks, w, h);
  }

  /** The loop over a page's blocks. */
  method ProcessPage(page: ParsedPage) returns (out: seq<ProcessedBlock>)
    ensures out == PageOut(page)
  {
    out := [];
    for j := 0 to |page.blocks|
      invariant |out| == j
      invariant forall i :: 0 <= i < j ==> out[i] == ProcessBlock(page.links, page.blocks[i])
    {
      var b := ProcessBlockStep(page.links, page.blocks[j]);
      out := out + [b];
    }
  }

  /** The loop over the parsed pages, pushing into `finalBlocks`. */
  method ProcessPages(pages: seq<ParsedPage>) returns (finalBlocks: seq<ProcessedBlock>)
    ensures finalBlocks == PdfBlocks(pages, |pages|)
  {
    finalBlocks := [];
    for i := 0 to |pages|
      invariant finalBlocks == PdfBlocks(pages, i)
    {
      var out := ProcessPage(pages[i]);
      finalBlocks := finalBlocks + out;
    }
  }

  // ---------------------------------------------------------------------------
  // The image path

  /** `sliceHeight <= 0 ? 100000 : sliceHeight`: always positive, so the
      slicing loop advances. */
  function EffectiveSliceHeight(sliceHeight: int): (t: int)
    ensures t > 0
    ensures sliceHeight > 0 ==> t == sliceHeight
    ensures sliceHeight <= 0 ==> t == NoSlicing
  {
    if sliceHeight <= 0 then NoSlicing else sliceHeight
  }

  /** One image block per strip, in strip order. */
  method SlicesToBlocks(slices: seq<SliceInfo>) returns (out: seq<ProcessedBlock>)
    ensures |out| == |slices|
    ensures forall k :: 0 <= k < |slices| ==>
      out[k] == ImageOut(slices[k].buffer, slices[k].links, slices[k].width as real, slices[k].height as real)
  {
    out := [];
    for k := 0 to |slices|
      invariant |out| == k
      invariant forall j :: 0 <= j < k ==>
        out[j] == ImageOut(slices[j].buffer, slices[j].links, slices[j].width as real, slices[j].height as real)
    {
      var s := slices[k];
      out := out + [ImageOut(s.buffer, s.links, s.width as real, s.height as real)];
    }
  }

  /** The image block of strip k of an image resized to `rHeight` pixels high. */
  predicate IsStripBlock(img: Resized, t: int, k: nat, b: ProcessedBlock)
    requires t > 0
  {
    var h := SliceHeight(img.height, t, k);
    && img.extract(k * t, h).Some?
    && b == ImageOut(img.extract(k * t, h).value, [], SliceWidth as real, h as real)
  }

  // ---------------------------------------------------------------------------
  // processFile

  /** processFile. The PDF is given as the document parsePdf loads (`None`:
      it does not load); any other file as its resized image (`None`: sharp
      cannot read it) and whether sharp can read its metadata. Every failure
      is rethrown: no partial block list is returned. */
  method ProcessFile(mimeType: string, pdf: Option<seq<PdfPage>>, image: Option<Resized>, metadataOk: bool,
                     sliceHeight: int, lineOrder: seq<NormItem> -> seq<NormItem>)
    returns (r: Result<seq<ProcessedBlock>>)
    ensures mimeType == PdfMime ==>
      (r.Success? <==> pdf.Some? && forall k :: 0 <= k < |pdf.value| ==> PageParses(pdf.value[k]))
    ensures mimeType == PdfMime && r.Success? ==>
      var pages := ParsedPages(pdf.value, lineOrder);
      r.value == PdfBlocks(pages, |pages|)
    ensures mimeType != PdfMime ==>
      (r.Success? <==> metadataOk && image.Some? && AllExtract(image.value, EffectiveSliceHeight(sliceHeight)))
    ensures mimeType != PdfMime && r.Success? ==>
      var t := EffectiveSliceHeight(sliceHeight);
      && |r.value| == SliceCount(image.value.height, t)
      && forall k :: 0 <= k < |r.value| ==> IsStripBlock(image.value, t, k, r.value[k])
  {
    if mimeType == PdfMime {
      var parsed := ParsePdf(pdf, lineOrder);
      if parsed.Failure? {
        return Failure(parsed.error);
      }
      var blocks := ProcessPages(parsed.value);
      return Success(blocks);
    }
    var t := EffectiveSliceHeight(sliceHeight);
    if !metadataOk {
      return Failure("Input buffer contains unsupported image format");
    }
    var slices := SliceImage(image, t);
    if slices.Failure? {
      return Failure(slices.error);
    }
    var blocks := SlicesToBlocks(slices.value);
    if image.value.height == 0 {
      assert SliceCount(0, t) == 0;
    }
    return Success(blocks);
  }
}

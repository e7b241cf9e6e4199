/** server/lib/pdf-structure-parser.ts, step 5 of parsePdf: the blank-band test
    over sampled pixels, and the emission of image blocks for the gaps between
    text regions and of one text block per region. */
module ParserBlocks {
  import opened Common
  import opened PdfJs
  import opened ParserText
  import opened ParserRegions
  import opened ParserLines

  /** An ExtractedBlock. A text block carries its HTML and has no width; an
      image block carries the PNG of its band and the viewport width. */
  datatype ExtractedBlock =
    | TextBlock(html: string, y: real, x: real, height: real)
    | ImageBlock(png: Bytes, y: real, x: real, width: real, height: real)

  /** Bands no taller than this are never images. */
  const MinGap: real := 5.0
  /** Every 10th pixel is sampled: 4 bytes per RGBA pixel. */
  const SampleStep: nat := 40
  /** A channel at or above this is "almost white". */
  const NearWhite: int := 250

  // ---------------------------------------------------------------------------
  // isRegionEmpty

  /** The pixel starting at byte k is visible (its alpha byte exists and is
      positive) and not almost white. A missing byte compares false, as
      `undefined` does in JavaScript. */
  predicate InkAt(data: Bytes, k: int) {
    && 0 <= k && k + 3 < |data|
    && data[k + 3] > 0
    && (data[k] < NearWhite || data[k + 1] < NearWhite || data[k + 2] < NearWhite)
  }

  /** None of the sampled pixels from byte k on (every 10th pixel) shows ink. */
  predicate NoInkFrom(data: Bytes, k: nat)
    decreases |data| - k
  {
    k >= |data| || (!InkAt(data, k) && NoInkFrom(data, k + SampleStep))
  }

  /** No sampled pixel, in the scan from the first byte, shows ink. */
  predicate NoInk(data: Bytes) {
    NoInkFrom(data, 0)
  }

  /** The scan from a sampled position k sees no ink exactly when no sampled
      position from k on shows ink. */
  lemma {:induction false} NoInkFromIff(data: Bytes, k: nat)
    requires k % SampleStep == 0
    ensures NoInkFrom(data, k) <==>
      forall j :: k <= j < |data| && j % SampleStep == 0 ==> !InkAt(data, j)
    decreases |data| - k
  {
    if k < |data| {
      NoInkFromIff(data, k + SampleStep);
      forall j | k < j < k + SampleStep ensures j % SampleStep != 0 {
        assert 0 < j - k < SampleStep;
      }
    }
  }

  /** isRegionEmpty finds no ink exactly when no sampled pixel (every 10th,
      4 bytes each) is visible and not almost white. */
  lemma NoInkIff(data: Bytes)
    ensures NoInk(data) <==> forall j :: 0 <= j < |data| && j % SampleStep == 0 ==> !InkAt(data, j)
  {
    NoInkFromIff(data, 0);
  }

  /** The band [y, y + h) of the page, w wide, shows nothing: it is too thin, has
      no width, cannot be read, or none of its sampled pixels shows ink. */
  predicate BandEmpty(raster: Raster, y: real, h: real, w: real) {
    || h <= MinGap || w <= 0.0
    || raster.imageData(y, w, h).None?
    || NoInk(raster.imageData(y, w, h).value)
  }

  /** The strided scan of isRegionEmpty, with its early exit. */
  method IsRegionEmpty(raster: Raster, y: real, h: real, w: real) returns (empty: bool)
    ensures empty <==> BandEmpty(raster, y, h, w)
  {
    if h <= MinGap || w <= 0.0 {
      return true;
    }
    var imgData := raster.imageData(y, w, h);
    if imgData.None? {
      return true;
    }
    var data := imgData.value;
    var k := 0;
    while k < |data|
      invariant NoInkFrom(data, k) == NoInk(data)
      decreases |data| - k
    {
      if k + 3 < |data| && data[k + 3] > 0 {
        if data[k] < NearWhite || data[k + 1] < NearWhite || data[k + 2] < NearWhite {
          assert InkAt(data, k);
          return false;
        }
      }
      k := k + SampleStep;
    }
    return true;
  }

  /** The pixel at byte k is fully transparent, or all three colour channels are almost white. */
  predicate BlankPixel(data: Bytes, k: int) {
    0 <= k && k + 3 < |data| &&
    ((data[k] >= NearWhite && data[k + 1] >= NearWhite && data[k + 2] >= NearWhite) || data[k + 3] == 0)
  }

  /** A band whose every pixel is transparent or almost white is empty. */
  lemma BlankBandEmpty(raster: Raster, y: real, h: real, w: real)
    requires raster.imageData(y, w, h).Some?
    requires var data := raster.imageData(y, w, h).value;
      forall k :: 0 <= k < |data| - 3 && k % 4 == 0 ==> BlankPixel(data, k)
    ensures BandEmpty(raster, y, h, w)
  {
    var data := raster.imageData(y, w, h).value;
    NoInkIff(data);
    forall k | 0 <= k < |data| && k % SampleStep == 0 ensures !InkAt(data, k) {
      SampledIsPixelStart(k);
      if k < |data| - 3 {
        assert BlankPixel(data, k);
      }
    }
  }

  lemma SampledIsPixelStart(k: nat)
    requires k % SampleStep == 0
    ensures k % 4 == 0
  {
    var q := k / SampleStep;
    assert k == 4 * (10 * q);
  }

  // ---------------------------------------------------------------------------
  // Block emission

  /** The image block for the band [y, y + h), if there is one: the band must
      be taller than 5, not empty, and its crop must succeed (a crop that
      throws only loses this block). */
  function GapBlocks(raster: Raster, w: real, y: real, h: real): seq<ExtractedBlock> {
    if h > MinGap && !BandEmpty(raster, y, h, w) && raster.crop(y, h).Some? then
      [ImageBlock(raster.crop(y, h).value, y, 0.0, w, h)]
    else []
  }

  /** The text block of a region with the given HTML, from the region's top
      down to its lowest bottom. */
  function RegionBlock(r: Region, html: string): ExtractedBlock {
    TextBlock(html, r.min, 0.0, r.max - r.min)
  }

  /** `lastY` after the first n regions: 0 before any, else where region n - 1 ends. */
  function LastY(rs: seq<Region>, n: nat): real
    requires n <= |rs|
  {
    if n == 0 then 0.0 else rs[n - 1].max
  }

  /** The HTML of each region: its lines as paragraphs, the items joined in the
      order `lineOrder` puts them in. */
  function RegionHtmls(rs: seq<Region>, lineOrder: seq<NormItem> -> seq<NormItem>): (hs: seq<string>)
    ensures |hs| == |rs|
  {
    seq(|rs|, i requires 0 <= i < |rs| => RegionHtml(lineOrder(rs[i].items)))
  }

  /** The image blocks of the gap above each region, from where the previous
      region ends (0 for the first) down to the region's top. */
  function RegionGaps(raster: Raster, w: real, rs: seq<Region>): (gs: seq<seq<ExtractedBlock>>)
    ensures |gs| == |rs|
  {
    seq(|rs|, i requires 0 <= i < |rs| => GapBlocks(raster, w, LastY(rs, i), rs[i].min - LastY(rs, i)))
  }

  /** The blocks of the first n regions, given each region's HTML `hs` and the
      blocks `gs` of the gap above it: for each region, its gap, then its text block. */
  function BlocksUpTo(rs: seq<Region>, hs: seq<string>, gs: seq<seq<ExtractedBlock>>, n: nat): seq<ExtractedBlock>
    requires |hs| == |rs| && |gs| == |rs| && n <= |rs|
  {
    if n == 0 then [] else BlocksUpTo(rs, hs, gs, n - 1) + gs[n - 1] + [RegionBlock(rs[n - 1], hs[n - 1])]
  }

  /** The final gap, from where the last region ends down to the page height h. */
  function FinalGap(raster: Raster, w: real, h: real, rs: seq<Region>): seq<ExtractedBlock> {
    GapBlocks(raster, w, LastY(rs, |rs|), h - LastY(rs, |rs|))
  }

  /** The blocks of all the regions. */
  function RegionsBlocks(raster: Raster, w: real, rs: seq<Region>, lineOrder: seq<NormItem> -> seq<NormItem>): seq<ExtractedBlock> {
    BlocksUpTo(rs, RegionHtmls(rs, lineOrder), RegionGaps(raster, w, rs), |rs|)
  }

  /** All the blocks of a page w wide and h high: the regions' blocks, then the final gap. */
  function PageBlocks(raster: Raster, w: real, h: real, rs: seq<Region>, lineOrder: seq<NormItem> -> seq<NormItem>): seq<ExtractedBlock> {
    RegionsBlocks(raster, w, rs, lineOrder) + FinalGap(raster, w, h, rs)
  }

  /** The gap step, written out twice in parsePdf (for the gap above each
      region and for the final gap): test the band, then crop it; a crop that
      throws is caught and yields no block. */
  method EmitGap(raster: Raster, w: real, y: real, h: real) returns (gap: seq<ExtractedBlock>)
    ensures gap == GapBlocks(raster, w, y, h)
  {
    gap := [];
    if h > MinGap {
      var empty := IsRegionEmpty(raster, y, h, w);
      if !empty {
        var crop := raster.crop(y, h);
        if crop.Some? {
          gap := [ImageBlock(crop.value, y, 0.0, w, h)];
        }
      }
    }
  }

  lemma RegionGapAt(raster: Raster, w: real, rs: seq<Region>, i: nat)
    requires i < |rs|
    ensures RegionGaps(raster, w, rs)[i] == GapBlocks(raster, w, LastY(rs, i), rs[i].min - LastY(rs, i))
  {
  }

  lemma RegionHtmlAt(rs: seq<Region>, lineOrder: seq<NormItem> -> seq<NormItem>, i: nat)
    requires i < |rs|
    ensures RegionHtmls(rs, lineOrder)[i] == RegionHtml(lineOrder(rs[i].items))
  {
  }

  /** One turn of the emission loop: the gap above region i, from where the
      previous region ends, and the region's text block. */
  method EmitRegion(raster: Raster, w: real, region: Region, lastY: real, lineOrder: seq<NormItem> -> seq<NormItem>)
    returns (gap: seq<ExtractedBlock>, text: ExtractedBlock)
    ensures gap == GapBlocks(raster, w, lastY, region.min - lastY)
    ensures text == RegionBlock(region, RegionHtml(lineOrder(region.items)))
  {
    gap := EmitGap(raster, w, lastY, region.min - lastY);
    var html := JoinLines(lineOrder(region.items));
    text := RegionBlock(region, html);
  }

  /** The emission loop of parsePdf over the regions, with `lastY` and `blocks`. */
  method EmitRegions(raster: Raster, w: real, regions: seq<Region>, lineOrder: seq<NormItem> -> seq<NormItem>)
    returns (blocks: seq<ExtractedBlock>, lastY: real)
    ensures blocks == RegionsBlocks(raster, w, regions, lineOrder)
    ensures lastY == LastY(regions, |regions|)
  {
    ghost var hs := RegionHtmls(regions, lineOrder);
    ghost var gs := RegionGaps(raster, w, regions);
    blocks := [];
    lastY := 0.0;
    for i := 0 to |regions|
      invariant lastY == LastY(regions, i)
      invariant blocks == BlocksUpTo(regions, hs, gs, i)
    {
      var gap, text := EmitRegion(raster, w, regions[i], lastY, lineOrder);
      RegionGapAt(raster, w, regions, i);
      RegionHtmlAt(regions, lineOrder, i);
      blocks := blocks + gap + [text];
      lastY := regions[i].max;
    }
  }

  /** Step 5 of parsePdf: the regions' blocks, then the final gap down to the page height h. */
  method EmitBlocks(raster: Raster, w: real, h: real, regions: seq<Region>, lineOrder: seq<NormItem> -> seq<NormItem>)
    returns (blocks: seq<ExtractedBlock>)
    ensures blocks == RegionsBlocks(raster, w, regions, lineOrder) + FinalGap(raster, w, h, regions)
  {
    var regionBlocks, lastY := EmitRegions(raster, w, regions, lineOrder);
    var gap := EmitGap(raster, w, lastY, h - lastY);
    blocks := regionBlocks + gap;
  }

  // ---------------------------------------------------------------------------
  // What the emitted blocks satisfy

  /** The text blocks, in order. */
  function TextBlocks(bs: seq<ExtractedBlock>): seq<ExtractedBlock> {
    if bs == [] then []
    else (if bs[0].TextBlock? then [bs[0]] else []) + TextBlocks(bs[1..])
  }

  lemma {:induction false} TextBlocksAppend(a: seq<ExtractedBlock>, b: seq<ExtractedBlock>)
    ensures TextBlocks(a + b) == TextBlocks(a) + TextBlocks(b)
    decreases |a|
  {
    if a == [] {
      assert a + b == b;
    } else {
      TextBlocksAppend(a[1..], b);
      assert (a + b)[1..] == a[1..] + b;
    }
  }

  /** A gap's blocks: none, or one image block over the band [y, y + h). */
  predicate GapFits(g: seq<ExtractedBlock>, y: real, h: real) {
    g == [] || (|g| == 1 && g[0].ImageBlock? && g[0].y == y && g[0].height == h)
  }

  /** The gap above each region fits the band from the previous region's end to the region's top. */
  predicate GapsFit(rs: seq<Region>, gs: seq<seq<ExtractedBlock>>)
    requires |gs| == |rs|
  {
    forall i :: 0 <= i < |rs| ==> GapFitsAt(rs, gs, i)
  }

  predicate GapFitsAt(rs: seq<Region>, gs: seq<seq<ExtractedBlock>>, i: nat)
    requires |gs| == |rs| && i < |rs|
  {
    GapFits(gs[i], LastY(rs, i), rs[i].min - LastY(rs, i))
  }

  lemma GapBlocksFit(raster: Raster, w: real, rs: seq<Region>)
    ensures GapsFit(rs, RegionGaps(raster, w, rs))
  {
    var gs := RegionGaps(raster, w, rs);
    forall i | 0 <= i < |rs| ensures GapFitsAt(rs, gs, i) {
      RegionGapAt(raster, w, rs, i);
    }
  }

  lemma NoTextInGap(g: seq<ExtractedBlock>, y: real, h: real)
    requires GapFits(g, y, h)
    ensures TextBlocks(g) == []
  {
    if g != [] {
      assert g[1..] == [];
    }
  }

  /** `ts` are the text blocks of the first n regions, one per region, in order. */
  predicate OnePerRegion(ts: seq<ExtractedBlock>, rs: seq<Region>, hs: seq<string>, n: nat)
    requires |hs| == |rs| && n <= |rs|
  {
    |ts| == n && forall i :: 0 <= i < n ==> ts[i] == RegionBlock(rs[i], hs[i])
  }

  /** One more region adds exactly its text block to the text blocks. */
  lemma TextBlocksStep(rs: seq<Region>, hs: seq<string>, gs: seq<seq<ExtractedBlock>>, n: nat)
    requires |hs| == |rs| && |gs| == |rs| && 0 < n <= |rs|
    requires GapFits(gs[n - 1], LastY(rs, n - 1), rs[n - 1].min - LastY(rs, n - 1))
    ensures TextBlocks(BlocksUpTo(rs, hs, gs, n)) == TextBlocks(BlocksUpTo(rs, hs, gs, n - 1)) + [RegionBlock(rs[n - 1], hs[n - 1])]
  {
    var pb := BlocksUpTo(rs, hs, gs, n - 1);
    var g := gs[n - 1];
    var t := RegionBlock(rs[n - 1], hs[n - 1]);
    TextBlocksAppend(pb + g, [t]);
    TextBlocksAppend(pb, g);
    NoTextInGap(g, LastY(rs, n - 1), rs[n - 1].min - LastY(rs, n - 1));
    assert TextBlocks([t]) == [t] by {
      assert [t][1..] == [];
    }
  }

  lemma {:induction false} TextBlocksMatchRegions(rs: seq<Region>, hs: seq<string>, gs: seq<seq<ExtractedBlock>>, n: nat)
    requires |hs| == |rs| && |gs| == |rs| && n <= |rs| && GapsFit(rs, gs)
    ensures OnePerRegion(TextBlocks(BlocksUpTo(rs, hs, gs, n)), rs, hs, n)
  {
    if n > 0 {
      TextBlocksMatchRegions(rs, hs, gs, n - 1);
      assert GapFitsAt(rs, gs, n - 1);
      TextBlocksStep(rs, hs, gs, n);
      var pt := TextBlocks(BlocksUpTo(rs, hs, gs, n - 1));
      var ts := TextBlocks(BlocksUpTo(rs, hs, gs, n));
      forall i | 0 <= i < n ensures ts[i] == RegionBlock(rs[i], hs[i]) {
        if i < n - 1 {
          assert ts[i] == pt[i];
        }
      }
    }
  }

  /** The page's text blocks are exactly one per region, in region order: the
      i-th has y = region.min, height = region.max - region.min, and the
      region's lines as paragraphs. The gaps add no text. */
  lemma PageTextBlocks(raster: Raster, w: real, h: real, rs: seq<Region>, lineOrder: seq<NormItem> -> seq<NormItem>)
    ensures OnePerRegion(TextBlocks(PageBlocks(raster, w, h, rs, lineOrder)), rs, RegionHtmls(rs, lineOrder), |rs|)
  {
    var hs := RegionHtmls(rs, lineOrder);
    var gs := RegionGaps(raster, w, rs);
    GapBlocksFit(raster, w, rs);
    TextBlocksMatchRegions(rs, hs, gs, |rs|);
    TextBlocksAppend(RegionsBlocks(raster, w, rs, lineOrder), FinalGap(raster, w, h, rs));
    NoTextInGap(FinalGap(raster, w, h, rs), LastY(rs, |rs|), h - LastY(rs, |rs|));
  }

  /** An image block of the page: taller than 5, at x = 0, as wide as the page,
      over a band that is not empty, holding that band's crop. */
  predicate GapImage(raster: Raster, w: real, b: ExtractedBlock) {
    b.ImageBlock? ==>
      && b.height > MinGap && b.x == 0.0 && b.width == w
      && !BandEmpty(raster, b.y, b.height, w)
      && raster.crop(b.y, b.height) == Some(b.png)
  }

  lemma GapBlocksImage(raster: Raster, w: real, y: real, h: real)
    ensures forall b :: b in GapBlocks(raster, w, y, h) ==> GapImage(raster, w, b)
  {
  }

  lemma {:induction false} RegionImages(raster: Raster, w: real, rs: seq<Region>, hs: seq<string>, gs: seq<seq<ExtractedBlock>>, n: nat)
    requires |hs| == |rs| && |gs| == |rs| && n <= |rs|
    requires forall i, b :: 0 <= i < |gs| && b in gs[i] ==> GapImage(raster, w, b)
    ensures forall b :: b in BlocksUpTo(rs, hs, gs, n) ==> GapImage(raster, w, b)
  {
    if n > 0 {
      RegionImages(raster, w, rs, hs, gs, n - 1);
    }
  }

  /** Every image block of the page is a gap band taller than 5 that is not
      empty, at x = 0 and as wide as the page, holding that band's crop. */
  lemma PageImages(raster: Raster, w: real, h: real, rs: seq<Region>, lineOrder: seq<NormItem> -> seq<NormItem>)
    ensures forall b :: b in PageBlocks(raster, w, h, rs, lineOrder) ==> GapImage(raster, w, b)
  {
    RegionsBlocksImages(raster, w, rs, lineOrder);
    GapBlocksImage(raster, w, LastY(rs, |rs|), h - LastY(rs, |rs|));
    ImagesConcat(raster, w, RegionsBlocks(raster, w, rs, lineOrder), FinalGap(raster, w, h, rs));
  }

  lemma RegionsBlocksImages(raster: Raster, w: real, rs: seq<Region>, lineOrder: seq<NormItem> -> seq<NormItem>)
    ensures forall b :: b in RegionsBlocks(raster, w, rs, lineOrder) ==> GapImage(raster, w, b)
  {
    RegionGapsImages(raster, w, rs);
    RegionImages(raster, w, rs, RegionHtmls(rs, lineOrder), RegionGaps(raster, w, rs), |rs|);
  }

  lemma RegionGapsImages(raster: Raster, w: real, rs: seq<Region>)
    ensures var gs := RegionGaps(raster, w, rs);
      forall i, b :: 0 <= i < |gs| && b in gs[i] ==> GapImage(raster, w, b)
  {
    var gs := RegionGaps(raster, w, rs);
    forall i, b | 0 <= i < |gs| && b in gs[i] ensures GapImage(raster, w, b) {
      RegionGapAt(raster, w, rs, i);
      GapBlocksImage(raster, w, LastY(rs, i), rs[i].min - LastY(rs, i));
    }
  }

  lemma ImagesConcat(raster: Raster, w: real, a: seq<ExtractedBlock>, b: seq<ExtractedBlock>)
    requires forall x :: x in a ==> GapImage(raster, w, x)
    requires forall x :: x in b ==> GapImage(raster, w, x)
    ensures forall x :: x in a + b ==> GapImage(raster, w, x)
  {
  }

  /** Each block ends no lower than the next one starts. */
  predicate Ordered(bs: seq<ExtractedBlock>) {
    forall i :: 0 <= i < |bs| - 1 ==> bs[i].y + bs[i].height <= bs[i + 1].y
  }

  lemma OrderedAppend(a: seq<ExtractedBlock>, b: seq<ExtractedBlock>)
    requires Ordered(a) && Ordered(b)
    requires a != [] && b != [] ==> a[|a| - 1].y + a[|a| - 1].height <= b[0].y
    ensures Ordered(a + b)
  {
    var c := a + b;
    forall i | 0 <= i < |c| - 1 ensures c[i].y + c[i].height <= c[i + 1].y {
      if i < |a| - 1 {
        assert c[i] == a[i] && c[i + 1] == a[i + 1];
      } else if i >= |a| {
        assert c[i] == b[i - |a|] && c[i + 1] == b[i - |a| + 1];
      }
    }
  }

  /** The last block ends at y. */
  predicate EndsAt(bs: seq<ExtractedBlock>, y: real) {
    bs != [] && bs[|bs| - 1].y + bs[|bs| - 1].height == y
  }

  /** Over separated regions the blocks do not overlap and come top to bottom,
      and the last one ends where the last region ends. */
  lemma {:induction false} RegionBlocksOrdered(rs: seq<Region>, hs: seq<string>, gs: seq<seq<ExtractedBlock>>, n: nat)
    requires |hs| == |rs| && |gs| == |rs| && n <= |rs| && Separated(rs) && GapsFit(rs, gs)
    ensures Ordered(BlocksUpTo(rs, hs, gs, n))
    ensures n > 0 ==> EndsAt(BlocksUpTo(rs, hs, gs, n), LastY(rs, n))
  {
    if n > 0 {
      RegionBlocksOrdered(rs, hs, gs, n - 1);
      var pb := BlocksUpTo(rs, hs, gs, n - 1);
      var g := gs[n - 1];
      var t := [RegionBlock(rs[n - 1], hs[n - 1])];
      assert GapFitsAt(rs, gs, n - 1);
      if n > 1 {
        assert rs[n - 1].min >= rs[n - 2].max + JoinDistance;
      }
      OrderedAppend(pb, g);
      OrderedAppend(pb + g, t);
    }
  }

  /** Over separated regions the page's blocks do not overlap and come out top
      to bottom: each ends no lower than the next starts, a gap's image above
      each region's text, the final gap last. */
  lemma PageBlocksOrdered(raster: Raster, w: real, h: real, rs: seq<Region>, lineOrder: seq<NormItem> -> seq<NormItem>)
    requires Separated(rs)
    ensures Ordered(PageBlocks(raster, w, h, rs, lineOrder))
  {
    var hs := RegionHtmls(rs, lineOrder);
    var gs := RegionGaps(raster, w, rs);
    GapBlocksFit(raster, w, rs);
    RegionBlocksOrdered(rs, hs, gs, |rs|);
    OrderedAppend(RegionsBlocks(raster, w, rs, lineOrder), FinalGap(raster, w, h, rs));
  }
}

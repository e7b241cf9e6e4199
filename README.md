# newsletter-generator, modelled in Dafny

newsletter-generator turns PDFs and images into e-mail newsletters. A user
uploads a file. The server cuts it into image and text blocks. The user
arranges the blocks in an editor with undo and redo, then exports one HTML
document.

This project models the logic at the core of that pipeline and proves
properties of it:

- **Server ingestion.**
  - `convertPdfToImages`: pages and their link annotations.
  - `parsePdf`: link extraction, embedding links in text items, grouping text
    into regions, the blank-band test, gap and text block emission, and line
    joining.
  - `sliceImage`: tiling an image into strips.
  - `processFile`: link clipping per block, and the slice-height default.
  - The server's `generateHtml`.
- **Client HTML.**
  - The helpers `escapeHtml`, `isValidUrl`, `isValidFilename` and `isValidId`.
  - The client's `generateHtml`: overlays, image maps and the Outlook-hidden
    text layer.
- **Client PDF import.**
  - The text-layer builder and the page loop of `processPdfFile`.
- **Client editing.**
  - The editor store's history.
  - The block-list actions.
  - The hooks for saving newsletters, exporting, the session draft, keyboard
    shortcuts and the resizable split.

One Dafny module stands for each source file. The larger files are split
into several modules:

| source file | modules |
|---|---|
| server/lib/pdf-structure-parser.ts | `ParserText`, `ParserRegions`, `ParserLines`, `ParserBlocks`, `StructureParser` |
| src/utils/index.ts | `HtmlUtils` |
| server/lib/html-generator.ts | `ServerHtml` |
| src/utils/htmlGenerator.ts | `ClientHtml` |
| src/services/pdf-client-processor.ts | `PdfClient` |
| src/stores/editorStore.ts | `EditorStore`, with the list edits it shares with the block list in `BlockEdits` |
| src/components/Editor/BlockList.tsx | `BlockList` |
| src/hooks/useNewsletterManager.ts | `NewsletterManager` |
| src/hooks/useExport.ts | `Export` |
| src/hooks/useAutoSave.ts | `AutoSave` |
| src/hooks/useKeyboardShortcuts.ts | `Keyboard` |
| src/hooks/useResizable.ts | `Resizable` |

Supporting modules:

- `Common`: options, results, JavaScript trimming, `Math.round`, `indexOf`,
  `replace`, `join`.
- `Numbers`: decimal rendering of integers.
- `Types`: the block and link records of src/types.ts.
- `Geometry`: viewports and annotation rectangles.
- `Pdfjs`: the pdf.js page abstraction.

How the model is written:

- **Loops become methods.** Where the source loops over mutable state, the
  model is a `method` with a loop. Examples are the page loops, the grouping,
  emission and line loops, the strided pixel scan, the slicing loop, the
  link-clipping loops and the title-uniqueness loop. Each is proved equal to
  a specification function, and the properties are lemmas about that
  function.
- **Stores with fields become classes.** `EditorStore.Store` and
  `Resizable.Resizer` have `modifies` clauses on their methods.
- **Expression code becomes functions.**
- **Browser and library effects become parameters**, usually a function
  parameter or an `Option` result where `None` means the call throws. They
  include:
  - pdf.js, sharp and canvas;
  - `fetch` answers;
  - `window.prompt`, `window.confirm` and the save dialog;
  - `JSON.parse` and `JSON.stringify`;
  - `Date.now`;
  - DOM `textContent`;
  - uuid;
  - number formatting: the parameters `number` for `${x}` and `fixed` for
    `toFixed(2)`.
- **Coordinates are reals**, and `Math.round` is modelled exactly as
  `floor(x + 1/2)`.
- **HTML templates** are written as a fixed text per fragment, so each
  generated document is the concatenation its template spells out.

## Model

| member | source | states |
|---|---|---|
| PdfConverter.ConvertPdfToImages | server/lib/pdf-converter.ts:16-96 | Succeeds iff the document loads and every page renders and lists its annotations. Then exactly one image and one link list per page, in page order, and entry k holds page k's PNG and page k's links. |
| PdfConverter.ConvertedLinksOfPage | server/lib/pdf-converter.ts:83-90 | Every link listed for page k carries pageIndex k (i − 1 for the 1-based i), a non-empty URL, and non-negative width and height. |
| Geometry.NormalizeCorners | server/lib/pdf-converter.ts:78-90 | The normalised link keeps the URL and page index. Its corner is (min x, min y), its extent is non-negative, and corner plus extent is (max x, max y). |
| Geometry.NormalizeCornersSymmetric | server/lib/pdf-converter.ts:78-81 | Swapping the rectangle's two corners gives the same link. |
| Geometry.UrlLinks | server/lib/pdf-converter.ts:56 | The filter keeps only annotations of subtype 'Link' with a non-empty URL, each one drawn from the input. |
| Geometry.UrlLinksAppend | server/lib/pdf-converter.ts:56 | The filter distributes over concatenation, so the kept annotations come in input order. |
| Geometry.UrlLinksComplete | server/lib/pdf-converter.ts:56 | The filter drops no 'Link' annotation that has a URL. |
| Geometry.PageLinks | server/lib/pdf-converter.ts:55-91 | One link per URL link annotation, in order: its rectangle mapped through the viewport and normalised, tagged with the given page index. |
| Geometry.PageLinksWellFormed | server/lib/pdf-converter.ts:55-91 | Every page link has a non-empty URL, the page index it was given, and a non-negative extent. |
| ParserText.ExtractLinks | server/lib/pdf-structure-parser.ts:95-111 | The parser's link list is the converter's page-link list for page index i − 1. |
| ParserText.ExtractedLinkNormalized | server/lib/pdf-structure-parser.ts:99-111 | The parser's min/abs form of a link equals the min/max normalisation. |
| ParserText.NormalizeItem | server/lib/pdf-structure-parser.ts:119-134 | A text item keeps its string. Its x and bottom are the viewport image of its baseline origin, and its top is one scaled font size above the bottom. Width and height are scaled by the viewport scale. |
| ParserText.FindLink | server/lib/pdf-structure-parser.ts:140-143 | `links.find`: the first link whose rectangle contains the point, edges included; None iff no link contains it. |
| ParserText.EscapeTextPerChar | server/lib/pdf-structure-parser.ts:146-149 | The three chained replacements, '&' first, escape each character independently and leave '"' as it is. |
| ParserText.EscapeTextFacts | server/lib/pdf-structure-parser.ts:146-149 | Escaped link text has no '<' or '>' and decodes back to the original. |
| ParserText.EmbedFacts | server/lib/pdf-structure-parser.ts:137-151 | Embedding changes only the text. The text changes iff some link contains the item's centre, and it then becomes an anchor to the first such link around the escaped text. |
| ParserText.EmbedLinks | server/lib/pdf-structure-parser.ts:137-152 | The embedding loop rewrites each item exactly as the per-item rule says, keeping count and order. |
| ParserText.StripAnchor | server/lib/pdf-structure-parser.ts:150-164 | Stripping tags from an embedded anchor gives back the escaped text, provided the URL holds no '>'. |
| ParserText.LinkedItemBlank | server/lib/pdf-structure-parser.ts:164-165 | A linked item is skipped as blank iff its original text is all whitespace. |
| ParserText.StripTagsPlain | server/lib/pdf-structure-parser.ts:164 | Tag stripping leaves text without '<' untouched. |
| ParserText.StripTagAt | server/lib/pdf-structure-parser.ts:164 | A tag from '<' to the first '>' is removed whole. |
| ParserText.SortByYFacts | server/lib/pdf-structure-parser.ts:156 | The sort by y returns the items ordered by y, as a permutation of its input. |
| ParserText.InsertByYFacts | server/lib/pdf-structure-parser.ts:156 | Inserting into a y-sorted list keeps it sorted and adds exactly that item. |
| ParserRegions.GroupItem | server/lib/pdf-structure-parser.ts:164-185 | One turn of the grouping loop on `textRegions` and `currentRegion`. The pending regions after it are the grouping step applied to the pending regions before it. |
| ParserRegions.GroupRegions | server/lib/pdf-structure-parser.ts:159-187 | The loop, with the last region pushed, returns the regions of the specification `Group`. |
| ParserRegions.GroupFacts | server/lib/pdf-structure-parser.ts:163-187 | Every non-blank item lands in exactly one region, in input order, and no blank item does. Each region is well formed: min is its first top, max is the running maximum of bottoms, and every later item's top is above max + 10. Each region starts at least 10 below the previous one's max. |
| ParserRegions.GroupStepFacts | server/lib/pdf-structure-parser.ts:164-185 | One step adds the item to the flattened regions unless it is blank, and keeps the regions well formed and separated. |
| ParserRegions.PendingJoin | server/lib/pdf-structure-parser.ts:168-170 | An item with y < max + 10 joins the current region. |
| ParserRegions.PendingStart | server/lib/pdf-structure-parser.ts:171-177 | An item with y ≥ max + 10, including exactly max + 10, closes the region and opens a new one. |
| ParserRegions.StartRegion | server/lib/pdf-structure-parser.ts:171-184 | Opening a region at an item far enough below keeps the regions well formed and separated. |
| ParserRegions.ExtendWellFormed | server/lib/pdf-structure-parser.ts:168-170 | Taking in a joining item keeps a region well formed. |
| ParserRegions.JoinWellFormed | server/lib/pdf-structure-parser.ts:168-170 | Growing the last region by a joining item keeps all regions well formed. |
| ParserRegions.JoinSeparated | server/lib/pdf-structure-parser.ts:168-170 | Growing the last region keeps the regions separated. |
| ParserRegions.JoinFlatten | server/lib/pdf-structure-parser.ts:170 | Growing the last region appends the item to the flattened regions. |
| ParserRegions.MaxBottomBound | server/lib/pdf-structure-parser.ts:169 | The running maximum is at least every item's bottom. |
| ParserRegions.RegionMinBelowMax | server/lib/pdf-structure-parser.ts:169-184 | A region whose first item has non-negative height ends no higher than it starts. |
| ParserBlocks.IsRegionEmpty | server/lib/pdf-structure-parser.ts:195-216 | Returns true iff h ≤ 5, or w ≤ 0, or getImageData throws, or no sampled pixel (every 10th pixel, 4 bytes each) has alpha > 0 and some channel below 250. |
| ParserBlocks.NoInkIff | server/lib/pdf-structure-parser.ts:203-210 | The strided scan finds no ink iff no byte offset that is a multiple of 40 starts a visible, not-almost-white pixel. |
| ParserBlocks.NoInkFromIff | server/lib/pdf-structure-parser.ts:203-210 | The same, for the scan from any sampled offset. |
| ParserBlocks.BlankBandEmpty | server/lib/pdf-structure-parser.ts:195-216 | A readable band whose pixels are all transparent or almost white is empty. |
| ParserBlocks.SampledIsPixelStart | server/lib/pdf-structure-parser.ts:203 | Every sampled offset is a pixel boundary. |
| ParserBlocks.EmitGap | server/lib/pdf-structure-parser.ts:222-239 | The gap step yields one image block iff the band is taller than 5, not empty, and its crop succeeds. A crop that throws loses only this block. |
| ParserBlocks.EmitRegion | server/lib/pdf-structure-parser.ts:218-277 | One turn of the emission loop yields the gap band from where the previous region ends down to this region's top, and the region's text block holding its lines as paragraphs, joined by the corrected line join. |
| ParserBlocks.EmitRegions | server/lib/pdf-structure-parser.ts:218-278 | The emission loop yields each region's gap and text block in order, and ends with lastY = the last region's max, or 0. |
| ParserBlocks.EmitBlocks | server/lib/pdf-structure-parser.ts:218-299 | The page's blocks are the regions' blocks, then the final gap down to the viewport height. |
| ParserBlocks.RegionGaps | server/lib/pdf-structure-parser.ts:218-222 | One gap per region. |
| ParserBlocks.RegionGapAt | server/lib/pdf-structure-parser.ts:218-222 | Region i's gap is the band from the previous region's max (0 for the first) down to region i's min. |
| ParserBlocks.RegionHtmls | server/lib/pdf-structure-parser.ts:243-267 | One HTML text per region. |
| ParserBlocks.RegionHtmlAt | server/lib/pdf-structure-parser.ts:243-267 | Region i's HTML is its lines joined as paragraphs, in the order the line sort gives. |
| ParserBlocks.PageTextBlocks | server/lib/pdf-structure-parser.ts:218-299 | The page's text blocks are exactly one per region, in region order. The i-th has y = region.min, height = region.max − region.min and the region's HTML. The gaps add no text. |
| ParserBlocks.TextBlocksMatchRegions | server/lib/pdf-structure-parser.ts:269-277 | After n regions, the text blocks so far are one per region, in order. |
| ParserBlocks.TextBlocksStep | server/lib/pdf-structure-parser.ts:218-277 | One more region adds exactly its text block. |
| ParserBlocks.GapBlocksFit | server/lib/pdf-structure-parser.ts:218-239 | Each region's gap is empty or one image block over exactly its band. |
| ParserBlocks.NoTextInGap | server/lib/pdf-structure-parser.ts:228-235 | A gap holds no text block. |
| ParserBlocks.GapBlocksImage | server/lib/pdf-structure-parser.ts:222-235 | A gap's block is an image at x = 0, as wide as the page, taller than 5, over a non-empty band, holding that band's crop. |
| ParserBlocks.RegionImages | server/lib/pdf-structure-parser.ts:218-278 | Every image block emitted for the regions is such a gap image. |
| ParserBlocks.PageImages | server/lib/pdf-structure-parser.ts:218-299 | Every image block of the page, the final gap included, is such a gap image. |
| ParserBlocks.RegionBlocksOrdered | server/lib/pdf-structure-parser.ts:218-278 | Over separated regions the blocks come top to bottom without overlap, and the last ends at lastY. |
| ParserBlocks.PageBlocksOrdered | server/lib/pdf-structure-parser.ts:218-299 | Over separated regions each page block ends no lower than the next starts, the final gap included. |
| ParserLines.JoinLines | server/lib/pdf-structure-parser.ts:249-267 | The line-joining loop, with "no line yet" kept apart from every y, returns the region HTML of the line specification. |
| ParserLines.LinesFacts | server/lib/pdf-structure-parser.ts:253-264 | Every item lands in exactly one line, in order. An item continues the current line iff its top is within 8 of that line's first top, and otherwise it starts the next line. |
| ParserLines.ContinueLineWellFormed | server/lib/pdf-structure-parser.ts:257-258 | Appending an item within 8 of the line's first top keeps the lines well formed. |
| ParserLines.StartLineWellFormed | server/lib/pdf-structure-parser.ts:259-262 | Starting a line at an item not within 8 keeps the lines well formed. |
| ParserLines.AsWrittenAgrees | server/lib/pdf-structure-parser.ts:249-267 | When no item's top is exactly −1, the loop as written, with the −1 sentinel, yields the intended paragraphs. |
| ParserLines.SentinelDropsLine | server/lib/pdf-structure-parser.ts:250-256 | With an item whose top is −1, the code as written drops that item's line, while the intended HTML keeps it. |
| StructureParser.PageItems | server/lib/pdf-structure-parser.ts:119-134 | One normalised item per text item, in content order. |
| StructureParser.EmbeddedItems | server/lib/pdf-structure-parser.ts:137-152 | Embedding keeps the item count. |
| StructureParser.ParsedPages | server/lib/pdf-structure-parser.ts:73-309 | One parsed page per document page. |
| StructureParser.ParsePageStep | server/lib/pdf-structure-parser.ts:75-307 | A page yields a parsed page iff it renders and its annotations and text content can be read and are text items; otherwise the call throws. |
| StructureParser.ParsePdf | server/lib/pdf-structure-parser.ts:59-324 | Succeeds iff the document loads and every page parses. Then it returns one parsed page per page, in page order; any failure is rethrown. |
| StructureParser.ParsedPageHeader | server/lib/pdf-structure-parser.ts:95-111 | A parsed page has pageIndex i − 1 and the viewport's size. Its links are the URL link annotations, each with a URL, that page index and a non-negative extent. |
| StructureParser.ParsedPageRegions | server/lib/pdf-structure-parser.ts:156-187 | The page's items are sorted by y as a permutation of the embedded items. Every non-blank one lands in exactly one region, and the regions are well formed and separated. |
| StructureParser.ParsedPageBlocks | server/lib/pdf-structure-parser.ts:192-299 | A parsed page's blocks are ordered top to bottom, its text blocks are one per region in order, and each image block is a non-empty gap band holding its crop. |
| ImageSlicer.SliceImage | server/lib/image-slicer.ts:23-53 | Height 0 gives no slices, and a failing resize or metadata read rejects. Otherwise it succeeds iff every strip can be extracted. Then there are ceil(rHeight / targetHeight) slices; slice k starts at k · targetHeight, has the k-th strip height, width 1600 and no links, and holds that strip. |
| ImageSlicer.SlicesTile | server/lib/image-slicer.ts:33-50 | The strips tile [0, rHeight). Every height is in (0, targetHeight], all but the last are exactly targetHeight, and the last ends at rHeight. |
| ImageSlicer.SliceHeightsSum | server/lib/image-slicer.ts:33-50 | The strip heights add up to rHeight. |
| ImageSlicer.CountBounds | server/lib/image-slicer.ts:35-50 | The count is the least n with rHeight ≤ n · targetHeight. |
| ImageSlicer.CountFromBounds | server/lib/image-slicer.ts:35-50 | (n − 1) · T < rHeight ≤ n · T determines n as the count. |
| ImageSlicer.SliceIndexBelowCount | server/lib/image-slicer.ts:35-37 | While y < rHeight the next strip index is below the count, so the loop stops after the count. |
| ImageSlicer.SliceExamples | server/lib/image-slicer.ts:35-50 | 2000 cut at 500 gives 4 strips of 500; 2000 cut at 3000 gives 1 strip of 2000. |
| Processor.LinksForBlock | server/lib/processor.ts:46-65 | The inner loop returns exactly the page links that overlap the block, shifted, in page-link order. |
| Processor.OverlapsIff | server/lib/processor.ts:54-57 | A link is kept iff both extents are positive and each starts strictly above the other's end. Touching links, links of height 0 and blocks of height 0 are dropped. |
| Processor.BlockLinksSpec | server/lib/processor.ts:48-65 | A kept link is exactly an overlapping page link with y − blockY in place of y and url, x, width and height unchanged. |
| Processor.BlockLinksInFrame | server/lib/processor.ts:54-63 | In the block's frame every kept link crosses [0, blockH). |
| Processor.ProcessBlockStep | server/lib/processor.ts:33-74 | A text block keeps its HTML and gets links = []; an image block keeps its PNG, width and height and gets the links that cross it. |
| Processor.ProcessPage | server/lib/processor.ts:32-76 | The loop over a page's blocks maps each block in order. |
| Processor.PageOut | server/lib/processor.ts:32-76 | One processed block per page block. |
| Processor.ProcessPages | server/lib/processor.ts:28-77 | The loop over pages returns the processed blocks in page order, then block order. |
| Processor.PdfBlocksAt | server/lib/processor.ts:28-77 | Block j of page i lands at position (blocks of earlier pages) + j, as that block processed. |
| Processor.PdfBlocksLength | server/lib/processor.ts:28-77 | There are as many processed blocks as page blocks. |
| Processor.EffectiveSliceHeight | server/lib/processor.ts:85 | The strip height is always positive, so slicing terminates; a positive request is kept, and a request ≤ 0 becomes 100000. |
| Processor.SlicesToBlocks | server/lib/processor.ts:96-104 | One image block per slice, in slice order, with the slice's buffer, links, width and height. |
| Processor.ProcessFile | server/lib/processor.ts:17-113 | For 'application/pdf', it succeeds iff the parse succeeds and returns the pages' processed blocks. For any other type, it succeeds iff the image can be read and every strip extracted, and returns one block per strip with height ≤ 0 mapped to 100000. Failures are rethrown with no partial list. |
| ServerHtml.Src | server/lib/html-generator.ts:6-14 | The image src is imageUrl when it is a non-empty string, else the buffer as a base64 PNG data URI, else ''. |
| ServerHtml.Overlays | server/lib/html-generator.ts:20-35 | One overlay per link, in order. Its href and title are the URL as given, and its box is x, y, width and height × 0.5. |
| ServerHtml.Rows | server/lib/html-generator.ts:4-47 | One row per block, in input order, whatever the block. A block without links has no overlay. |
| ServerHtml.NoLinksNoAnchor | server/lib/html-generator.ts:22-46 | A block without links gives a row with no anchor: the image alone in its container. |
| ServerHtml.OverlayKeepsAnyUrl | server/lib/html-generator.ts:22-34 | With no allow-list and no escaping, any URL, 'javascript:' included, appears verbatim after `<a href="` and as the title. |
| ServerHtml.DocumentFrame | server/lib/html-generator.ts:49-62 | The document opens with the doctype and a head whose title is the fixed 'Newsletter', and ends by closing the table, body and document. |
| HtmlUtils.EscapeHtmlPerChar | src/utils/index.ts:1-5 | Because '&' is replaced first, the chained replacements escape each character independently, and no entity is escaped twice. |
| HtmlUtils.EscapeHtmlSafe | src/utils/index.ts:1-5 | The output has no '<', '>' or '"', and every '&' begins &amp;, &lt;, &gt; or &quot;. |
| HtmlUtils.EscapeHtmlIdentity | src/utils/index.ts:1-5 | A string with none of & < > " is returned unchanged. |
| HtmlUtils.EscapeHtmlRoundTrip | src/utils/index.ts:1-5 | Decoding the four entities gives back the input, so escaping loses nothing. |
| HtmlUtils.UnescapeEscapeEach | src/utils/index.ts:1-5 | Per-character escaping, with or without '"', is undone by decoding. |
| HtmlUtils.EscapeEachSafe | src/utils/index.ts:1-5 | Per-character escaping yields a safely escaped string. |
| HtmlUtils.EscapeEachNoAngle | src/utils/index.ts:2-4 | Per-character escaping leaves no '<' or '>'. |
| HtmlUtils.ReplaceAll | src/utils/index.ts:2-5 | A global replacement of a character that does not occur changes nothing. |
| HtmlUtils.IsValidUrlIff | src/utils/index.ts:7-12 | A URL passes iff, once cleaned and lower-cased, it begins with "http:", "https:" or "mailto:". |
| HtmlUtils.JavascriptRejected | src/utils/index.ts:7-12 | A "javascript:" URL, in any letter case, never passes. |
| HtmlUtils.SchemeFromPrefix | src/utils/index.ts:9-10 | For a lower-case scheme word, the parsed protocol is that scheme iff the lower-cased text begins with it and ':'. |
| HtmlUtils.ScanSchemeSpec | src/utils/index.ts:9 | The scheme scan finds position k iff k is the first ':' and every character before it is a scheme character. |
| HtmlUtils.LowerAscii | src/utils/index.ts:9 | Lower-casing maps each character by itself and keeps the length. |
| HtmlUtils.IsValidFilenameIff | src/utils/index.ts:14-15 | A name is valid iff it has none of \ / : * ? " < > | and no "..". A single dot is allowed. |
| HtmlUtils.HasForbiddenCharSpec | src/utils/index.ts:15 | The first regex test is true iff some character is forbidden. |
| HtmlUtils.HasDotDotSpec | src/utils/index.ts:15 | The second regex test is true iff two consecutive dots occur. |
| HtmlUtils.IsValidIdIff | src/utils/index.ts:17-18 | An id is valid iff it is non-empty and made only of letters, digits, '_' and '-'. |
| ClientHtml.SafeLink | src/utils/htmlGenerator.ts:7 | The whole-image link is non-empty iff block.link is a non-empty allowed URL, and then it is escaped. |
| ClientHtml.Scale | src/utils/htmlGenerator.ts:77 | A missing or zero width gives scale 1; otherwise scale · width = 800. |
| ClientHtml.Rows | src/utils/htmlGenerator.ts:5-109 | One row per block, in input order, each rendered by its block's type. |
| ClientHtml.ValidOverlaysSpec | src/utils/htmlGenerator.ts:16-29 | An overlay exists exactly for each link that passes the allow-list, at × 0.5. Its href is the escaped URL, so it has no '<', '>' or '"'. |
| ClientHtml.ValidOverlaysEmpty | src/utils/htmlGenerator.ts:16-29 | There are no overlays exactly when no link passes the allow-list. |
| ClientHtml.OverlaysTextEmpty | src/utils/htmlGenerator.ts:16-32 | The joined overlay text is empty exactly when there is no overlay. |
| ClientHtml.ImageRowChoice | src/utils/htmlGenerator.ts:6-51 | An image block takes the overlay container iff one of its links passes the allow-list. Otherwise it takes the plain row, wrapped in a whole-image anchor iff block.link is an allowed URL. |
| ClientHtml.ValidAreasSpec | src/utils/htmlGenerator.ts:70-84 | An area exists exactly for each allowed link. Its coords are the link's corners scaled and rounded with Math.round, and its href is the escaped URL. |
| ClientHtml.AreaExample | src/utils/htmlGenerator.ts:77-83 | On a block 1600 wide, the link (200, 200, 200, 200) gets coords "100,100,200,200". |
| ClientHtml.PdfRowHasMap | src/utils/htmlGenerator.ts:68-94 | A PDF row always points its image at `#map-{id}` and declares `<map name="map-{id}">`, whether or not any area survives. |
| ClientHtml.PdfLayer | src/utils/htmlGenerator.ts:64-66 | The text layer is present iff the content is a non-empty string, and it is always wrapped in `<!--[if !mso]><!-->` … `<!--<![endif]-->`. |
| ClientHtml.DocumentTitle | src/utils/htmlGenerator.ts:4-116 | The document opens with the head and the unescaped title, 'Newsletter' by default, and a placeholder block contributes ''. |
| PdfClient.SpanOf | src/services/pdf-client-processor.ts:52-72 | A span's text is escapeHtml(str). Its left and baseline are the viewport image of the origin, its top is one font height above, and its width is width × scale for a non-zero width and 0 otherwise. |
| PdfClient.SpanStep | src/services/pdf-client-processor.ts:43-104 | An entry gives a span iff it is a text item whose string is neither empty nor all whitespace. |
| PdfClient.BuildTextLayerHtml | src/services/pdf-client-processor.ts:34-107 | Succeeds iff the text content can be read. It then returns the kept entries' spans joined by '\n', a function of the viewport and the content alone: the links argument does not enter it. |
| PdfClient.SpansSpec | src/services/pdf-client-processor.ts:43-104 | Each span is the span of a kept entry, each kept entry has its span, and every span's text is escaped. |
| PdfClient.SpansEmpty | src/services/pdf-client-processor.ts:45-50 | There are no spans iff no entry is kept. |
| PdfClient.TextLayerEmpty | src/services/pdf-client-processor.ts:43-106 | The text layer is '' iff no entry is a text item with visible text. |
| PdfClient.JoinEmpty | src/services/pdf-client-processor.ts:106 | A join of non-empty parts is empty iff there are no parts. |
| PdfClient.WidthStyle | src/services/pdf-client-processor.ts:63-99 | The width declaration is written exactly for a positive width, right after `pointer-events: auto;`. |
| PdfClient.FirstSrc | src/services/pdf-client-processor.ts:158 | The page src is the first uploaded block's src when that is a non-empty string, else ''. |
| PdfClient.Outcomes | src/services/pdf-client-processor.ts:121-206 | One outcome per page. |
| PdfClient.ProcessPage | src/services/pdf-client-processor.ts:124-205 | One page's fate. With no canvas context or no blob it is skipped; a failing render or upload rejects; link and text-layer failures are caught. |
| PdfClient.ProcessPdfFile | src/services/pdf-client-processor.ts:109-209 | Succeeds iff the document loads and no page rejects, and then returns the emitted pages in page order. |
| PdfClient.EmittedInOrder | src/services/pdf-client-processor.ts:119-208 | The result holds exactly the emitted pages, each once, in increasing page order. |
| PdfClient.EmittedPageFacts | src/services/pdf-client-processor.ts:162-205 | An emitted page has the viewport's size and well-formed min/max-normalised links without a page index. Its links are [] when the annotations fail and its content is '' when the text content fails. |
| EditorStore.AfterSet | src/stores/editorStore.ts:26-44 | setBlocks keeps the history invariant. A deep-equal value leaves the state unchanged; any other value truncates after the index, appends, and moves the index to the end. |
| EditorStore.AfterUndo | src/stores/editorStore.ts:46-57 | undo keeps the invariant and the history; it is a no-op at index 0 and otherwise moves one entry back. |
| EditorStore.AfterRedo | src/stores/editorStore.ts:59-70 | redo keeps the invariant and the history; it is a no-op at the last entry and otherwise moves one entry forward. |
| EditorStore.Store.constructor | src/stores/editorStore.ts:21-24 | The store starts consistent, with blocks [], history [[]] and index 0. |
| EditorStore.Store.SetBlocks | src/stores/editorStore.ts:26-44 | The store's new state is AfterSet of the old state, and the invariant is kept. |
| EditorStore.Store.SetBlocksWith | src/stores/editorStore.ts:26-29 | The updater form applies the function to the current blocks, then sets. |
| EditorStore.Store.Undo | src/stores/editorStore.ts:46-57 | The new state is AfterUndo of the old. |
| EditorStore.Store.Redo | src/stores/editorStore.ts:59-70 | The new state is AfterRedo of the old. |
| EditorStore.Store.Reset | src/stores/editorStore.ts:72-78 | The state becomes blocks [], history [[]], index 0, from any state. |
| EditorStore.Store.UpdateBlock | src/stores/editorStore.ts:80-82 | Sets the blocks with the update merged into exactly the matching ids. |
| EditorStore.Store.DeleteBlock | src/stores/editorStore.ts:84-86 | Sets the blocks without those of that id. |
| EditorStore.Store.AddBlock | src/stores/editorStore.ts:88-94 | Sets the blocks with the block spliced in at the index. |
| EditorStore.UndoThenRedo | src/stores/editorStore.ts:46-70 | From any entry but the first, undo then redo restores the state. |
| EditorStore.RedoThenUndo | src/stores/editorStore.ts:46-70 | From any entry but the last, redo then undo restores the state. |
| EditorStore.ChangeDropsFuture | src/stores/editorStore.ts:32-40 | After a change there is nothing to redo, and undo shows the blocks from before the change. |
| EditorStore.UpdateUnknownId | src/stores/editorStore.ts:80-82 | Updating an id no block has leaves the whole state unchanged: no new history entry. |
| EditorStore.ChangesFromInitial | src/stores/editorStore.ts:26-44 | From the initial state, n changes that each differ from the blocks before them build history [[]] + changes with index n. |
| EditorStore.Replay | src/stores/editorStore.ts:26-44 | Any run of setBlocks calls keeps the history invariant. |
| Types.Merge | src/stores/editorStore.ts:81 | `{ ...b, ...updates }`: without an id in the update the id stays, and an empty update changes nothing. |
| BlockEdits.UpdateById | src/stores/editorStore.ts:81 | The map keeps the length. Blocks with another id are unchanged, and blocks with the id get the update merged in. |
| BlockEdits.UpdateUnmatched | src/stores/editorStore.ts:81 | An id no block has leaves the list equal to itself. |
| BlockEdits.RemoveById | src/stores/editorStore.ts:85 | The filter keeps only blocks of the list whose id differs. |
| BlockEdits.RemoveByIdCounts | src/stores/editorStore.ts:85 | Exactly the blocks with the id go, and every other block stays as often as it was there. |
| BlockEdits.RemoveByIdConcat | src/stores/editorStore.ts:85 | The filter works piece by piece, so the remaining blocks keep their order. |
| BlockEdits.SpliceStart | src/stores/editorStore.ts:91 | splice's start index: counted from the end when negative, clamped to [0, length]. |
| BlockEdits.InsertAt | src/stores/editorStore.ts:89-93 | The copy with the block spliced in is one longer, has the block at the splice start, and is a permutation of the list plus the block. |
| BlockEdits.InsertThenRemove | src/stores/editorStore.ts:89-93 | Removing the inserted block gives back the list: the others are untouched and in order. |
| BlockEdits.FindIndexById | src/components/Editor/BlockList.tsx:49-50 | findIndex: the first position with that id, or None iff no block has it. |
| BlockEdits.ReplaceAt | src/components/Editor/BlockList.tsx:87-89 | splice(index, 1, ...newBlocks) removes that block and adds exactly the new ones. |
| BlockEdits.Move | src/components/Editor/BlockList.tsx:51 | arrayMove keeps the length. |
| BlockEdits.MoveFacts | src/components/Editor/BlockList.tsx:51 | The moved block lands at the target index, the others keep their relative order, and nothing is lost or duplicated. |
| BlockList.NewBlock | src/components/Editor/BlockList.tsx:56-65 | 'image' gives a placeholder without content; any other type gives an empty text block; the block has the fresh id. |
| BlockList.AddBlock | src/components/Editor/BlockList.tsx:56-69 | The list is one longer, the new block sits at the splice start, and removing it gives back the old list. |
| BlockList.SliceBlock | src/components/Editor/BlockList.tsx:75-81 | The corrected block made from a slice: type 'image', the fresh id, src from the response's src, alt = the file name, the slice's links. |
| BlockList.SliceSrcLost | src/components/Editor/BlockList.tsx:75-81 | As written, a block made from a server response has no src; read from src, it carries the stored image's URL. |
| BlockList.SliceBlocksAsWritten | src/components/Editor/BlockList.tsx:75-81 | One block per slice, in slice order, src read from `imageUrl`: no block made from a server response has a src. |
| BlockList.SliceBlocks | src/components/Editor/BlockList.tsx:75-81 | The corrected blocks: one per slice, in slice order. |
| BlockList.ReplacePlaceholder | src/components/Editor/BlockList.tsx:83-91 | When the placeholder's id is gone, the list is unchanged. Otherwise the list before it and after it stays, the new blocks stand at its position in order, and only the placeholder is lost. |
| BlockList.HandleInlineUpload | src/components/Editor/BlockList.tsx:71-101 | As written: a successful upload replaces the placeholder with the blocks built from `imageUrl` and toasts the slice count. A failed one leaves the list unchanged and shows the error message, or 'Failed to upload image' when that is empty. |
| BlockList.HandleInlineUploadCorrected | src/components/Editor/BlockList.tsx:71-101 | The same handler with each block's src read from the response's src. |
| BlockList.InlineUploadSrc | src/components/Editor/BlockList.tsx:75-91 | After a server-answered upload, every block standing in the placeholder's place has no src as written, and its slice's src when corrected. |
| BlockList.DragEnd | src/components/Editor/BlockList.tsx:44-54 | A drag end keeps the list's length. |
| BlockList.DragEndMoves | src/components/Editor/BlockList.tsx:44-54 | No target, or a drop on itself, changes nothing. Otherwise the dragged block stands where the target stood, the others keep their relative order, and the list is a permutation of the old one. |
| NewsletterManager.Titles | src/hooks/useNewsletterManager.ts:66 | The titles of the saved newsletters, in order. |
| NewsletterManager.FirstSegment | src/hooks/useNewsletterManager.ts:57 | `split(/[.!?]/)[0]`: the longest prefix without '.', '!' or '?'. |
| NewsletterManager.SummaryFacts | src/hooks/useNewsletterManager.ts:56-57 | The derived title is at most 30 characters, has no sentence end, does not start with whitespace, and is a prefix of the trimmed first sentence. |
| NewsletterManager.FirstTextBlock | src/hooks/useNewsletterManager.ts:50 | The first block that is a text block with non-empty content; None iff there is none. |
| NewsletterManager.FreeIndex | src/hooks/useNewsletterManager.ts:64-70 | The first free candidate number from k on: it is free, and every earlier candidate is taken. Its termination bound shows the loop terminates. |
| NewsletterManager.UniqueTitleFacts | src/hooks/useNewsletterManager.ts:64-70 | The result is no saved title. It is the title itself when that is free; otherwise it is 'title (n)' for the least n ≥ 1 whose candidate is free. |
| NewsletterManager.UntitledTaken | src/hooks/useNewsletterManager.ts:64-70 | With 'Untitled Newsletter' already saved, the result is 'Untitled Newsletter (1)'. |
| NewsletterManager.UniqueTitle | src/hooks/useNewsletterManager.ts:64-70 | The while loop terminates and returns the unique title of the specification. |
| NewsletterManager.SuggestedIsFree | src/hooks/useNewsletterManager.ts:48-74 | A new newsletter still called 'Untitled Newsletter' is offered a title no saved newsletter has. |
| NewsletterManager.HandleSave | src/hooks/useNewsletterManager.ts:45-102 | With an id there is no prompt, and the POST carries the id and the current title. Without an id, the prompt offers the suggested title; cancelling sends nothing and changes nothing; an empty answer keeps the suggestion. On success the id becomes the server's, and the toasts are as the source writes them. |
| NewsletterManager.NewNewsletter | src/hooks/useNewsletterManager.ts:119-127 | Confirmed: an empty fresh editor, no id, the default title, the editor tab, and the draft cleared. Declined: nothing changes. |
| NewsletterManager.HandleDelete | src/hooks/useNewsletterManager.ts:129-149 | Declined: nothing happens. A failed DELETE: only the error toast. Success: the list is fetched again, and deleting the loaded newsletter runs the new-newsletter reset. Nothing else resets the session. |
| Export.Sanitize | src/hooks/useExport.ts:54 | One output character per UTF-16 code unit, each kept or '_'. The result is empty iff the title is. |
| Export.SanitizeBmp | src/hooks/useExport.ts:54 | For a title without astral characters, the length is preserved and each character is kept or replaced by one '_'. |
| Export.FilenameValid | src/hooks/useExport.ts:54 | The filename passes isValidFilename and ends in '.html', and an empty title gives 'newsletter.html'. |
| Export.ConvertBlock | src/hooks/useExport.ts:59-76 | Fails iff the block is an image or PDF without a src. Only image and PDF blocks under '/uploads/' are converted: they get the data URI, with 'image/pdf' replaced by 'application/pdf' for PDFs, or keep their src when the request fails. Every other block passes through unchanged. |
| Export.ConvertBlocks | src/hooks/useExport.ts:57-77 | Promise.all succeeds iff every block converts, and then gives the converted blocks in order. |
| Export.ConvertKeepsOthers | src/hooks/useExport.ts:57-77 | Conversion changes nothing but src, keeps the order, and a failed request keeps the src too. |
| Export.PdfMediaType | src/hooks/useExport.ts:65-67 | A PDF's data URI 'data:image/pdf…' becomes 'data:application/pdf…'. |
| Export.DialogToast | src/hooks/useExport.ts:110-146 | A written file toasts success. A thrown Error other than AbortError toasts 'Export canceled or failed'. An AbortError, or a thrown non-Error, shows nothing. |
| Export.HandleExportHtml | src/hooks/useExport.ts:53-147 | Nothing is written iff conversion rejects. Otherwise the HTML is generateHtml of the converted blocks and the title. With an export path it goes to the server, with the path or failure toast; otherwise it goes to the save dialog with that dialog's toast. |
| Export.SliceBlockBreaksExport | src/hooks/useExport.ts:60 | Any list holding an as-written upload block fails to export, while the corrected block converts. |
| AutoSave.DraftId | src/hooks/useAutoSave.ts:31 | The draft id is the newsletter id when it is non-empty, else the timestamp. |
| AutoSave.WriteDraft | src/hooks/useAutoSave.ts:28-39 | The draft is written iff there are blocks or the title is not the default. Only the draft key changes. |
| AutoSave.DraftToRestore | src/hooks/useAutoSave.ts:41-57 | There is a draft to restore iff the stored string is non-empty, parses, and has a non-empty block list. A missing id becomes null, and a missing title becomes 'Untitled Newsletter'. |
| AutoSave.RestoreDraft | src/hooks/useAutoSave.ts:41-57 | With a draft, the editor is reset and then set to its blocks, and the id and title are restored. Without one, or when it does not parse, nothing changes. |
| AutoSave.RestoredHistory | src/hooks/useAutoSave.ts:47-49 | After a restore the history is exactly [[], blocks] at index 1, and one undo empties the editor. |
| AutoSave.ClearDraft | src/hooks/useAutoSave.ts:59-61 | The draft key is removed and every other key stays. |
| AutoSave.ClearedRestoresNothing | src/hooks/useAutoSave.ts:59-61 | A cleared storage has no draft to restore. |
| AutoSave.WriteThenRestore | src/hooks/useAutoSave.ts:28-57 | If parse undoes stringify, a written draft restores its blocks, its title (the default for ''), and the newsletter id or the timestamp. A draft written for its title alone restores nothing. |
| Keyboard.HandleKeyDown | src/hooks/useKeyboardShortcuts.ts:17-39 | Save fires iff a modifier is held and the key is 's', even in an input field. Undo fires iff a modifier is held, the key is 'z' and the target is not an input field; redo likewise for 'y'. |
| Keyboard.QuietCases | src/hooks/useKeyboardShortcuts.ts:26-39 | Without a modifier nothing fires; other keys fire nothing; in an input field only save can fire. |
| Keyboard.CtrlOrCmd | src/hooks/useKeyboardShortcuts.ts:26 | Ctrl and Cmd act alike. |
| Resizable.Moved | src/hooks/useResizable.ts:35-46 | A mousemove sets the width to the pointer's percentage iff dragging, a container exists, and the percentage is strictly between the bounds. Otherwise the width stays. |
| Resizable.Step | src/hooks/useResizable.ts:27-50 | Start sets resizing, stop and mouseup clear it, only a move changes the width, and a move keeps the resizing flag. |
| Resizable.WidthStaysInBounds | src/hooks/useResizable.ts:40-43 | A width strictly between the bounds stays there under any sequence of events. |
| Resizable.IdleMovesChangeNothing | src/hooks/useResizable.ts:35-46 | Mouse moves while not dragging change nothing. |
| Resizable.DefaultExamples | src/hooks/useResizable.ts:21-43 | With bounds 20 and 80 and a container 1000 wide: 600 gives 60; 100 and 900 are refused; no container changes nothing. |
| Resizable.Resizer.constructor | src/stores/uiStore.ts:30-33 | Not resizing, width 50, and the given bounds. |
| Resizable.Resizer.StartResizing | src/hooks/useResizable.ts:27-29 | The new state is the start step of the old. |
| Resizable.Resizer.StopResizing | src/hooks/useResizable.ts:31-33 | The new state is the stop step of the old; the window's mouseup listener calls the same handler. |
| Resizable.Resizer.Resize | src/hooks/useResizable.ts:35-46 | The new state is the mousemove step of the old. |
| Common.Round | src/utils/htmlGenerator.ts:78-81 | Math.round gives the integer within half of x, with halves rounded up. |
| Common.TrimEmptyIffBlank | server/lib/pdf-structure-parser.ts:165 | trim() gives '' iff every character is JavaScript whitespace. |
| Numbers.NatToString | src/components/Editor/BlockList.tsx:93 | The decimal rendering of a count is non-empty and all digits. |
| Numbers.ParseNatToString | src/hooks/useNewsletterManager.ts:67 | Reading the rendering back gives the number. |
| Numbers.NatToStringInjective | src/hooks/useNewsletterManager.ts:67 | Different numbers render differently, so the numbered candidates are distinct. |

## Left out

- **Library and browser calls.** pdf.js, sharp, @napi-rs/canvas,
  `Buffer.toString('base64')`, fetch, JSON, dialogs, uuid, `Date.now` and
  DOM `textContent` are parameters. Nothing is assumed about them beyond
  their type.
- **Floating point.** Coordinates are exact reals: IEEE rounding, NaN and
  Infinity are not modelled.
  - The font size (`Math.sqrt`/`Math.hypot` of the transform) is an input
    field of each text item.
  - `toFixed(2)` and `${number}` are the parameters `fixed` and `number`.
  - A zero-width container in the resize rule is the `None` case of the
    percentage, as the ±Infinity or NaN it yields fails both comparisons.
- **The line sort** at server/lib/pdf-structure-parser.ts:243-247. Its
  comparator is not transitive, so the order it gives is left to the engine.
  It is the parameter `lineOrder`, and lines are joined over the order it
  returns.
- **The URL parser behind isValidUrl.** It is modelled as: remove tab and
  newline, trim C0 controls and spaces, take the scheme, lower-cased. Host
  validation of special schemes is not modelled, so a string such as
  "http:" with no host counts as valid here.
- **Async and timing.** Interleavings of awaits, debouncing (a draft write
  sees the debounced values), listener registration and the uploading
  spinner state are not modelled. `Promise.all` is modelled as all-or-first-failure.
- **Logging.** console output and `alert` in handleInlineUpload are left
  out.
- **JSON shape.** A block parsed from a draft or an API answer is assumed to
  have the Block shape; a `dataUri` missing from the base64 answer is not
  modelled.
- **Deep equality.** fast-deep-equal is Dafny value equality on blocks. A
  property present with the value `undefined` and an absent property are one
  and the same `None` here.
- **processFile's `block.height || 0`.** The parser always sets an image
  block's height, so the default is modelled only through height 0.
- **Outside the core.** The HTTP server, the API client, the UI components,
  the plain-setter stores, loadNewsletter, fetchNewsletters,
  loadSettings/saveSettings and handleOpenFolder are not part of this model.
- **Unicode.**
  - NewsletterManager.SummaryFacts: `substring(0, 30)` counts UTF-16 code
    units; the model counts characters, so a title with astral characters
    may be cut at a different place.
  - Export.SanitizeBmp: "length preserved" holds for titles without astral
    characters. Export.Sanitize gives each astral character two '_' (one
    per code unit), as the regex without the `u` flag does.
- **Weaker or narrower contracts.**
  - ImageSlicer.SliceImage requires targetHeight > 0 when the image has
    rows. With targetHeight ≤ 0, y would never advance. The source then relies
    on sharp's `extract` rejecting a height ≤ 0, which the model does not
    cover. Its only caller maps such values to 100000
    (Processor.EffectiveSliceHeight).
  - BlockList.DragEnd requires both ids to be ids of blocks, as the sortable
    items are the blocks' ids. The behaviour of arrayMove on index −1 is not
    modelled.
  - NewsletterManager.HandleSave does not record the refetch of the saved
    list after a successful save.
  - NewsletterManager.HandleSave and NewsletterManager.HandleDelete model
    the prompt, confirm and server answers as parameters, one answer each.
  - ParserBlocks.IsRegionEmpty: the pixel bytes are the abstract
    `imageData` of the rendered page; their values are not computed.
  - PdfClient.ProcessPage takes whether a canvas context and a blob exist
    as one parameter per page.
- **The page pipeline uses the corrected line join.**
  - ParserBlocks.EmitRegion builds each region's HTML with the corrected
    join (ParserLines.JoinLines), and so do ParserBlocks.EmitRegions,
    ParserBlocks.EmitBlocks, StructureParser.ParsePageStep,
    StructureParser.ParsePdf and Processor.ProcessFile. They differ from
    the code as written only when a line starts at an item top of exactly
    −1: there the source drops that line's paragraph (see Findings).
    ParserLines.AsWrittenAgrees shows that the two give the same HTML when
    no item top is −1.
- **Where the tests and the code disagree, the code is modelled.**
  - src/utils/htmlGenerator.test.ts expects image blocks to get a `usemap`;
    the code gives image blocks positioned anchors and only PDF blocks an
    image map.
  - server/test/upload.test.ts reads a `result.images` that processFile no
    longer returns.
  - sliceImage always returns `links: []`.
  - processFile sends every MIME type other than 'application/pdf' down the
    image path, with no error for unsupported types.

## Findings

| source | as written | input that shows it | evidently intended | confidence | as-written member | corrected member |
|---|---|---|---|---|---|---|
| server/lib/pdf-structure-parser.ts:250-256 | `currentLineY === -1` marks "no line yet", but −1 is also a possible item top (text a pixel above the page's top edge). When the current line started at y = −1, the next item is taken to start the first line, and the pending line is never written. | A region whose items are "A" with top −1 and "B" with top 20: as written the HTML has only B's paragraph. | Every line becomes one paragraph, whatever its y. | not executed; follows from the code | ParserLines.SentinelDropsLine | ParserLines.JoinLines |
| src/components/Editor/BlockList.tsx:78 | The new image block's src is read from `slice.imageUrl`. The upload endpoint answers with `src` (server/app.ts:182-188; src/services/api.ts:15-20), so every inline-uploaded block has no src. Exporting any list holding one then rejects at `block.src.startsWith` (src/hooks/useExport.ts:60). | Any successful inline upload, e.g. a response `[{ src: "/uploads/a.png", links: [] }]`. | The block's src is the response's src. | not executed; the response type has no imageUrl | BlockList.InlineUploadSrc | BlockList.HandleInlineUploadCorrected |

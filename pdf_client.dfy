/** src/services/pdf-client-processor.ts: the browser-side PDF import. Every
    page is rendered at scale 1.5 to a JPEG that is uploaded, its URL links
    are normalised, and its text is laid over the image as transparent spans.

    A number written with toFixed(2) is the `fixed` parameter; the canvas
    context and the upload are the `canvasOk` and `upload` parameters. */
module PdfClient {
  import opened Common
  import opened Types
  import opened Geometry
  import opened PdfJs
  import opened HtmlUtils
  import opened ParserText

  const ClientScale: real := 1.5

  // ---------------------------------------------------------------------------
  // The text layer

  /** What one span interpolates: its position, font size and width in
      viewport pixels, and its escaped text. */
  datatype Span = Span(left: real, top: real, fontSize: real, width: real, content: string)

  /** An entry gets a span when it is a text item whose string is not empty
      and not all whitespace. */
  predicate Kept(it: TextContentItem) {
    it.TextItem? && it.str != "" && Trim(it.str) != ""
  }

  /** The span of a text item: the baseline origin mapped through the
      viewport, the top one (unscaled) font height above it, the width scaled
      when the item has a non-zero width and 0 otherwise. */
  function SpanOf(vp: Viewport, it: TextContentItem): (s: Span)
    requires it.TextItem?
    ensures s.content == EscapeHtml(it.str)
    ensures s.left == ToViewportPoint(vp, it.transform.e, it.transform.f).x
    ensures s.top + s.fontSize == ToViewportPoint(vp, it.transform.e, it.transform.f).y
    ensures it.width != 0.0 ==> s.width == it.width * vp.scale
    ensures it.width == 0.0 ==> s.width == 0.0
  {
    var p := ToViewportPoint(vp, it.transform.e, it.transform.f);
    var fh := it.fontSize;
    var w := if it.width != 0.0 then it.width * vp.scale else 0.0;
    Span(p.x, p.y - fh, fh, w, EscapeHtml(it.str))
  }

  /** The spans of the entries, in entry order. */
  function Spans(vp: Viewport, items: seq<TextContentItem>): seq<Span>
    decreases |items|
  {
    if items == [] then []
    else
      var last := items[|items| - 1];
      Spans(vp, items[..|items| - 1]) + (if Kept(last) then [SpanOf(vp, last)] else [])
  }

  /** The fixed text of the span template. */
  datatype Fragment =
    | SpanOpen | StyleLeft | StyleTop | StyleFont | StyleRest | WidthOpen | WidthClose | StyleEnd
    | SpanMid | SpanClose

  function Text(f: Fragment): string {
    match f
    case SpanOpen => "<span style=\""
    case StyleLeft => "\n            position: absolute;\n            left: "
    case StyleTop => "px;\n            top: "
    case StyleFont => "px;\n            font-size: "
    case StyleRest => "px;\n            font-family: sans-serif;\n            color: transparent;\n            white-space: pre;\n            pointer-events: auto;\n            "
    case WidthOpen => "width: "
    case WidthClose => "px;"
    case StyleEnd => "\n        "
    case SpanMid => "\">"
    case SpanClose => "</span>"
  }

  /** The width declaration, written only for a positive width. */
  function WidthText(w: real, text: Fragment -> string, fixed: real -> string): string {
    if w > 0.0 then text(WidthOpen) + fixed(w) + text(WidthClose) else ""
  }

  function StyleText(s: Span, text: Fragment -> string, fixed: real -> string): string {
    text(StyleLeft) + fixed(s.left) + text(StyleTop) + fixed(s.top) + text(StyleFont) + fixed(s.fontSize)
    + text(StyleRest) + WidthText(s.width, text, fixed) + text(StyleEnd)
  }

  function SpanText(s: Span, text: Fragment -> string, fixed: real -> string): string {
    text(SpanOpen) + StyleText(s, text, fixed) + text(SpanMid) + s.content + text(SpanClose)
  }

  function SpanTexts(spans: seq<Span>, text: Fragment -> string, fixed: real -> string): (r: seq<string>)
    ensures |r| == |spans|
  {
    seq(|spans|, j requires 0 <= j < |spans| => SpanText(spans[j], text, fixed))
  }

  lemma SpansStep(vp: Viewport, items: seq<TextContentItem>, k: nat)
    requires k < |items|
    ensures Spans(vp, items[..k + 1]) == Spans(vp, items[..k]) + (if Kept(items[k]) then [SpanOf(vp, items[k])] else [])
  {
    assert items[..k + 1][..k] == items[..k];
  }

  lemma SpanTextsAppend(spans: seq<Span>, s: Span, text: Fragment -> string, fixed: real -> string)
    ensures SpanTexts(spans + [s], text, fixed) == SpanTexts(spans, text, fixed) + [SpanText(s, text, fixed)]
  {
  }

  /** `spans.join('\n')`. */
  function TextLayerText(spans: seq<Span>, text: Fragment -> string, fixed: real -> string): string {
    Join(SpanTexts(spans, text, fixed), "\n")
  }

  /** One turn of the span loop: the span's text for a kept entry. The link
      whose rectangle holds the item's centre is looked up as the source does,
      and then not used. */
  method SpanStep(vp: Viewport, it: TextContentItem, links: seq<LinkInfo>, fixed: real -> string)
    returns (span: Option<string>)
    ensures Kept(it) ==> span == Some(SpanText(SpanOf(vp, it), Text, fixed))
    ensures !Kept(it) ==> span.None?
  {
    if !it.TextItem? || it.str == "" || Trim(it.str) == "" {
      return None;
    }
    var s := SpanOf(vp, it);
    var centerX := s.left + s.width / 2.0;
    var centerY := s.top + s.fontSize / 2.0;
    var hit := FindLink(links, centerX, centerY);
    return Some(SpanText(s, Text, fixed));
  }

  /** buildTextLayerHtml (`None` in: getTextContent rejects, and so does the
      call). Its result is a function of the viewport and the text content
      alone: the links do not enter it. */
  method BuildTextLayerHtml(vp: Viewport, content: Option<seq<TextContentItem>>, links: seq<LinkInfo>, fixed: real -> string)
    returns (r: Result<string>)
    ensures r.Success? <==> content.Some?
    ensures r.Success? ==> r.value == TextLayerText(Spans(vp, content.value), Text, fixed)
  {
    if content.None? {
      return Failure("getTextContent failed");
    }
    var items := content.value;
    var spans: seq<string> := [];
    for k := 0 to |items|
      invariant spans == SpanTexts(Spans(vp, items[..k]), Text, fixed)
    {
      SpansStep(vp, items, k);
      var span := SpanStep(vp, items[k], links, fixed);
      if span.Some? {
        SpanTextsAppend(Spans(vp, items[..k]), SpanOf(vp, items[k]), Text, fixed);
        spans := spans + [span.value];
      }
    }
    assert items[..|items|] == items;
    return Success(Join(spans, "\n"));
  }

  // ---------------------------------------------------------------------------
  // What the text layer satisfies

  /** A span is there for exactly the kept entries: each span is the span of
      some kept entry, each kept entry has its span, and every span's text is
      escaped. */
  lemma {:induction false} SpansSpec(vp: Viewport, items: seq<TextContentItem>)
    ensures forall s :: s in Spans(vp, items) <==>
      exists j :: 0 <= j < |items| && Kept(items[j]) && s == SpanOf(vp, items[j])
    ensures forall s :: s in Spans(vp, items) ==> Escaped(s.content)
  {
    SpansSound(vp, items);
    SpansComplete(vp, items);
    forall s | s in Spans(vp, items) ensures Escaped(s.content) {
      var j :| 0 <= j < |items| && Kept(items[j]) && s == SpanOf(vp, items[j]);
      EscapeHtmlSafe(items[j].str);
    }
  }

  lemma {:induction false} SpansSound(vp: Viewport, items: seq<TextContentItem>)
    ensures forall s :: s in Spans(vp, items) ==>
      exists j :: 0 <= j < |items| && Kept(items[j]) && s == SpanOf(vp, items[j])
    decreases |items|
  {
    if items != [] {
      var n := |items|;
      var init := items[..n - 1];
      SpansSound(vp, init);
      forall s | s in Spans(vp, items)
        ensures exists j :: 0 <= j < n && Kept(items[j]) && s == SpanOf(vp, items[j])
      {
        if s in Spans(vp, init) {
          var j :| 0 <= j < |init| && Kept(init[j]) && s == SpanOf(vp, init[j]);
          assert items[j] == init[j];
        } else {
          SpansLast(vp, items, s);
        }
      }
    }
  }

  /** A span that is not among the spans of the items before the last is the last item's. */
  lemma SpansLast(vp: Viewport, items: seq<TextContentItem>, s: Span)
    requires items != [] && s in Spans(vp, items) && s !in Spans(vp, items[..|items| - 1])
    ensures Kept(items[|items| - 1]) && s == SpanOf(vp, items[|items| - 1])
  {
  }

  lemma {:induction false} SpansComplete(vp: Viewport, items: seq<TextContentItem>)
    ensures forall j :: 0 <= j < |items| && Kept(items[j]) ==> SpanOf(vp, items[j]) in Spans(vp, items)
    decreases |items|
  {
    if items != [] {
      var n := |items|;
      var init := items[..n - 1];
      SpansComplete(vp, init);
      var tail := if Kept(items[n - 1]) then [SpanOf(vp, items[n - 1])] else [];
      assert Spans(vp, items) == Spans(vp, init) + tail;
      forall j | 0 <= j < n && Kept(items[j]) ensures SpanOf(vp, items[j]) in Spans(vp, items) {
        if j < n - 1 {
          assert items[j] == init[j];
          assert SpanOf(vp, init[j]) in Spans(vp, init);
        } else {
          assert SpanOf(vp, items[j]) in tail;
        }
      }
    }
  }

  /** No kept entry, no span. */
  lemma {:induction false} SpansEmpty(vp: Viewport, items: seq<TextContentItem>)
    ensures Spans(vp, items) == [] <==> forall j :: 0 <= j < |items| ==> !Kept(items[j])
    decreases |items|
  {
    if items != [] {
      var n := |items|;
      var init, last := items[..n - 1], items[n - 1];
      SpansEmpty(vp, init);
      if Kept(last) {
        assert Spans(vp, items) == Spans(vp, init) + [SpanOf(vp, last)];
      } else {
        assert Spans(vp, items) == Spans(vp, init);
        assert (forall j :: 0 <= j < n ==> !Kept(items[j])) <==> (forall j :: 0 <= j < n - 1 ==> !Kept(init[j])) by {
          assert forall j :: 0 <= j < n - 1 ==> init[j] == items[j];
        }
      }
    }
  }

  lemma {:induction false} JoinEmpty(parts: seq<string>, sep: string)
    requires forall j :: 0 <= j < |parts| ==> parts[j] != ""
    ensures Join(parts, sep) == "" <==> parts == []
  {
    if |parts| > 1 {
      assert |Join(parts, sep)| >= |parts[0]|;
    }
  }

  /** The text layer is empty exactly when no entry is a text item with
      visible text. */
  lemma TextLayerEmpty(vp: Viewport, items: seq<TextContentItem>, fixed: real -> string)
    ensures TextLayerText(Spans(vp, items), Text, fixed) == "" <==> forall j :: 0 <= j < |items| ==> !Kept(items[j])
  {
    var parts := SpanTexts(Spans(vp, items), Text, fixed);
    assert Text(SpanOpen) != "";
    forall j | 0 <= j < |parts| ensures parts[j] != "" {
      assert |parts[j]| >= |Text(SpanOpen)|;
    }
    JoinEmpty(parts, "\n");
    SpansEmpty(vp, items);
  }

  /** The width declaration is written exactly for a positive width: then it
      sits right after `pointer-events: auto;`; otherwise that line is
      followed directly by the end of the style. */
  lemma WidthStyle(s: Span, fixed: real -> string)
    ensures s.width > 0.0 ==>
      exists u :: StyleText(s, Text, fixed) == u + Text(StyleRest) + Text(WidthOpen) + fixed(s.width) + Text(WidthClose) + Text(StyleEnd)
    ensures s.width <= 0.0 ==> exists u :: StyleText(s, Text, fixed) == u + Text(StyleRest) + Text(StyleEnd)
  {
    WidthPlaced(s, Text, fixed);
  }

  lemma WidthPlaced(s: Span, text: Fragment -> string, fixed: real -> string)
    ensures s.width > 0.0 ==>
      exists u :: StyleText(s, text, fixed) == u + text(StyleRest) + text(WidthOpen) + fixed(s.width) + text(WidthClose) + text(StyleEnd)
    ensures s.width <= 0.0 ==> exists u :: StyleText(s, text, fixed) == u + text(StyleRest) + text(StyleEnd)
  {
    var u := text(StyleLeft) + fixed(s.left) + text(StyleTop) + fixed(s.top) + text(StyleFont) + fixed(s.fontSize);
    if s.width > 0.0 {
      assert StyleText(s, text, fixed) == u + text(StyleRest) + text(WidthOpen) + fixed(s.width) + text(WidthClose) + text(StyleEnd);
    } else {
      assert StyleText(s, text, fixed) == u + text(StyleRest) + text(StyleEnd);
    }
  }

  // ---------------------------------------------------------------------------
  // The page loop

  /** One page of the result, as App.tsx receives it. */
  datatype ProcessedPage = ProcessedPage(src: string, content: string, links: seq<LinkInfo>, width: real, height: real)

  /** What happens to one page: the whole import is rejected, the page is
      skipped, or it is emitted. */
  datatype Outcome = Rejected | Skipped | Emitted(page: ProcessedPage)

  /** `uploadedBlocks[0]?.src || ''`. */
  function FirstSrc(srcs: seq<Option<string>>): (src: string)
    ensures srcs != [] && Truthy(srcs[0]) ==> src == srcs[0].value
    ensures !(srcs != [] && Truthy(srcs[0])) ==> src == ""
  {
    if srcs != [] && Truthy(srcs[0]) then srcs[0].value else ""
  }

  /** The page's links: every URL link annotation, normalised by min/max;
      none when the annotations cannot be read. */
  function ClientLinks(p: PdfPage): seq<LinkInfo> {
    if p.annotations.Some? then PageLinks(p.viewport(ClientScale), p.annotations.value, None) else []
  }

  /** The page's text layer; '' when the text content cannot be read. */
  function ClientTextLayer(p: PdfPage, fixed: real -> string): string {
    if p.textContent.Some? then TextLayerText(Spans(p.viewport(ClientScale), p.textContent.value), Text, fixed) else ""
  }

  /** The fate of the page numbered `i` (from 1). No canvas context or no
      JPEG blob skips it; a render or upload that rejects rejects the import. */
  function PageOutcome(p: PdfPage, i: nat, canvasOk: nat -> bool, upload: (Bytes, nat) -> Option<seq<Option<string>>>,
                       fixed: real -> string): Outcome
  {
    if !canvasOk(i) then Skipped
    else if p.render(ClientScale).None? then Rejected
    else if p.render(ClientScale).value.jpeg.None? then Skipped
    else match upload(p.render(ClientScale).value.jpeg.value, i)
      case None => Rejected
      case Some(srcs) =>
        var vp := p.viewport(ClientScale);
        Emitted(ProcessedPage(FirstSrc(srcs), ClientTextLayer(p, fixed), ClientLinks(p), vp.width, vp.height))
  }

  /** The fate of every page, in page order. */
  function Outcomes(pages: seq<PdfPage>, canvasOk: nat -> bool, upload: (Bytes, nat) -> Option<seq<Option<string>>>,
                    fixed: real -> string): (os: seq<Outcome>)
    ensures |os| == |pages|
  {
    seq(|pages|, k requires 0 <= k < |pages| => PageOutcome(pages[k], k + 1, canvasOk, upload, fixed))
  }

  /** The emitted pages, in page order. */
  function EmittedPages(os: seq<Outcome>): seq<ProcessedPage>
    decreases |os|
  {
    if os == [] then []
    else EmittedPages(os[..|os| - 1]) + (if os[|os| - 1].Emitted? then [os[|os| - 1].page] else [])
  }

  lemma EmittedStep(os: seq<Outcome>, k: nat)
    requires k < |os|
    ensures EmittedPages(os[..k + 1]) == EmittedPages(os[..k]) + (if os[k].Emitted? then [os[k].page] else [])
  {
    assert os[..k + 1][..k] == os[..k];
  }

  /** One turn of the page loop, with the two caught failures: links that
      cannot be read leave the link list empty, a text layer that fails
      leaves the content ''. */
  method ProcessPage(p: PdfPage, i: nat, canvasOk: nat -> bool, upload: (Bytes, nat) -> Option<seq<Option<string>>>,
                     fixed: real -> string) returns (o: Outcome)
    ensures o == PageOutcome(p, i, canvasOk, upload, fixed)
  {
    var vp := p.viewport(ClientScale);
    if !canvasOk(i) {
      return Skipped;
    }
    var raster := p.render(ClientScale);
    if raster.None? {
      return Rejected;
    }
    var blob := raster.value.jpeg;
    if blob.None? {
      return Skipped;
    }
    var uploaded := upload(blob.value, i);
    if uploaded.None? {
      return Rejected;
    }
    var imageSrc := FirstSrc(uploaded.value);
    var links: seq<LinkInfo> := [];
    if p.annotations.Some? {
      links := PageLinks(vp, p.annotations.value, None);
    }
    var textLayerHtml := "";
    var built := BuildTextLayerHtml(vp, p.textContent, links, fixed);
    if built.Success? {
      textLayerHtml := built.value;
    }
    return Emitted(ProcessedPage(imageSrc, textLayerHtml, links, vp.width, vp.height));
  }

  /** processPdfFile over a loaded document (`None`: it does not load). A
      page that rejects rejects the import; otherwise the emitted pages, in
      page order. */
  method ProcessPdfFile(doc: Option<seq<PdfPage>>, canvasOk: nat -> bool, upload: (Bytes, nat) -> Option<seq<Option<string>>>,
                        fixed: real -> string) returns (r: Result<seq<ProcessedPage>>)
    ensures r.Success? <==> doc.Some? && forall k :: 0 <= k < |doc.value| ==> !Outcomes(doc.value, canvasOk, upload, fixed)[k].Rejected?
    ensures r.Success? ==> r.value == EmittedPages(Outcomes(doc.value, canvasOk, upload, fixed))
  {
    if doc.None? {
      return Failure("PDF could not be loaded");
    }
    var pages := doc.value;
    ghost var os := Outcomes(pages, canvasOk, upload, fixed);
    var processed: seq<ProcessedPage> := [];
    for k := 0 to |pages|
      invariant processed == EmittedPages(os[..k])
      invariant forall j :: 0 <= j < k ==> !os[j].Rejected?
    {
      EmittedStep(os, k);
      var o := ProcessPage(pages[k], k + 1, canvasOk, upload, fixed);
      assert o == os[k];
      if o.Rejected? {
        return Failure("page processing failed");
      }
      if o.Emitted? {
        processed := processed + [o.page];
      }
    }
    assert os[..|pages|] == os;
    return Success(processed);
  }

  // ---------------------------------------------------------------------------
  // What the page loop satisfies

  /** The numbers (from 0) of the emitted pages. */
  function EmittedIndices(os: seq<Outcome>): seq<nat>
    decreases |os|
  {
    if os == [] then []
    else EmittedIndices(os[..|os| - 1]) + (if os[|os| - 1].Emitted? then [|os| - 1] else [])
  }

  /** The result holds exactly the emitted pages, each once, in page order:
      the j-th result is the page of the j-th emitted page number, those
      numbers increase, and a page number is among them iff its page is
      emitted. */
  lemma {:induction false} EmittedInOrder(os: seq<Outcome>)
    ensures var r, idx := EmittedPages(os), EmittedIndices(os);
      && |r| == |idx|
      && (forall j :: 0 <= j < |idx| ==> (idx[j] < |os| && os[idx[j]] == Emitted(r[j])))
      && (forall j, j' :: 0 <= j < j' < |idx| ==> idx[j] < idx[j'])
      && (forall k :: 0 <= k < |os| ==> (k in idx <==> os[k].Emitted?))
    decreases |os|
  {
    if os != [] {
      var init := os[..|os| - 1];
      EmittedInOrder(init);
      forall k | 0 <= k < |init| ensures init[k] == os[k] {
      }
    }
  }

  /** An emitted page has the viewport's size, the first uploaded URL (or ''),
      well-formed links without a page index, and a text layer that is '' when
      the text content cannot be read. */
  lemma EmittedPageFacts(p: PdfPage, i: nat, canvasOk: nat -> bool, upload: (Bytes, nat) -> Option<seq<Option<string>>>,
                         fixed: real -> string)
    requires PageOutcome(p, i, canvasOk, upload, fixed).Emitted?
    ensures var pp, vp := PageOutcome(p, i, canvasOk, upload, fixed).page, p.viewport(ClientScale);
      && pp.width == vp.width && pp.height == vp.height
      && (forall l :: l in pp.links ==> l.url != "" && l.pageIndex.None? && l.width >= 0.0 && l.height >= 0.0)
      && (p.annotations.None? ==> pp.links == [])
      && (p.textContent.None? ==> pp.content == "")
  {
    if p.annotations.Some? {
      PageLinksWellFormed(p.viewport(ClientScale), p.annotations.value, None);
    }
  }
}

/** src/utils/htmlGenerator.ts: the browser's generator. Each block becomes a
    row by its type; every link passes the URL allow-list and is escaped.
    Image blocks get overlay anchors at half scale, PDF blocks an image map
    whose coordinates are scaled to 800 pixels and rounded, plus a text layer
    that Outlook is told to skip.

    As for the server generator, a row is modelled by what its template
    interpolates (`Row`), and the text by templates that take the fragments'
    text as a parameter, always `Text` in the generator itself. */
module ClientHtml {
  import opened Common
  import opened Types
  import opened Numbers
  import opened HtmlUtils

  /** Links are in 1600-pixel coordinates; the page shows them at 800. */
  const DisplayScale: real := 0.5

  /** The width the image map's coordinates are scaled to. */
  const MapWidth: real := 800.0

  const DefaultTitle: string := "Newsletter"

  /** `${v}` for an optional string property: an absent one is written 'undefined'. */
  function Interp(v: Option<string>): string {
    if v.Some? then v.value else "undefined"
  }

  /** `v || ''`. */
  function OrEmpty(v: Option<string>): string {
    if Truthy(v) then v.value else ""
  }

  /** What one overlay anchor interpolates; its title is its href. */
  datatype Overlay = Overlay(href: string, left: real, top: real, width: real, height: real)

  /** What one `<area>` interpolates. */
  datatype Area = Area(x1: int, y1: int, x2: int, y2: int, href: string)

  /** What a row interpolates, one variant per template. `layer` is the text
      layer's content when there is one. */
  datatype Row =
    | OverlayRow(src: string, alt: string, overlays: seq<Overlay>)
    | ImageRow(src: string, alt: string, link: string)
    | TextRow(content: string)
    | PdfRow(src: string, mapName: string, layer: Option<string>, areas: seq<Area>)
    | HtmlRow(content: string)
    | NoRow

  lemma {:induction false} EscapeEachNonEmpty(s: string)
    requires s != ""
    ensures EscapeEach(s, true) != ""
  {
    assert |EscapeChar(s[0], true)| > 0;
  }

  /** safeLink: the escaped link when it is a non-empty allowed URL, else ''. */
  function SafeLink(link: Option<string>): (r: string)
    ensures r != "" <==> Truthy(link) && IsValidUrl(link.value)
    ensures r != "" ==> r == EscapeHtml(link.value)
  {
    if Truthy(link) && IsValidUrl(link.value) then
      EscapeHtmlPerChar(link.value);
      EscapeEachNonEmpty(link.value);
      EscapeHtml(link.value)
    else ""
  }

  function OverlayOf(l: LinkInfo): Overlay {
    Overlay(EscapeHtml(l.url), l.x * DisplayScale, l.y * DisplayScale, l.width * DisplayScale, l.height * DisplayScale)
  }

  /** The overlays of the links that pass the allow-list, in order. */
  function ValidOverlays(links: seq<LinkInfo>): seq<Overlay> {
    if links == [] then []
    else (if IsValidUrl(links[0].url) then [OverlayOf(links[0])] else []) + ValidOverlays(links[1..])
  }

  /** `800 / (block.width || 800)`: a missing or zero width means scale 1. */
  function Scale(width: Option<real>): (s: real)
    ensures width.None? || width == Some(0.0) ==> s == 1.0
    ensures width.Some? && width.value != 0.0 ==> s * width.value == MapWidth
  {
    var w := if width.Some? && width.value != 0.0 then width.value else MapWidth;
    MapWidth / w
  }

  /** The rectangle's corners scaled and rounded with Math.round. */
  function AreaOf(l: LinkInfo, scale: real): Area {
    Area(Round(l.x * scale), Round(l.y * scale), Round((l.x + l.width) * scale), Round((l.y + l.height) * scale), EscapeHtml(l.url))
  }

  /** The areas of the links that pass the allow-list, in order. */
  function ValidAreas(links: seq<LinkInfo>, scale: real): seq<Area> {
    if links == [] then []
    else (if IsValidUrl(links[0].url) then [AreaOf(links[0], scale)] else []) + ValidAreas(links[1..], scale)
  }

  /** The row of one block. An image block uses the overlay container when
      the joined overlay text is not empty, and the plain row with the
      optional whole-image link when it is; an unknown type gives no row. */
  function RowOf(b: Block, number: real -> string): Row {
    match b.kind
    case ImageType =>
      var overlays := ValidOverlays(b.links.GetOr([]));
      if OverlaysText(overlays, Text, number) != "" then OverlayRow(Interp(b.src), OrEmpty(b.alt), overlays)
      else ImageRow(Interp(b.src), OrEmpty(b.alt), SafeLink(b.link))
    case TextType => TextRow(Interp(b.content))
    case PdfType =>
      PdfRow(Interp(b.src), "map-" + b.id, if Truthy(b.content) then Some(b.content.value) else None,
        ValidAreas(b.links.GetOr([]), Scale(b.width)))
    case HtmlType => HtmlRow(Interp(b.content))
    case PlaceholderType => NoRow
  }

  /** One row per block, in input order. */
  function Rows(blocks: seq<Block>, number: real -> string): (rows: seq<Row>)
    ensures |rows| == |blocks|
    ensures forall i :: 0 <= i < |blocks| ==> rows[i] == RowOf(blocks[i], number)
  {
    seq(|blocks|, i requires 0 <= i < |blocks| => RowOf(blocks[i], number))
  }

  // ---------------------------------------------------------------------------
  // The text of the templates

  datatype Fragment =
    | LinkOpen | LinkOpenEnd | LinkClose
    | OverlayOpen | OverlayLeft | OverlayTop | OverlayWidth | OverlayHeight | OverlayTitle | OverlayClose
    | OverlayRowOpen | AltAttr | OverlayRowImgEnd | OverlayRowClose
    | ImageRowOpen | ImgSrc | ImgStyle | ImageRowClose
    | TextRowOpen | TextRowClose
    | MsoOpen | LayerOpen | LayerClose | MsoClose
    | AreaOpen | Comma | AreaHref | AreaClose
    | PdfRowOpen | PdfUseMap | PdfImgEnd | MapOpen | MapOpenEnd | PdfRowClose
    | HtmlRowOpen | HtmlRowClose
    | DocOpen | DocStyle | DocClose

  function Text(f: Fragment): string {
    match f
    case LinkOpen => "<a href=\""
    case LinkOpenEnd => "\" target=\"_blank\" style=\"text-decoration: none; display: block;\">"
    case LinkClose => "</a>"
    case OverlayOpen => "\n          <a href=\""
    case OverlayLeft => "\" target=\"_blank\" style=\"\n            position: absolute;\n            left: "
    case OverlayTop => "px;\n            top: "
    case OverlayWidth => "px;\n            width: "
    case OverlayHeight => "px;\n            height: "
    case OverlayTitle => "px;\n            z-index: 10;\n            cursor: pointer;\n          \" title=\""
    case OverlayClose => "\"></a>\n        "
    case OverlayRowOpen => "\n            <tr>\n              <td align=\"center\" style=\"padding: 0;\">\n                <div style=\"position: relative; display: inline-block; width: 100%; max-width: 800px;\">\n                  <img src=\""
    case AltAttr => "\" alt=\""
    case OverlayRowImgEnd => "\" style=\"display: block; width: 100%; max-width: 800px; height: auto; border: 0;\" />\n                  "
    case OverlayRowClose => "\n                </div>\n              </td>\n            </tr>\n          "
    case ImageRowOpen => "\n          <tr>\n            <td align=\"center\" style=\"padding: 0;\">\n              "
    case ImgSrc => "<img src=\""
    case ImgStyle => "\" style=\"display: block; width: 100%; max-width: 800px; height: auto; border: 0;\" />"
    case ImageRowClose => "\n            </td>\n          </tr>\n        "
    case TextRowOpen => "\n          <tr>\n            <td style=\"padding: 20px; font-family: sans-serif; font-size: 16px; line-height: 1.5; color: #333;\">\n              "
    case TextRowClose => "\n            </td>\n          </tr>\n        "
    case MsoOpen => "<!--[if !mso]><!-->"
    case LayerOpen => "<div class=\"textLayer\" style=\"position: absolute; top: 0; left: 0; width: 100%; height: 100%; pointer-events: none;\">"
    case LayerClose => "</div>"
    case MsoClose => "<!--<![endif]-->"
    case AreaOpen => "<area shape=\"rect\" coords=\""
    case Comma => ","
    case AreaHref => "\" href=\""
    case AreaClose => "\" target=\"_blank\" alt=\"Link\" />"
    case PdfRowOpen => "\n            <tr>\n               <td align=\"center\" style=\"padding: 0;\">\n                  <div class=\"pdf-container\" style=\"position: relative; width: 100%; max-width: 800px;\">\n                    <img src=\""
    case PdfUseMap => "\" width=\"800\" usemap=\"#"
    case PdfImgEnd => "\" style=\"width: 100%; height: auto; display: block;\" border=\"0\" />\n                    "
    case MapOpen => "\n                    <map name=\""
    case MapOpenEnd => "\">\n                        "
    case PdfRowClose => "\n                    </map>\n                  </div>\n               </td>\n            </tr>\n          "
    case HtmlRowOpen => "\n            <tr>\n               <td align=\"center\" style=\"padding: 0;\">\n                  "
    case HtmlRowClose => "\n               </td>\n            </tr>\n          "
    case DocOpen => "\n<!DOCTYPE html>\n<html>\n<head>\n  <meta charset=\"utf-8\">\n  <title>"
    case DocStyle => "</title>\n  <style>\n    body { font-family: sans-serif; }\n    /* Minimal PDF Text Layer CSS */\n    .textLayer {\n      position: absolute;\n      text-align: initial;\n      left: 0;\n      top: 0;\n      right: 0;\n      bottom: 0;\n      overflow: hidden;\n      opacity: 0.2; /* Debug: set to 1 to see text, usually transparent */\n      opacity: 1; /* For selection, we want visible selection highlight but transparent text color */\n      line-height: 1.0;\n      pointer-events: none; /* Let clicks pass through to links if any? Text selection needs events. */\n    }\n    .textLayer span {\n      color: transparent;\n      position: absolute;\n      white-space: pre;\n      cursor: text;\n      transform-origin: 0% 0%;\n      pointer-events: auto; /* Allow text selection */\n    }\n    .textLayer ::selection {\n      background: rgba(0, 0, 255, 0.3);\n      color: transparent;\n    }\n    /* Link overlay style */\n    .link-overlay {\n      position: absolute;\n      z-index: 20;\n      cursor: pointer;\n    }\n  </style>\n</head>\n<body style=\"margin: 0; padding: 0; background-color: #f4f4f4;\">\n  <table align=\"center\" border=\"0\" cellpadding=\"0\" cellspacing=\"0\" width=\"100%\" style=\"max-width: 800px; background-color: #ffffff; margin: 0 auto;\">\n    "
    case DocClose => "\n  </table>\n</body>\n</html>\n    "
  }

  function OverlayText(o: Overlay, text: Fragment -> string, number: real -> string): string {
    text(OverlayOpen) + o.href + text(OverlayLeft) + number(o.left) + text(OverlayTop) + number(o.top)
    + text(OverlayWidth) + number(o.width) + text(OverlayHeight) + number(o.height)
    + text(OverlayTitle) + o.href + text(OverlayClose)
  }

  /** `links.map(...).join('')`, the rejected links contributing ''. */
  function OverlaysText(os: seq<Overlay>, text: Fragment -> string, number: real -> string): string {
    if os == [] then "" else OverlayText(os[0], text, number) + OverlaysText(os[1..], text, number)
  }

  function AreaText(a: Area, text: Fragment -> string): string {
    text(AreaOpen) + CoordsText(a, text) + text(AreaHref) + a.href + text(AreaClose)
  }

  /** The coords attribute: the four integers, comma-separated. */
  function CoordsText(a: Area, text: Fragment -> string): string {
    IntToString(a.x1) + text(Comma) + IntToString(a.y1) + text(Comma) + IntToString(a.x2) + text(Comma) + IntToString(a.y2)
  }

  function AreasText(areas: seq<Area>, text: Fragment -> string): string {
    if areas == [] then "" else AreaText(areas[0], text) + AreasText(areas[1..], text)
  }

  /** The text layer: the content wrapped for every client but Outlook, or ''. */
  function LayerText(layer: Option<string>, text: Fragment -> string): string {
    if layer.Some? then text(MsoOpen) + text(LayerOpen) + layer.value + text(LayerClose) + text(MsoClose) else ""
  }

  function RowText(r: Row, text: Fragment -> string, number: real -> string): string {
    match r
    case OverlayRow(src, alt, overlays) =>
      text(OverlayRowOpen) + src + text(AltAttr) + alt + text(OverlayRowImgEnd)
      + OverlaysText(overlays, text, number) + text(OverlayRowClose)
    case ImageRow(src, alt, link) =>
      text(ImageRowOpen) + (if link != "" then text(LinkOpen) + link + text(LinkOpenEnd) else "")
      + text(ImgSrc) + src + text(AltAttr) + alt + text(ImgStyle)
      + (if link != "" then text(LinkClose) else "") + text(ImageRowClose)
    case TextRow(content) => text(TextRowOpen) + content + text(TextRowClose)
    case PdfRow(src, mapName, layer, areas) =>
      text(PdfRowOpen) + src + text(PdfUseMap) + mapName + text(PdfImgEnd) + LayerText(layer, text)
      + text(MapOpen) + mapName + text(MapOpenEnd) + AreasText(areas, text) + text(PdfRowClose)
    case HtmlRow(content) => text(HtmlRowOpen) + content + text(HtmlRowClose)
    case NoRow => ""
  }

  function RowsText(rows: seq<Row>, text: Fragment -> string, number: real -> string): string {
    if rows == [] then "" else RowText(rows[0], text, number) + RowsText(rows[1..], text, number)
  }

  /** The title as interpolated: 'Newsletter' when none is passed. */
  function Title(title: Option<string>): string {
    if title.Some? then title.value else DefaultTitle
  }

  function DocumentText(rows: seq<Row>, title: string, text: Fragment -> string, number: real -> string): string {
    text(DocOpen) + title + text(DocStyle) + RowsText(rows, text, number) + text(DocClose)
  }

  /** generateHtml(blockList, title). */
  function GenerateHtml(blocks: seq<Block>, title: Option<string>, number: real -> string): string {
    DocumentText(Rows(blocks, number), Title(title), Text, number)
  }

  // ---------------------------------------------------------------------------
  // What the rows and the text satisfy

  /** An overlay is kept exactly for each link that passes the allow-list; its
      href is that URL escaped, so it holds no '<', '>' or '"'. */
  lemma {:induction false} ValidOverlaysSpec(links: seq<LinkInfo>, o: Overlay)
    ensures o in ValidOverlays(links) <==>
      exists j :: 0 <= j < |links| && IsValidUrl(links[j].url) && o == OverlayOf(links[j])
    ensures o in ValidOverlays(links) ==> Escaped(o.href)
  {
    if links != [] {
      ValidOverlaysSpec(links[1..], o);
      if exists j :: 0 <= j < |links| - 1 && IsValidUrl(links[1..][j].url) && o == OverlayOf(links[1..][j]) {
        var j :| 0 <= j < |links| - 1 && IsValidUrl(links[1..][j].url) && o == OverlayOf(links[1..][j]);
        assert links[j + 1] == links[1..][j];
      }
      if exists j :: 0 <= j < |links| && IsValidUrl(links[j].url) && o == OverlayOf(links[j]) {
        var j :| 0 <= j < |links| && IsValidUrl(links[j].url) && o == OverlayOf(links[j]);
        if j > 0 {
          assert links[1..][j - 1] == links[j];
        }
      }
      EscapeHtmlSafe(links[0].url);
    }
  }

  /** No overlay at all exactly when no link passes the allow-list. */
  lemma {:induction false} ValidOverlaysEmpty(links: seq<LinkInfo>)
    ensures ValidOverlays(links) == [] <==> forall j :: 0 <= j < |links| ==> !IsValidUrl(links[j].url)
  {
    if links != [] {
      ValidOverlaysEmpty(links[1..]);
      assert forall j :: 1 <= j < |links| ==> links[j] == links[1..][j - 1];
    }
  }

  /** An area is kept exactly for each link that passes the allow-list; its
      corners are the link's, scaled and rounded to the nearest integer; its
      href is the URL escaped. */
  lemma {:induction false} ValidAreasSpec(links: seq<LinkInfo>, scale: real, a: Area)
    ensures a in ValidAreas(links, scale) <==>
      exists j :: 0 <= j < |links| && IsValidUrl(links[j].url) && a == AreaOf(links[j], scale)
    ensures a in ValidAreas(links, scale) ==> Escaped(a.href)
  {
    if links != [] {
      ValidAreasSpec(links[1..], scale, a);
      if exists j :: 0 <= j < |links| - 1 && IsValidUrl(links[1..][j].url) && a == AreaOf(links[1..][j], scale) {
        var j :| 0 <= j < |links| - 1 && IsValidUrl(links[1..][j].url) && a == AreaOf(links[1..][j], scale);
        assert links[j + 1] == links[1..][j];
      }
      if exists j :: 0 <= j < |links| && IsValidUrl(links[j].url) && a == AreaOf(links[j], scale) {
        var j :| 0 <= j < |links| && IsValidUrl(links[j].url) && a == AreaOf(links[j], scale);
        if j > 0 {
          assert links[1..][j - 1] == links[j];
        }
      }
      EscapeHtmlSafe(links[0].url);
    }
  }

  /** Each overlay's text is non-empty, so the joined text is empty exactly
      when there is no overlay. */
  lemma {:induction false} OverlaysTextEmpty(os: seq<Overlay>, text: Fragment -> string, number: real -> string)
    requires text(OverlayOpen) != ""
    ensures OverlaysText(os, text, number) == "" <==> os == []
  {
    if os != [] {
      assert |OverlayText(os[0], text, number)| >= |text(OverlayOpen)|;
    }
  }

  /** An image block takes the overlay container exactly when one of its
      links passes the allow-list; otherwise it takes the plain row, linked
      as a whole only when block.link is an allowed URL. */
  lemma ImageRowChoice(b: Block, number: real -> string)
    requires b.kind == ImageType
    ensures RowOf(b, number).OverlayRow? <==>
      exists j :: 0 <= j < |b.links.GetOr([])| && IsValidUrl(b.links.GetOr([])[j].url)
    ensures !RowOf(b, number).OverlayRow? ==>
      RowOf(b, number).ImageRow? && (RowOf(b, number).link != "" <==> Truthy(b.link) && IsValidUrl(b.link.value))
  {
    assert Text(OverlayOpen) != "" by {
      assert Text(OverlayOpen)[0] == '\n';
    }
    OverlaysTextEmpty(ValidOverlays(b.links.GetOr([])), Text, number);
    ValidOverlaysEmpty(b.links.GetOr([]));
  }

  /** The worked example: on a block 1600 wide the scale is 1/2, and the link
      (200, 200, 200, 200) gets coords "100,100,200,200". */
  lemma AreaExample(url: string)
    ensures var a := AreaOf(LinkInfo(url, 200.0, 200.0, 200.0, 200.0, None), Scale(Some(1600.0)));
      a == Area(100, 100, 200, 200, EscapeHtml(url)) && CoordsText(a, Text) == "100,100,200,200"
  {
    var a := AreaOf(LinkInfo(url, 200.0, 200.0, 200.0, 200.0, None), Scale(Some(1600.0)));
    assert a == Area(100, 100, 200, 200, EscapeHtml(url)) by {
      assert Scale(Some(1600.0)) == 0.5;
      assert Round(100.0) == 100 && Round(200.0) == 200;
    }
    assert Text(Comma) == ",";
    CoordsExample(a, Text);
  }

  lemma CoordsExample(a: Area, text: Fragment -> string)
    requires a.x1 == 100 && a.y1 == 100 && a.x2 == 200 && a.y2 == 200 && text(Comma) == ","
    ensures CoordsText(a, text) == "100,100,200,200"
  {
    Hundreds();
  }

  lemma Hundreds()
    ensures IntToString(100) == "100" && IntToString(200) == "200"
  {
    assert NatToString(1) == "1" && NatToString(2) == "2";
    assert NatToString(10) == "10" && NatToString(20) == "20";
  }

  /** A PDF row always declares its map `map-{id}` and points its image at it,
      whether or not any area survives the allow-list. */
  lemma PdfRowHasMap(b: Block, number: real -> string)
    requires b.kind == PdfType
    ensures RowOf(b, number).PdfRow? && RowOf(b, number).mapName == "map-" + b.id
    ensures var r := RowOf(b, number);
      exists u, v, w ::
        RowText(r, Text, number) == u + Text(PdfUseMap) + r.mapName + v + Text(MapOpen) + r.mapName + Text(MapOpenEnd) + w
  {
    MapDeclared(RowOf(b, number), Text, number);
  }

  lemma MapDeclared(r: Row, text: Fragment -> string, number: real -> string)
    requires r.PdfRow?
    ensures exists u, v, w ::
      RowText(r, text, number) == u + text(PdfUseMap) + r.mapName + v + text(MapOpen) + r.mapName + text(MapOpenEnd) + w
  {
    var u := text(PdfRowOpen) + r.src;
    var v := text(PdfImgEnd) + LayerText(r.layer, text);
    var w := AreasText(r.areas, text) + text(PdfRowClose);
    assert RowText(r, text, number) == u + text(PdfUseMap) + r.mapName + v + text(MapOpen) + r.mapName + text(MapOpenEnd) + w;
  }

  /** The text layer is there exactly when the block's content is a non-empty
      string, and it is always wrapped in `<!--[if !mso]><!-->` ... `<!--<![endif]-->`. */
  lemma PdfLayer(b: Block, number: real -> string)
    requires b.kind == PdfType
    ensures var layer := LayerText(RowOf(b, number).layer, Text);
      && (layer != "" <==> Truthy(b.content))
      && (layer != "" ==> StartsWith(layer, Text(MsoOpen)) && EndsWith(layer, Text(MsoClose)))
  {
    assert Text(MsoOpen)[0] == '<';
    LayerWrapped(RowOf(b, number).layer, Text);
  }

  predicate EndsWith(s: string, suffix: string) {
    |suffix| <= |s| && s[|s| - |suffix|..] == suffix
  }

  lemma LayerWrapped(layer: Option<string>, text: Fragment -> string)
    ensures layer.Some? ==> StartsWith(LayerText(layer, text), text(MsoOpen)) && EndsWith(LayerText(layer, text), text(MsoClose))
    ensures layer.Some? ==> |LayerText(layer, text)| >= |text(MsoOpen)|
  {
    if layer.Some? {
      var t := LayerText(layer, text);
      var rest := text(LayerOpen) + layer.value + text(LayerClose);
      assert t == text(MsoOpen) + (rest + text(MsoClose));
      assert t[..|text(MsoOpen)|] == text(MsoOpen);
      assert t == (text(MsoOpen) + rest) + text(MsoClose);
    }
  }

  /** The document opens with the head and the title, unescaped, 'Newsletter'
      when none is given; a placeholder block contributes nothing. */
  lemma DocumentTitle(blocks: seq<Block>, title: Option<string>, number: real -> string)
    ensures StartsWith(GenerateHtml(blocks, title, number), Text(DocOpen) + Title(title))
    ensures title.None? ==> Title(title) == "Newsletter"
    ensures forall i :: 0 <= i < |blocks| && blocks[i].kind == PlaceholderType ==>
      RowText(Rows(blocks, number)[i], Text, number) == ""
  {
    TitleFirst(Rows(blocks, number), Title(title), Text, number);
  }

  lemma TitleFirst(rows: seq<Row>, title: string, text: Fragment -> string, number: real -> string)
    ensures StartsWith(DocumentText(rows, title, text, number), text(DocOpen) + title)
  {
    var p := text(DocOpen) + title;
    var body := RowsText(rows, text, number);
    var q := text(DocStyle) + body + text(DocClose);
    ConcatAssoc3(p, text(DocStyle), body, text(DocClose));
    assert (p + q)[..|p|] == p;
  }

  lemma ConcatAssoc3(p: string, a: string, b: string, c: string)
    ensures p + a + b + c == p + (a + b + c)
  {
  }
}

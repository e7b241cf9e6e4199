/** server/lib/html-generator.ts: the older server-side generator. Every block
    becomes one image row with its links as transparent overlays at half
    scale; no URL is checked or escaped.

    The document is modelled in two layers: what each template interpolates
    (`Row`, `Overlay`), and the text the templates make of it. A JavaScript
    number is written by the `number` parameter; Buffer's base64 encoder is
    the `base64` parameter. */
module ServerHtml {
  import opened Common
  import opened Types

  /** A block as the generator reads it: an optional PNG buffer, an optional
      URL of the stored image, and optional links. Its type is not read. */
  datatype ServedBlock = ServedBlock(buffer: Option<Bytes>, imageUrl: Option<string>, links: Option<seq<LinkInfo>>)

  /** Links are in 1600-pixel coordinates; the page shows them at 800. */
  const DisplayScale: real := 0.5

  const DataPrefix: string := "data:image/png;base64,"

  /** What one overlay anchor interpolates. */
  datatype Overlay = Overlay(href: string, left: real, top: real, width: real, height: real, title: string)

  /** What one row interpolates: the image source and the overlays. */
  datatype Row = Row(src: string, overlays: seq<Overlay>)

  /** The image source: the stored URL when it is a non-empty string, else
      the buffer as a base64 data URI, else ''. */
  function Src(b: ServedBlock, base64: Bytes -> string): (src: string)
    ensures Truthy(b.imageUrl) ==> src == b.imageUrl.value
    ensures !Truthy(b.imageUrl) && b.buffer.Some? ==> src == DataPrefix + base64(b.buffer.value)
    ensures !Truthy(b.imageUrl) && b.buffer.None? ==> src == ""
  {
    var fallback := if b.buffer.Some? then DataPrefix + base64(b.buffer.value) else "";
    if Truthy(b.imageUrl) then b.imageUrl.value else fallback
  }

  function OverlayOf(l: LinkInfo): Overlay {
    Overlay(l.url, l.x * DisplayScale, l.y * DisplayScale, l.width * DisplayScale, l.height * DisplayScale, l.url)
  }

  /** One overlay per link, in order: the URL as it is in href and title, and
      the rectangle at half scale. */
  function Overlays(links: seq<LinkInfo>): (os: seq<Overlay>)
    ensures |os| == |links|
    ensures forall j :: 0 <= j < |links| ==>
      && os[j].href == links[j].url && os[j].title == links[j].url
      && os[j].left == links[j].x / 2.0 && os[j].top == links[j].y / 2.0
      && os[j].width == links[j].width / 2.0 && os[j].height == links[j].height / 2.0
  {
    seq(|links|, j requires 0 <= j < |links| => OverlayOf(links[j]))
  }

  function RowOf(b: ServedBlock, base64: Bytes -> string): Row {
    Row(Src(b, base64), Overlays(b.links.GetOr([])))
  }

  /** One row per block, in input order, whatever the block; a block without
      links has no overlay. */
  function Rows(blocks: seq<ServedBlock>, base64: Bytes -> string): (rows: seq<Row>)
    ensures |rows| == |blocks|
    ensures forall i :: 0 <= i < |blocks| ==>
      && rows[i].src == Src(blocks[i], base64)
      && |rows[i].overlays| == |blocks[i].links.GetOr([])|
      && (blocks[i].links.None? ==> rows[i].overlays == [])
  {
    seq(|blocks|, i requires 0 <= i < |blocks| => RowOf(blocks[i], base64))
  }

  // ---------------------------------------------------------------------------
  // The text of the templates

  /** The fixed text between interpolations; a long stretch is cut where a
      property speaks of its parts. */
  datatype Fragment =
    | AnchorOpen | AnchorLeft | AnchorTop | AnchorWidth | AnchorHeight | AnchorTitle | AnchorClose
    | RowOpen | RowImgEnd | RowClose
    | DocType | DocHead | DocBody | DocClose

  function Text(f: Fragment): string {
    match f
    case AnchorOpen => "\n        <a href=\""
    case AnchorLeft => "\" target=\"_blank\" style=\"\n          position: absolute;\n          left: "
    case AnchorTop => "px;\n          top: "
    case AnchorWidth => "px;\n          width: "
    case AnchorHeight => "px;\n          height: "
    case AnchorTitle => "px;\n          z-index: 10;\n          cursor: pointer;\n          background-color: rgba(0,0,0,0); /* transparent clickable area */\n        \" title=\""
    case AnchorClose => "\"></a>\n      "
    case RowOpen => "\n      <tr>\n        <td align=\"center\" style=\"padding: 0;\">\n          <div style=\"position: relative; width: 100%; max-width: 800px; margin: 0 auto;\">\n            <img src=\""
    case RowImgEnd => "\" alt=\"\" style=\"display: block; width: 100%; max-width: 800px; height: auto; border: 0;\" />\n            "
    case RowClose => "\n          </div>\n        </td>\n      </tr>\n    "
    case DocType => "\n<!DOCTYPE html>"
    case DocHead => "\n<html>\n<head>\n  <meta charset=\"utf-8\">\n  <title>Newsletter</title>"
    case DocBody => "\n</head>\n<body style=\"margin: 0; padding: 0; background-color: #f4f4f4;\">\n  <table align=\"center\" border=\"0\" cellpadding=\"0\" cellspacing=\"0\" width=\"100%\" style=\"max-width: 800px; background-color: #ffffff; margin: 0 auto;\">\n    "
    case DocClose => "\n  </table>\n</body>\n</html>\n  "
  }

  /** The templates below take the fragments' text as `text` (always `Text`),
      so that what is proved of them holds whatever that text is. */
  function OverlayText(o: Overlay, text: Fragment -> string, number: real -> string): string {
    text(AnchorOpen) + o.href + text(AnchorLeft) + number(o.left) + text(AnchorTop) + number(o.top)
    + text(AnchorWidth) + number(o.width) + text(AnchorHeight) + number(o.height)
    + text(AnchorTitle) + o.title + text(AnchorClose)
  }

  /** `links.map(...).join('')`. */
  function OverlaysText(os: seq<Overlay>, text: Fragment -> string, number: real -> string): string {
    if os == [] then "" else OverlayText(os[0], text, number) + OverlaysText(os[1..], text, number)
  }

  function RowText(r: Row, text: Fragment -> string, number: real -> string): string {
    text(RowOpen) + r.src + text(RowImgEnd) + OverlaysText(r.overlays, text, number) + text(RowClose)
  }

  function RowsText(rows: seq<Row>, text: Fragment -> string, number: real -> string): string {
    if rows == [] then "" else RowText(rows[0], text, number) + RowsText(rows[1..], text, number)
  }

  function DocumentText(rows: seq<Row>, text: Fragment -> string, number: real -> string): string {
    text(DocType) + text(DocHead) + text(DocBody) + RowsText(rows, text, number) + text(DocClose)
  }

  /** generateHtml: the fixed document around one row per block. */
  function GenerateHtml(blocks: seq<ServedBlock>, base64: Bytes -> string, number: real -> string): string {
    DocumentText(Rows(blocks, base64), Text, number)
  }

  // ---------------------------------------------------------------------------
  // What the text satisfies

  /** The document opens with the doctype, then the head with the fixed title
      'Newsletter', and ends by closing the table, body and document. */
  lemma DocumentFrame(blocks: seq<ServedBlock>, base64: Bytes -> string, number: real -> string)
    ensures StartsWith(GenerateHtml(blocks, base64, number), Text(DocType) + Text(DocHead))
    ensures var h := GenerateHtml(blocks, base64, number);
      |Text(DocClose)| <= |h| && h[|h| - |Text(DocClose)|..] == Text(DocClose)
  {
    FrameOf(Rows(blocks, base64), Text, number);
  }

  lemma FrameOf(rows: seq<Row>, text: Fragment -> string, number: real -> string)
    ensures StartsWith(DocumentText(rows, text, number), text(DocType) + text(DocHead))
    ensures var h, c := DocumentText(rows, text, number), text(DocClose);
      |c| <= |h| && h[|h| - |c|..] == c
  {
    var h := DocumentText(rows, text, number);
    var p := text(DocType) + text(DocHead);
    var mid := text(DocBody) + RowsText(rows, text, number);
    assert h == p + (mid + text(DocClose));
    assert h[..|p|] == p;
    assert h == (p + mid) + text(DocClose);
  }

  /** A block without links gives a row with no anchor at all: just the image. */
  lemma NoLinksNoAnchor(b: ServedBlock, base64: Bytes -> string, number: real -> string)
    requires b.links.GetOr([]) == []
    ensures RowText(RowOf(b, base64), Text, number)
      == Text(RowOpen) + Src(b, base64) + Text(RowImgEnd) + Text(RowClose)
  {
    assert RowOf(b, base64).overlays == [];
  }

  /** No allow-list and no escaping: whatever the URL, even 'javascript:', the
      overlay's text carries it right after `<a href="`, and again as its title. */
  lemma OverlayKeepsAnyUrl(l: LinkInfo, number: real -> string)
    ensures StartsWith(OverlayText(OverlayOf(l), Text, number), Text(AnchorOpen) + l.url)
    ensures var t, tail := OverlayText(OverlayOf(l), Text, number), Text(AnchorTitle) + l.url + Text(AnchorClose);
      |tail| <= |t| && t[|t| - |tail|..] == tail
  {
    UrlInOverlay(OverlayOf(l), Text, number);
  }

  lemma UrlInOverlay(o: Overlay, text: Fragment -> string, number: real -> string)
    ensures StartsWith(OverlayText(o, text, number), text(AnchorOpen) + o.href)
    ensures var t, tail := OverlayText(o, text, number), text(AnchorTitle) + o.title + text(AnchorClose);
      |tail| <= |t| && t[|t| - |tail|..] == tail
  {
    var t := OverlayText(o, text, number);
    var p := text(AnchorOpen) + o.href;
    var mid := text(AnchorLeft) + number(o.left) + text(AnchorTop) + number(o.top)
      + text(AnchorWidth) + number(o.width) + text(AnchorHeight) + number(o.height);
    var tail := text(AnchorTitle) + o.title + text(AnchorClose);
    assert t == p + (mid + tail);
    assert t[..|p|] == p;
    assert t == (p + mid) + tail;
  }
}

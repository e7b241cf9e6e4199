/** server/lib/pdf-structure-parser.ts, the per-item steps of parsePdf: link
    extraction, text-item normalisation, centre-hit link embedding, tag
    stripping and the sort by y. */
module ParserText {
  import opened Common
  import opened Types
  import opened Geometry
  import opened PdfJs
  import opened HtmlUtils

  // ---------------------------------------------------------------------------
  // Links

  /** One link as parsePdf builds it: top-left corner by Math.min, extent by Math.abs. */
  function ExtractedLink(vp: Viewport, a: Annotation, pageIndex: int): LinkInfo {
    var r := ToViewportRect(vp, a.rect);
    LinkInfo(a.url, Min(r.x1, r.x2), Min(r.y1, r.y2), Abs(r.x2 - r.x1), Abs(r.y2 - r.y1), Some(pageIndex))
  }

  /** The min/abs form agrees with the min/max normalisation of the converter. */
  lemma ExtractedLinkNormalized(vp: Viewport, a: Annotation, pageIndex: int)
    ensures ExtractedLink(vp, a, pageIndex) == NormalizeCorners(a.url, ToViewportRect(vp, a.rect), Some(pageIndex))
  {
  }

  /** The page's links: the URL link annotations, in order, extracted one by one. */
  function ExtractLinks(vp: Viewport, anns: seq<Annotation>, pageIndex: int): (r: seq<LinkInfo>)
    ensures r == PageLinks(vp, anns, Some(pageIndex))
  {
    var f := UrlLinks(anns);
    var r := seq(|f|, j requires 0 <= j < |f| => ExtractedLink(vp, f[j], pageIndex));
    forall j | 0 <= j < |f|
      ensures r[j] == NormalizeCorners(f[j].url, ToViewportRect(vp, f[j].rect), Some(pageIndex))
    {
      ExtractedLinkNormalized(vp, f[j], pageIndex);
    }
    r
  }

  // ---------------------------------------------------------------------------
  // Text items

  /** A text item in viewport coordinates: `y` is its top, `bottom` its baseline. */
  datatype NormItem = NormItem(text: string, x: real, y: real, bottom: real, width: real, height: real)

  /** The `textContent.items.map` step: the baseline origin mapped through the
      viewport, the font size scaled, the top placed one font size above the baseline. */
  function NormalizeItem(vp: Viewport, it: TextContentItem): (r: NormItem)
    requires it.TextItem?
    ensures r.text == it.str && r.y + r.height == r.bottom
    ensures r.x == ToViewportPoint(vp, it.transform.e, it.transform.f).x
    ensures r.bottom == ToViewportPoint(vp, it.transform.e, it.transform.f).y
    ensures r.height == it.fontSize * vp.scale && r.width == it.width * vp.scale
  {
    var p := ToViewportPoint(vp, it.transform.e, it.transform.f);
    var fs := it.fontSize * vp.scale;
    NormItem(it.str, p.x, p.y - fs, p.y, it.width * vp.scale, fs)
  }

  // ---------------------------------------------------------------------------
  // Link embedding

  /** The link rectangle contains the point, edges included. */
  predicate Contains(l: LinkInfo, cx: real, cy: real) {
    cx >= l.x && cx <= l.x + l.width && cy >= l.y && cy <= l.y + l.height
  }

  /** `links.find(...)`, as the index of the first link containing the point. */
  function FindLink(links: seq<LinkInfo>, cx: real, cy: real): (r: Option<nat>)
    ensures r.Some? ==> r.value < |links| && Contains(links[r.value], cx, cy)
    ensures r.Some? ==> forall j :: 0 <= j < r.value ==> !Contains(links[j], cx, cy)
    ensures r.None? ==> forall j :: 0 <= j < |links| ==> !Contains(links[j], cx, cy)
  {
    if links == [] then None
    else if Contains(links[0], cx, cy) then Some(0)
    else match FindLink(links[1..], cx, cy)
      case None => None
      case Some(j) => Some(j + 1)
  }

  /** The three replacements of the embedded text: '&', then '<', then '>'. */
  function EscapeText(s: string): string {
    ReplaceAll(ReplaceAll(ReplaceAll(s, '&', "&amp;"), '<', "&lt;"), '>', "&gt;")
  }

  lemma EscapeTextConcat(a: string, b: string)
    ensures EscapeText(a + b) == EscapeText(a) + EscapeText(b)
  {
    var s1a, s1b := ReplaceAll(a, '&', "&amp;"), ReplaceAll(b, '&', "&amp;");
    ReplaceAllConcat(a, b, '&', "&amp;");
    var s2a, s2b := ReplaceAll(s1a, '<', "&lt;"), ReplaceAll(s1b, '<', "&lt;");
    ReplaceAllConcat(s1a, s1b, '<', "&lt;");
    ReplaceAllConcat(s2a, s2b, '>', "&gt;");
  }

  lemma EscapeTextChar(c: char)
    ensures EscapeText([c]) == EscapeChar(c, false)
  {
    assert ReplaceAll([c], '&', "&amp;") == if c == '&' then "&amp;" else [c];
    if c == '&' {
      assert '<' !in "&amp;" && '>' !in "&amp;";
    } else if c == '<' {
      assert '>' !in "&lt;";
    }
  }

  /** The chained replacements escape each character on its own ('"' is left as is). */
  lemma {:induction false} EscapeTextPerChar(s: string)
    ensures EscapeText(s) == EscapeEach(s, false)
  {
    if s != [] {
      assert s == [s[0]] + s[1..];
      EscapeTextConcat([s[0]], s[1..]);
      EscapeTextChar(s[0]);
      EscapeTextPerChar(s[1..]);
    }
  }

  /** Escaped link text has no angle brackets and decodes back to the original. */
  lemma EscapeTextFacts(s: string)
    ensures '<' !in EscapeText(s) && '>' !in EscapeText(s)
    ensures UnescapeHtml(EscapeText(s)) == s
  {
    EscapeTextPerChar(s);
    EscapeEachNoAngle(s, false);
    UnescapeEscapeEach(s, false);
  }

  const AnchorStyle: string := "\" style=\"color: blue; " + "text-decoration: underline;\""

  function AnchorHtml(url: string, text: string): string {
    "<a href=\"" + url + AnchorStyle + ">" + text + "</a>"
  }

  /** A text item whose centre lies in a link becomes an anchor to the first
      such link around its escaped text; any other item is left as it is. */
  function Embed(item: NormItem, links: seq<LinkInfo>): NormItem {
    var cx := item.x + item.width / 2.0;
    var cy := item.y + item.height / 2.0;
    match FindLink(links, cx, cy)
    case None => item
    case Some(j) => item.(text := AnchorHtml(links[j].url, EscapeText(item.text)))
  }

  /** Embedding rewrites the text only: the item keeps its place and size, and
      its text changes exactly when some link contains its centre. */
  lemma EmbedFacts(item: NormItem, links: seq<LinkInfo>)
    ensures var e := Embed(item, links);
      && e.x == item.x && e.y == item.y && e.bottom == item.bottom
      && e.width == item.width && e.height == item.height
      && ((exists j :: 0 <= j < |links| && Contains(links[j], item.x + item.width / 2.0, item.y + item.height / 2.0))
          <==> e.text != item.text)
  {
    var cx := item.x + item.width / 2.0;
    var cy := item.y + item.height / 2.0;
    match FindLink(links, cx, cy)
    case None =>
    case Some(j) =>
      var a := AnchorHtml(links[j].url, EscapeText(item.text));
      EscapeTextPerChar(item.text);
      EscapeEachLonger(item.text, false);
      assert |a| > |item.text|;
  }

  lemma {:induction false} EscapeEachLonger(s: string, quote: bool)
    ensures |EscapeEach(s, quote)| >= |s|
  {
    if s != [] {
      EscapeEachLonger(s[1..], quote);
    }
  }

  /** The embedding loop of parsePdf, rewriting the items one by one. */
  method EmbedLinks(items: seq<NormItem>, links: seq<LinkInfo>) returns (out: seq<NormItem>)
    ensures |out| == |items|
    ensures forall k :: 0 <= k < |items| ==> out[k] == Embed(items[k], links)
  {
    out := items;
    for k := 0 to |out|
      invariant |out| == |items|
      invariant forall j :: 0 <= j < k ==> out[j] == Embed(items[j], links)
      invariant forall j :: k <= j < |items| ==> out[j] == items[j]
    {
      out := out[k := Embed(out[k], links)];
    }
  }

  // ---------------------------------------------------------------------------
  // Tag stripping and blank items

  /** `s.replace(/<[^>]*>/g, '')`: each '<' up to the first '>' after it is
      removed; a '<' with no '>' after it, and everything after, stays. */
  function StripTags(s: string): string
    decreases |s|
  {
    if s == [] then []
    else if s[0] == '<' then
      match IndexOf(s, ">")
      case Some(k) => StripTags(s[k + 1..])
      case None => s
    else [s[0]] + StripTags(s[1..])
  }

  /** The grouping loop skips an item whose text is blank once tags are stripped. */
  predicate IsBlank(text: string) {
    Trim(StripTags(text)) == ""
  }

  lemma {:induction false} StripTagsPlain(t: string, x: string)
    requires '<' !in t
    ensures StripTags(t + x) == t + StripTags(x)
  {
    if t != [] {
      assert (t + x)[1..] == t[1..] + x;
      StripTagsPlain(t[1..], x);
    } else {
      assert t + x == x;
    }
  }

  /** The first '>' of p + ">" + rest is the one after p when p has none. */
  lemma IndexOfFirstClose(p: string, rest: string)
    requires '>' !in p
    ensures IndexOf(p + ">" + rest, ">") == Some(|p|)
  {
    var s := p + ">" + rest;
    assert s[|p|..][..1] == ">";
    assert StartsWith(s[|p|..], ">");
    match IndexOf(s, ">")
    case None =>
    case Some(k) =>
      assert s[k] == s[k..k + 1][0] == '>';
      forall j | 0 <= j < |p| ensures s[j] != '>' {
        assert s[j] == p[j];
      }
  }

  /** A tag is removed whole: what follows its '>' is stripped in turn. */
  lemma StripTagAt(p: string, rest: string)
    requires p != [] && p[0] == '<' && '>' !in p
    ensures StripTags(p + ">" + rest) == StripTags(rest)
  {
    var s := p + ">" + rest;
    IndexOfFirstClose(p, rest);
    assert s[0] == '<';
    assert s[|p| + 1..] == rest;
  }

  /** Once a link is embedded, the visible text (tags stripped) is the escaped
      original, provided the URL itself holds no '>'. */
  lemma StripAnchor(url: string, text: string)
    requires '>' !in url
    ensures StripTags(AnchorHtml(url, EscapeText(text))) == EscapeText(text)
  {
    var t := EscapeText(text);
    EscapeTextFacts(text);
    var p := AnchorOpen(url);
    StripTagAt(p, t + "</a>");
    StripTagsPlain(t, "</a>");
    StripClosingTag();
  }

  function AnchorOpen(url: string): (p: string)
    requires '>' !in url
    ensures p != [] && p[0] == '<' && '>' !in p
    ensures forall t :: AnchorHtml(url, t) == p + ">" + (t + "</a>")
  {
    assert '>' !in "\" style=\"color: blue; " && '>' !in "text-decoration: underline;\"";
    "<a href=\"" + url + AnchorStyle
  }

  lemma StripClosingTag()
    ensures StripTags("</a>") == []
  {
    StripTagAt("</a", []);
    assert "</a" + ">" + [] == "</a>";
  }

  /** Every character of an all-whitespace string stays whitespace when escaped. */
  lemma {:induction false} EscapeTextBlank(s: string)
    ensures AllWhitespace(EscapeText(s)) <==> AllWhitespace(s)
  {
    EscapeTextPerChar(s);
    EscapeEachWhitespace(s);
  }

  lemma {:induction false} EscapeEachWhitespace(s: string)
    ensures AllWhitespace(EscapeEach(s, false)) <==> AllWhitespace(s)
  {
    if s != [] {
      EscapeEachWhitespace(s[1..]);
      var e, rest := EscapeChar(s[0], false), EscapeEach(s[1..], false);
      assert EscapeEach(s, false) == e + rest;
      assert (e + rest)[0] == e[0];
      if AllWhitespace(s) {
        assert AllWhitespace(s[1..]) by {
          forall i | 0 <= i < |s[1..]| ensures IsJsWhitespace(s[1..][i]) { assert s[1..][i] == s[i + 1]; }
        }
        assert e == [s[0]];
        forall i | 0 <= i < |e + rest| ensures IsJsWhitespace((e + rest)[i]) {
          if i > 0 { assert (e + rest)[i] == rest[i - 1]; }
        }
      }
      if AllWhitespace(e + rest) {
        assert IsJsWhitespace(e[0]);
        assert e == [s[0]];
        assert AllWhitespace(rest) by {
          forall i | 0 <= i < |rest| ensures IsJsWhitespace(rest[i]) { assert rest[i] == (e + rest)[i + 1]; }
        }
        forall i | 0 <= i < |s| ensures IsJsWhitespace(s[i]) {
          if i > 0 { assert s[i] == s[1..][i - 1]; }
        }
      }
    }
  }

  /** A linked item is blank exactly when its original text is all whitespace. */
  lemma LinkedItemBlank(url: string, text: string)
    requires '>' !in url
    ensures IsBlank(AnchorHtml(url, EscapeText(text))) <==> AllWhitespace(text)
  {
    StripAnchor(url, text);
    TrimEmptyIffBlank(EscapeText(text));
    EscapeTextBlank(text);
  }

  // ---------------------------------------------------------------------------
  // Sorting by y

  /** Inserts an item before the first item that is not above it. */
  function InsertByY(x: NormItem, s: seq<NormItem>): seq<NormItem> {
    if s == [] || x.y <= s[0].y then [x] + s else [s[0]] + InsertByY(x, s[1..])
  }

  /** `textItems.sort((a, b) => a.y - b.y)`, a stable sort. */
  function SortByY(s: seq<NormItem>): seq<NormItem> {
    if s == [] then [] else InsertByY(s[0], SortByY(s[1..]))
  }

  predicate SortedByY(s: seq<NormItem>) {
    forall i, j :: 0 <= i < j < |s| ==> s[i].y <= s[j].y
  }

  lemma InsertByYFacts(x: NormItem, s: seq<NormItem>)
    requires SortedByY(s)
    ensures SortedByY(InsertByY(x, s))
    ensures multiset(InsertByY(x, s)) == multiset(s) + multiset{x}
  {
    InsertByYSorted(x, s);
    InsertByYPermutes(x, s);
  }

  lemma {:induction false} InsertByYSorted(x: NormItem, s: seq<NormItem>)
    requires SortedByY(s)
    ensures SortedByY(InsertByY(x, s))
  {
    if s != [] && x.y > s[0].y {
      var t := s[1..];
      assert SortedByY(t);
      InsertByYSorted(x, t);
      InsertByYLowerBound(s[0].y, x, t);
      var r := InsertByY(x, t);
      assert InsertByY(x, s) == [s[0]] + r;
      assert forall i :: 0 < i < |[s[0]] + r| ==> ([s[0]] + r)[i] == r[i - 1];
    }
  }

  lemma {:induction false} InsertByYPermutes(x: NormItem, s: seq<NormItem>)
    ensures multiset(InsertByY(x, s)) == multiset(s) + multiset{x}
  {
    if s != [] && x.y > s[0].y {
      InsertByYPermutes(x, s[1..]);
      assert InsertByY(x, s) == [s[0]] + InsertByY(x, s[1..]);
      assert s == [s[0]] + s[1..];
    }
  }

  /** Inserting an item no higher than v into items no higher than v gives items no higher than v. */
  lemma {:induction false} InsertByYLowerBound(v: real, x: NormItem, s: seq<NormItem>)
    requires v <= x.y && forall i :: 0 <= i < |s| ==> v <= s[i].y
    ensures forall i :: 0 <= i < |InsertByY(x, s)| ==> v <= InsertByY(x, s)[i].y
  {
    if s != [] && x.y > s[0].y {
      InsertByYLowerBound(v, x, s[1..]);
      var r := InsertByY(x, s[1..]);
      assert InsertByY(x, s) == [s[0]] + r;
    }
  }

  /** The sort returns the items ordered by y, as a permutation of its input. */
  lemma {:induction false} SortByYFacts(s: seq<NormItem>)
    ensures SortedByY(SortByY(s))
    ensures multiset(SortByY(s)) == multiset(s)
  {
    if s != [] {
      SortByYFacts(s[1..]);
      InsertByYFacts(s[0], SortByY(s[1..]));
      assert s == [s[0]] + s[1..];
    }
  }
}

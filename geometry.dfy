/** The pdf.js viewport: the affine map from PDF user space (origin bottom-left,
    y up) to canvas pixels (origin top-left, y down), and link-rectangle
    normalisation from two arbitrary corners. */
module Geometry {
  import opened Common
  import opened Types

  /** The matrix [a, b, c, d, e, f] of a viewport: (x, y) maps to (a x + c y + e, b x + d y + f). */
  datatype Transform = Transform(a: real, b: real, c: real, d: real, e: real, f: real)

  datatype Viewport = Viewport(transform: Transform, width: real, height: real, scale: real)

  datatype Point = Point(x: real, y: real)

  /** viewport.convertToViewportPoint(x, y). */
  function ToViewportPoint(vp: Viewport, x: real, y: real): Point {
    var m := vp.transform;
    Point(m.a * x + m.c * y + m.e, m.b * x + m.d * y + m.f)
  }

  /** A PDF annotation as pdf.js reports it; `url` is "" when the annotation has none. */
  datatype Annotation = Annotation(subtype: string, url: string, rect: Rect4)

  /** A rectangle as [x1, y1, x2, y2]: two opposite corners in no particular order. */
  datatype Rect4 = Rect4(x1: real, y1: real, x2: real, y2: real)

  /** viewport.convertToViewportRectangle(rect): both corners mapped, order kept. */
  function ToViewportRect(vp: Viewport, r: Rect4): Rect4 {
    var p := ToViewportPoint(vp, r.x1, r.y1);
    var q := ToViewportPoint(vp, r.x2, r.y2);
    Rect4(p.x, p.y, q.x, q.y)
  }

  /** Only link annotations that carry a URL become links. */
  predicate IsUrlLink(a: Annotation) {
    a.subtype == "Link" && a.url != ""
  }

  /** The min/max normalisation: top-left corner and non-negative extent. */
  function NormalizeCorners(url: string, r: Rect4, pageIndex: Option<int>): (l: LinkInfo)
    ensures l.url == url && l.pageIndex == pageIndex
    ensures l.x == Min(r.x1, r.x2) && l.y == Min(r.y1, r.y2)
    ensures l.width >= 0.0 && l.height >= 0.0
    ensures l.x + l.width == Max(r.x1, r.x2) && l.y + l.height == Max(r.y1, r.y2)
  {
    var xMin := Min(r.x1, r.x2);
    var xMax := Max(r.x1, r.x2);
    var yMin := Min(r.y1, r.y2);
    var yMax := Max(r.y1, r.y2);
    LinkInfo(url, xMin, yMin, xMax - xMin, yMax - yMin, pageIndex)
  }

  /** Which corner comes first does not matter. */
  lemma NormalizeCornersSymmetric(url: string, r: Rect4, pageIndex: Option<int>)
    ensures NormalizeCorners(url, Rect4(r.x2, r.y2, r.x1, r.y1), pageIndex) == NormalizeCorners(url, r, pageIndex)
  {
  }

  /** `.filter(a => a.subtype === 'Link' && a.url)`, order kept. */
  function UrlLinks(anns: seq<Annotation>): (r: seq<Annotation>)
    ensures |r| <= |anns|
    ensures forall j :: 0 <= j < |r| ==> IsUrlLink(r[j]) && r[j] in anns
  {
    if anns == [] then []
    else (if IsUrlLink(anns[0]) then [anns[0]] else []) + UrlLinks(anns[1..])
  }

  /** The filter distributes over concatenation: the kept annotations of a
      list come in the list's order. */
  lemma {:induction false} UrlLinksAppend(a: seq<Annotation>, b: seq<Annotation>)
    ensures UrlLinks(a + b) == UrlLinks(a) + UrlLinks(b)
  {
    if a == [] {
      assert a + b == b;
    } else {
      assert (a + b)[0] == a[0] && (a + b)[1..] == a[1..] + b;
      UrlLinksAppend(a[1..], b);
      var head := if IsUrlLink(a[0]) then [a[0]] else [];
      calc {
        UrlLinks(a + b);
        head + UrlLinks(a[1..] + b);
        head + (UrlLinks(a[1..]) + UrlLinks(b));
        (head + UrlLinks(a[1..])) + UrlLinks(b);
      }
    }
  }

  /** The filter drops no link annotation that has a URL. */
  lemma {:induction false} UrlLinksComplete(anns: seq<Annotation>, a: Annotation)
    requires a in anns && IsUrlLink(a)
    ensures a in UrlLinks(anns)
  {
    if anns[0] != a {
      UrlLinksComplete(anns[1..], a);
    }
  }

  /** The per-page link list: every URL link annotation, in order, mapped into
      the viewport and normalised, tagged with the page it came from. */
  function PageLinks(vp: Viewport, anns: seq<Annotation>, pageIndex: Option<int>): (r: seq<LinkInfo>)
    ensures |r| == |UrlLinks(anns)|
    ensures forall j :: 0 <= j < |r| ==>
      r[j] == NormalizeCorners(UrlLinks(anns)[j].url, ToViewportRect(vp, UrlLinks(anns)[j].rect), pageIndex)
  {
    var f := UrlLinks(anns);
    seq(|f|, j requires 0 <= j < |f| => NormalizeCorners(f[j].url, ToViewportRect(vp, f[j].rect), pageIndex))
  }

  /** What every such link satisfies: a non-empty URL from a 'Link' annotation,
      the page index it was given, and a non-negative extent. */
  lemma PageLinksWellFormed(vp: Viewport, anns: seq<Annotation>, pageIndex: Option<int>)
    ensures forall l :: l in PageLinks(vp, anns, pageIndex) ==>
      l.url != "" && l.pageIndex == pageIndex && l.width >= 0.0 && l.height >= 0.0
  {
    var r := PageLinks(vp, anns, pageIndex);
    forall l | l in r
      ensures l.url != "" && l.pageIndex == pageIndex && l.width >= 0.0 && l.height >= 0.0
    {
      var j :| 0 <= j < |r| && r[j] == l;
      assert IsUrlLink(UrlLinks(anns)[j]);
    }
  }
}

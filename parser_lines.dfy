/** server/lib/pdf-structure-parser.ts: joining the items of one region into
    lines, each line becoming one paragraph of the region's text block. */
module ParserLines {
  import opened Common
  import opened ParserText

  /** An item continues the current line when its top is within 8 of the line's first top. */
  const LineTolerance: real := 8.0

  function Paragraph(text: string): string {
    "<p style=\"margin: 0; line-height: 1.4;\">" + text + "</p>"
  }

  // ---------------------------------------------------------------------------
  // The lines, as the loop is meant to find them

  predicate SameLine(first: NormItem, it: NormItem) {
    Abs(it.y - first.y) < LineTolerance
  }

  /** The items split into lines, one item at a time: an item continues the
      last line when it is on the same line as that line's first item. */
  function Lines(items: seq<NormItem>): seq<seq<NormItem>>
    decreases |items|
  {
    if items == [] then []
    else
      var ls := Lines(items[..|items| - 1]);
      var it := items[|items| - 1];
      if ls != [] && ls[|ls| - 1] != [] && SameLine(ls[|ls| - 1][0], it) then
        ls[..|ls| - 1] + [ls[|ls| - 1] + [it]]
      else ls + [[it]]
  }

  /** The texts of a line joined by single spaces. */
  function LineText(line: seq<NormItem>): string {
    if line == [] then ""
    else if |line| == 1 then line[0].text
    else LineText(line[..|line| - 1]) + " " + line[|line| - 1].text
  }

  /** One paragraph per line; the last one only when its text is not empty. */
  function LinesHtml(ls: seq<seq<NormItem>>): string {
    if ls == [] then ""
    else
      var last := LineText(ls[|ls| - 1]);
      ClosedLinesHtml(ls[..|ls| - 1]) + (if last != "" then Paragraph(last) else "")
  }

  function ClosedLinesHtml(ls: seq<seq<NormItem>>): string {
    if ls == [] then "" else ClosedLinesHtml(ls[..|ls| - 1]) + Paragraph(LineText(ls[|ls| - 1]))
  }

  /** The region's HTML: its lines, one paragraph each. */
  function RegionHtml(items: seq<NormItem>): string {
    LinesHtml(Lines(items))
  }

  /** The loop's variables describe the lines found so far: no current line
      before the first item; then the current line's first top and joined
      text, and the paragraphs of the lines before it. */
  predicate Tracks(ls: seq<seq<NormItem>>, lineY: Option<real>, lineText: string, html: string) {
    && (lineY.None? <==> ls == [])
    && (lineY.None? ==> lineText == "" && html == "")
    && (lineY.Some? ==>
          && ls[|ls| - 1] != [] && lineY.value == ls[|ls| - 1][0].y
          && lineText == LineText(ls[|ls| - 1]) && html == ClosedLinesHtml(ls[..|ls| - 1]))
  }

  /** The line-joining loop, with "no current line yet" kept apart from every
      y value (the corrected form of the sentinel, see SentinelDropsLine). */
  method JoinLines(items: seq<NormItem>) returns (html: string)
    ensures html == RegionHtml(items)
  {
    html := "";
    var lineY: Option<real> := None;
    var lineText := "";
    for k := 0 to |items|
      invariant Tracks(Lines(items[..k]), lineY, lineText, html)
    {
      var item := items[k];
      if lineY.None? {
        TracksFirst(items, k);
        lineY := Some(item.y);
        lineText := item.text;
      } else if Abs(item.y - lineY.value) < LineTolerance {
        TracksContinue(items, k, lineY.value, lineText, html);
        lineText := lineText + " " + item.text;
      } else {
        TracksBreak(items, k, lineY.value, lineText, html);
        html := html + Paragraph(lineText);
        lineY := Some(item.y);
        lineText := item.text;
      }
    }
    assert items[..|items|] == items;
    if lineText != "" {
      html := html + Paragraph(lineText);
    }
  }

  lemma TracksFirst(items: seq<NormItem>, k: nat)
    requires k < |items| && Tracks(Lines(items[..k]), None, "", "")
    ensures Tracks(Lines(items[..k + 1]), Some(items[k].y), items[k].text, "")
  {
    assert items[..k + 1][..k] == items[..k];
  }

  lemma TracksContinue(items: seq<NormItem>, k: nat, y: real, lineText: string, html: string)
    requires k < |items| && Tracks(Lines(items[..k]), Some(y), lineText, html)
    requires Abs(items[k].y - y) < LineTolerance
    ensures Tracks(Lines(items[..k + 1]), Some(y), lineText + " " + items[k].text, html)
  {
    assert items[..k + 1][..k] == items[..k];
    var ls := Lines(items[..k]);
    var last := ls[|ls| - 1];
    assert (last + [items[k]])[..|last|] == last;
    assert (ls[..|ls| - 1] + [last + [items[k]]])[..|ls| - 1] == ls[..|ls| - 1];
  }

  lemma TracksBreak(items: seq<NormItem>, k: nat, y: real, lineText: string, html: string)
    requires k < |items| && Tracks(Lines(items[..k]), Some(y), lineText, html)
    requires !(Abs(items[k].y - y) < LineTolerance)
    ensures Tracks(Lines(items[..k + 1]), Some(items[k].y), items[k].text, html + Paragraph(lineText))
  {
    assert items[..k + 1][..k] == items[..k];
    var ls := Lines(items[..k]);
    assert (ls + [[items[k]]])[..|ls|] == ls;
  }

  // ---------------------------------------------------------------------------
  // What the lines satisfy

  function FlattenLines(ls: seq<seq<NormItem>>): seq<NormItem> {
    if ls == [] then [] else FlattenLines(ls[..|ls| - 1]) + ls[|ls| - 1]
  }

  /** A line: non-empty, every item within 8 of the first item's top. */
  predicate LineOk(line: seq<NormItem>) {
    line != [] && forall j :: 0 <= j < |line| ==> SameLine(line[0], line[j])
  }

  /** Every line is a line, and each next line starts at an item that is not
      within 8 of the previous line's first top. */
  predicate LinesWellFormed(ls: seq<seq<NormItem>>) {
    && (forall i :: 0 <= i < |ls| ==> LineOk(ls[i]))
    && (forall i :: 0 <= i < |ls| - 1 ==> !SameLine(ls[i][0], ls[i + 1][0]))
  }

  /** Every item lands in exactly one line, in order; a line holds the items
      within 8 of its first item's top; a new line starts exactly at an item
      that is not within 8 of the previous line's first top. */
  lemma {:induction false} LinesFacts(items: seq<NormItem>)
    ensures FlattenLines(Lines(items)) == items
    ensures LinesWellFormed(Lines(items))
    decreases |items|
  {
    if items != [] {
      var init := items[..|items| - 1];
      var it := items[|items| - 1];
      LinesFacts(init);
      var ls := Lines(init);
      assert init + [it] == items;
      if ls != [] && SameLine(ls[|ls| - 1][0], it) {
        ContinueLineFlatten(ls, it);
        ContinueLineWellFormed(ls, it);
      } else {
        StartLineFlatten(ls, it);
        StartLineWellFormed(ls, it);
      }
    }
  }

  lemma ContinueLineFlatten(ls: seq<seq<NormItem>>, it: NormItem)
    requires ls != []
    ensures FlattenLines(ls[..|ls| - 1] + [ls[|ls| - 1] + [it]]) == FlattenLines(ls) + [it]
  {
    var m := |ls|;
    var r := ls[..m - 1] + [ls[m - 1] + [it]];
    assert r[..m - 1] == ls[..m - 1];
  }

  lemma ContinueLineWellFormed(ls: seq<seq<NormItem>>, it: NormItem)
    requires LinesWellFormed(ls) && ls != [] && SameLine(ls[|ls| - 1][0], it)
    ensures LinesWellFormed(ls[..|ls| - 1] + [ls[|ls| - 1] + [it]])
  {
    var m := |ls|;
    var last := ls[m - 1];
    var r := ls[..m - 1] + [last + [it]];
    assert LineOk(last);
    assert LineOk(last + [it]) by {
      forall j | 0 <= j < |last| + 1 ensures SameLine((last + [it])[0], (last + [it])[j]) {
        if j < |last| {
          assert (last + [it])[j] == last[j];
        }
      }
    }
    forall i | 0 <= i < m ensures LineOk(r[i]) {
      if i < m - 1 {
        assert r[i] == ls[i];
      }
    }
    forall i | 0 <= i < m - 1 ensures !SameLine(r[i][0], r[i + 1][0]) {
      assert r[i] == ls[i];
      assert r[i + 1][0] == ls[i + 1][0];
    }
  }

  lemma StartLineFlatten(ls: seq<seq<NormItem>>, it: NormItem)
    ensures FlattenLines(ls + [[it]]) == FlattenLines(ls) + [it]
  {
    assert (ls + [[it]])[..|ls|] == ls;
  }

  lemma StartLineWellFormed(ls: seq<seq<NormItem>>, it: NormItem)
    requires LinesWellFormed(ls)
    requires ls != [] ==> !SameLine(ls[|ls| - 1][0], it)
    ensures LinesWellFormed(ls + [[it]])
  {
    var r := ls + [[it]];
    forall i | 0 <= i < |ls| ensures r[i] == ls[i] {
    }
    assert LineOk([it]);
  }

  // ---------------------------------------------------------------------------
  // The loop as written: -1 doubles as "no current line yet"

  datatype LineState = LineState(html: string, lineY: real, lineText: string)

  /** The loop state after the items, with currentLineY starting at -1. */
  function AsWrittenState(items: seq<NormItem>): LineState
    decreases |items|
  {
    if items == [] then LineState("", -1.0, "")
    else
      var st := AsWrittenState(items[..|items| - 1]);
      var it := items[|items| - 1];
      if st.lineY == -1.0 then LineState(st.html, it.y, it.text)
      else if Abs(it.y - st.lineY) < LineTolerance then st.(lineText := st.lineText + " " + it.text)
      else LineState(st.html + Paragraph(st.lineText), it.y, it.text)
  }

  /** The region HTML as the source computes it. */
  function RegionHtmlAsWritten(items: seq<NormItem>): string {
    var st := AsWrittenState(items);
    st.html + (if st.lineText != "" then Paragraph(st.lineText) else "")
  }

  /** When no item's top is exactly -1, the sentinel is harmless: the code as
      written produces the intended paragraphs. */
  lemma {:induction false} AsWrittenAgrees(items: seq<NormItem>)
    requires forall i :: 0 <= i < |items| ==> items[i].y != -1.0
    ensures RegionHtmlAsWritten(items) == RegionHtml(items)
  {
    AsWrittenStateAgrees(items);
  }

  lemma {:induction false} AsWrittenStateAgrees(items: seq<NormItem>)
    requires forall i :: 0 <= i < |items| ==> items[i].y != -1.0
    ensures var st, ls := AsWrittenState(items), Lines(items);
      && (ls == [] <==> st.lineY == -1.0)
      && (ls == [] ==> st.html == "" && st.lineText == "")
      && (ls != [] ==>
            (ls[|ls| - 1] != [] && st.lineY == ls[|ls| - 1][0].y
             && st.lineText == LineText(ls[|ls| - 1]) && st.html == ClosedLinesHtml(ls[..|ls| - 1])))
    decreases |items|
  {
    if items != [] {
      var init := items[..|items| - 1];
      var it := items[|items| - 1];
      AsWrittenStateAgrees(init);
      var ls := Lines(init);
      if ls != [] {
        var last := ls[|ls| - 1];
        if SameLine(last[0], it) {
          assert (last + [it])[..|last|] == last;
          assert (ls[..|ls| - 1] + [last + [it]])[..|ls| - 1] == ls[..|ls| - 1];
        } else {
          assert (ls + [[it]])[..|ls|] == ls;
        }
      }
    }
  }

  /** The discrepancy: an item whose top is exactly -1 (text near the top edge
      of the page can sit a pixel above it) opens a line that the next item
      mistakes for "no line yet", so the first line is silently dropped. */
  lemma SentinelDropsLine()
    ensures var a := NormItem("A", 0.0, -1.0, 10.0, 5.0, 11.0);
      var b := NormItem("B", 0.0, 20.0, 31.0, 5.0, 11.0);
      && RegionHtmlAsWritten([a, b]) == Paragraph("B")
      && RegionHtml([a, b]) == Paragraph("A") + Paragraph("B")
  {
    var a := NormItem("A", 0.0, -1.0, 10.0, 5.0, 11.0);
    var b := NormItem("B", 0.0, 20.0, 31.0, 5.0, 11.0);
    assert [a, b][..1] == [a];
    assert [a][..0] == [];
    assert AsWrittenState([a]) == LineState("", -1.0, "A");
    assert Lines([a]) == [[a]];
    assert Lines([a, b]) == [[a], [b]];
    assert [[a], [b]][..1] == [[a]];
    assert [[a]][..0] == [];
    assert AsWrittenState([a, b]) == LineState("", 20.0, "B");
    assert ClosedLinesHtml([[a]]) == "" + Paragraph("A");
    assert "" + Paragraph("B") == Paragraph("B");
    assert "" + Paragraph("A") == Paragraph("A");
  }
}

/** src/hooks/useExport.ts: handleExportHtml. The title gives the file name;
    uploaded images and PDFs are inlined as data URIs; the document goes to
    the configured export folder through the server, or to the browser's save
    dialog. The server's answers, the save dialog's outcome and the number
    renderer of the HTML generator are parameters. */
module Export {
  import opened Common
  import opened Types
  import opened HtmlUtils
  import opened ClientHtml
  import opened BlockList

  // ---------------------------------------------------------------------------
  // The file name

  /** The characters /[a-z0-9가-힣]/i keeps: ASCII letters of either case,
      digits, and the precomposed Hangul syllables. */
  predicate KeepChar(c: char) {
    ('a' <= c <= 'z') || ('A' <= c <= 'Z') || ('0' <= c <= '9') || ('가' <= c <= '힣')
  }

  /** Length in UTF-16 code units: a character beyond U+FFFF takes two. */
  function Utf16Length(s: string): (n: nat)
    ensures n >= |s|
  {
    if s == [] then 0 else (if s[0] as int >= 0x10000 then 2 else 1) + Utf16Length(s[1..])
  }

  /** `title.replace(/[^a-z0-9가-힣]/gi, '_')`. The pattern has no `u` flag,
      so it matches code units: a character beyond U+FFFF is two matches. */
  function Sanitize(title: string): (r: string)
    ensures |r| == Utf16Length(title)
    ensures forall i :: 0 <= i < |r| ==> KeepChar(r[i]) || r[i] == '_'
    ensures r == [] <==> title == []
  {
    if title == [] then []
    else
      var head := if KeepChar(title[0]) then [title[0]] else if title[0] as int >= 0x10000 then "__" else "_";
      head + Sanitize(title[1..])
  }

  /** Character by character: kept characters stay, the others become '_'. */
  lemma {:induction false} SanitizeBmp(title: string)
    requires forall i :: 0 <= i < |title| ==> (title[i] as int) < 0x10000
    ensures |Sanitize(title)| == |title|
    ensures forall i :: 0 <= i < |title| ==>
      Sanitize(title)[i] == (if KeepChar(title[i]) then title[i] else '_')
  {
    if title != [] {
      SanitizeBmp(title[1..]);
      var r := Sanitize(title);
      assert r == [r[0]] + Sanitize(title[1..]);
      forall i | 1 <= i < |title| ensures r[i] == (if KeepChar(title[i]) then title[i] else '_') {
        assert r[i] == Sanitize(title[1..])[i - 1];
        assert title[i] == title[1..][i - 1];
      }
    }
  }

  /** The name of the exported file: the sanitised title, or 'newsletter'
      when the title is empty, with '.html' appended. */
  function Filename(title: string): string {
    var stem := Sanitize(title);
    (if stem != "" then stem else "newsletter") + ".html"
  }

  /** The file name passes the server's isValidFilename: it holds no path
      separator or other forbidden character and no '..'. It ends in
      '.html', and an empty title gives 'newsletter.html'. */
  lemma FilenameValid(title: string)
    ensures IsValidFilename(Filename(title))
    ensures var f := Filename(title); |f| >= 5 && f[|f| - 5..] == ".html"
    ensures title == "" ==> Filename(title) == "newsletter.html"
  {
    var stem := if Sanitize(title) != "" then Sanitize(title) else "newsletter";
    var f := Filename(title);
    assert f == stem + ".html";
    assert forall i :: 0 <= i < |stem| ==> KeepChar(stem[i]) || stem[i] == '_';
    assert forall i :: 0 <= i < |stem| ==> f[i] == stem[i];
    forall i | 0 <= i < |f| ensures !IsForbiddenFilenameChar(f[i]) && (f[i] == '.' <==> i == |stem|) {
      if i >= |stem| {
        assert f[i] == ".html"[i - |stem|];
      }
    }
    IsValidFilenameIff(f);
  }

  // ---------------------------------------------------------------------------
  // Inlining the uploaded files

  predicate IsFileBlock(b: Block) {
    b.kind == ImageType || b.kind == PdfType
  }

  /** The mapper of handleExportHtml for one block. `dataUri(src)` is the
      data URI the server answers for an uploaded file, None when the request
      fails or is not ok. Reading `src.startsWith` of an image or PDF block
      without a src throws, before the try: the failure. */
  function ConvertBlock(b: Block, dataUri: string -> Option<string>): (r: Result<Block>)
    ensures r.Failure? <==> IsFileBlock(b) && b.src.None?
    ensures r.Success? && !(IsFileBlock(b) && StartsWith(b.src.value, "/uploads/")) ==> r.value == b
    ensures r.Success? && IsFileBlock(b) && StartsWith(b.src.value, "/uploads/") ==>
      match dataUri(b.src.value)
      case None => r.value == b
      case Some(uri) =>
        r.value == b.(src := Some(if b.kind == PdfType then ReplaceFirst(uri, "image/pdf", "application/pdf") else uri))
  {
    if !IsFileBlock(b) then Success(b)
    else if b.src.None? then Failure("Cannot read properties of undefined (reading 'startsWith')")
    else if StartsWith(b.src.value, "/uploads/") then
      match dataUri(b.src.value)
      case None => Success(b)
      case Some(uri) =>
        var src := if b.kind == PdfType then ReplaceFirst(uri, "image/pdf", "application/pdf") else uri;
        Success(b.(src := Some(src)))
    else Success(b)
  }

  /** Promise.all over the mapper: every block converted, in order, or the
      first failure. */
  function ConvertBlocks(bs: seq<Block>, dataUri: string -> Option<string>): (r: Result<seq<Block>>)
    ensures r.Success? <==> forall i :: 0 <= i < |bs| ==> ConvertBlock(bs[i], dataUri).Success?
    ensures r.Success? ==>
      |r.value| == |bs| && forall i :: 0 <= i < |bs| ==> r.value[i] == ConvertBlock(bs[i], dataUri).value
  {
    if bs == [] then Success([])
    else
      match ConvertBlock(bs[0], dataUri)
      case Failure(e) => Failure(e)
      case Success(b) =>
        match ConvertBlocks(bs[1..], dataUri)
        case Failure(e) => Failure(e)
        case Success(rest) =>
          ConvertTail(bs, b, rest, dataUri);
          Success([b] + rest)
  }

  lemma ConvertTail(bs: seq<Block>, b: Block, rest: seq<Block>, dataUri: string -> Option<string>)
    requires bs != [] && ConvertBlock(bs[0], dataUri) == Success(b)
    requires |rest| == |bs| - 1
    requires forall i :: 0 <= i < |bs| - 1 ==> ConvertBlock(bs[1..][i], dataUri).Success?
    requires forall i :: 0 <= i < |bs| - 1 ==> rest[i] == ConvertBlock(bs[1..][i], dataUri).value
    ensures forall i :: 0 <= i < |bs| ==> ConvertBlock(bs[i], dataUri).Success?
    ensures forall i :: 0 <= i < |bs| ==> ([b] + rest)[i] == ConvertBlock(bs[i], dataUri).value
  {
    forall i | 1 <= i < |bs|
      ensures ConvertBlock(bs[i], dataUri).Success? && ([b] + rest)[i] == ConvertBlock(bs[i], dataUri).value
    {
      assert bs[i] == bs[1..][i - 1];
    }
  }

  /** Conversion keeps every block's place and everything but its src; a
      failed request keeps the src too. */
  lemma ConvertKeepsOthers(bs: seq<Block>, dataUri: string -> Option<string>)
    requires ConvertBlocks(bs, dataUri).Success?
    ensures forall i :: 0 <= i < |bs| ==>
      var c := ConvertBlocks(bs, dataUri).value[i];
      c.(src := bs[i].src) == bs[i] && (bs[i].src.Some? && dataUri(bs[i].src.value).None? ==> c == bs[i])
  {
    forall i | 0 <= i < |bs|
      ensures var c := ConvertBlocks(bs, dataUri).value[i];
        c.(src := bs[i].src) == bs[i] && (bs[i].src.Some? && dataUri(bs[i].src.value).None? ==> c == bs[i])
    {
      assert ConvertBlock(bs[i], dataUri).Success?;
    }
  }

  /** The URI of a PDF names the PDF media type in place of 'image/pdf'. */
  lemma PdfMediaType(rest: string)
    ensures ReplaceFirst("data:" + "image/pdf" + rest, "image/pdf", "application/pdf") == "data:" + "application/pdf" + rest
  {
    ReplaceAfterPrefix("data:", "image/pdf", "application/pdf", rest);
  }

  /** The pattern right after a prefix that holds no copy of its first character is the one replaced. */
  lemma ReplaceAfterPrefix(p: string, pat: string, rep: string, rest: string)
    requires pat != [] && forall m :: 0 <= m < |p| ==> p[m] != pat[0]
    ensures ReplaceFirst(p + pat + rest, pat, rep) == p + rep + rest
  {
    var s := p + pat + rest;
    assert s[|p|..] == pat + rest;
    assert s[|p|..][..|pat|] == pat;
    FirstMatchAt(s, pat, |p|);
    assert s[..|p|] == p && s[|p| + |pat|..] == rest;
  }

  /** A match with no earlier occurrence of the pattern's first character is the first match. */
  lemma FirstMatchAt(s: string, pat: string, n: nat)
    requires pat != [] && n <= |s| && StartsWith(s[n..], pat)
    requires forall m :: 0 <= m < n ==> s[m] != pat[0]
    ensures IndexOf(s, pat) == Some(n)
  {
    var k := IndexOf(s, pat);
    assert k.Some?;
    var j := k.value;
    assert s[j..j + |pat|][0] == pat[0];
  }

  // ---------------------------------------------------------------------------
  // The export

  /** How the browser-side save ended: written, or thrown (with whether the
      thrown value is an Error and its name). */
  datatype SaveOutcome = Written | Thrown(isError: bool, name: string)

  /** Where the document went. */
  datatype Destination = ExportFolder(path: string, filename: string) | SaveDialog(filename: string)

  /** The toast of the browser-side save: success when written; when it
      threw, an error toast unless the thrown value is no Error or is the
      AbortError of a cancelled dialog, which passes silently. */
  function DialogToast(save: SaveOutcome): (t: Option<Toast>)
    ensures t.None? <==> save.Thrown? && (!save.isError || save.name == "AbortError")
    ensures t.Some? ==> (t.value.kind == SuccessToast <==> save.Written?)
    ensures save == Thrown(true, "AbortError") ==> t.None?
  {
    match save
    case Written => Some(Toast("Export successful!", SuccessToast))
    case Thrown(isError, name) =>
      if isError && name != "AbortError" then Some(Toast("Export canceled or failed", ErrorToast)) else None
  }

  /** What handleExportHtml did: nothing, when the conversion rejected, or
      the document written to a destination and the toast shown. */
  datatype ExportEffect =
    | Aborted(error: string)
    | Exported(html: string, destination: Destination, toast: Option<Toast>)

  /** handleExportHtml. `serverError` is None when the export request
      answers ok, else the message it failed with; `save` is how the save
      dialog or download ended. */
  method HandleExportHtml(title: string, blocks: seq<Block>, exportPath: string, number: real -> string,
                          dataUri: string -> Option<string>, serverError: Option<string>, save: SaveOutcome)
    returns (e: ExportEffect)
    ensures ConvertBlocks(blocks, dataUri).Failure? <==> e.Aborted?
    ensures e.Exported? ==> e.html == GenerateHtml(ConvertBlocks(blocks, dataUri).value, Some(title), number)
    ensures e.Exported? && exportPath != "" ==>
      && e.destination == ExportFolder(exportPath, Filename(title))
      && e.toast == Some(match serverError
                         case None => Toast("Exported to " + exportPath + "\\" + Filename(title), SuccessToast)
                         case Some(m) => Toast("Auto-export failed: " + m, ErrorToast))
    ensures e.Exported? && exportPath == "" ==>
      e.destination == SaveDialog(Filename(title)) && e.toast == DialogToast(save)
  {
    var filename := Filename(title);
    var converted := ConvertBlocks(blocks, dataUri);
    if converted.Failure? {
      return Aborted(converted.error);
    }
    var html := GenerateHtml(converted.value, Some(title), number);
    if exportPath != "" {
      var toast := if serverError.None? then Toast("Exported to " + exportPath + "\\" + filename, SuccessToast)
                   else Toast("Auto-export failed: " + serverError.value, ErrorToast);
      return Exported(html, ExportFolder(exportPath, filename), Some(toast));
    }
    var toast: Option<Toast> := None;
    match save {
      case Written =>
        toast := Some(Toast("Export successful!", SuccessToast));
      case Thrown(isError, name) =>
        if isError && name != "AbortError" {
          toast := Some(Toast("Export canceled or failed", ErrorToast));
        }
    }
    e := Exported(html, SaveDialog(filename), toast);
  }

  // ---------------------------------------------------------------------------
  // What the slice bug does to an export

  /** An image block made from an upload response as written has no src, so
      exporting any list holding it rejects and nothing is written; the same
      slice read through its `src` converts. */
  lemma SliceBlockBreaksExport(s: Slice, fileName: string, id: string, before: seq<Block>, after: seq<Block>,
                               dataUri: string -> Option<string>)
    requires FromServer(s) && s.src.Some?
    ensures ConvertBlocks(before + [SliceBlockAsWritten(s, fileName, id)] + after, dataUri).Failure?
    ensures ConvertBlock(SliceBlock(s, fileName, id), dataUri).Success?
  {
    var bs := before + [SliceBlockAsWritten(s, fileName, id)] + after;
    assert bs[|before|] == SliceBlockAsWritten(s, fileName, id);
    assert ConvertBlock(bs[|before|], dataUri).Failure?;
  }
}

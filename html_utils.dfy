/** src/utils/index.ts: HTML escaping, the link-scheme allow-list and the
    filename and id validators. */
module HtmlUtils {
  import opened Common

  // ---------------------------------------------------------------------------
  // Escaping

  /** `s.replace(/c/g, rep)` for a one-character pattern. */
  function ReplaceAll(s: string, c: char, rep: string): (r: string)
    ensures c !in s ==> r == s
  {
    if s == [] then [] else (if s[0] == c then rep else [s[0]]) + ReplaceAll(s[1..], c, rep)
  }

  lemma {:induction false} ReplaceAllConcat(a: string, b: string, c: char, rep: string)
    ensures ReplaceAll(a + b, c, rep) == ReplaceAll(a, c, rep) + ReplaceAll(b, c, rep)
  {
    if a == [] {
      assert a + b == b;
    } else {
      assert (a + b)[1..] == a[1..] + b;
      ReplaceAllConcat(a[1..], b, c, rep);
    }
  }

  /** escapeHtml, as written: four global replacements, '&' first. */
  function EscapeHtml(s: string): string {
    ReplaceAll(ReplaceAll(ReplaceAll(ReplaceAll(s, '&', "&amp;"), '<', "&lt;"), '>', "&gt;"), '"', "&quot;")
  }

  /** The entity a single character becomes; `quote` says whether '"' is escaped too. */
  function EscapeChar(c: char, quote: bool): string {
    if c == '&' then "&amp;"
    else if c == '<' then "&lt;"
    else if c == '>' then "&gt;"
    else if c == '"' && quote then "&quot;"
    else [c]
  }

  /** Character-by-character escaping: the reference the chained replacements are checked against. */
  function EscapeEach(s: string, quote: bool): string {
    if s == [] then [] else EscapeChar(s[0], quote) + EscapeEach(s[1..], quote)
  }

  lemma EscapeHtmlConcat(a: string, b: string)
    ensures EscapeHtml(a + b) == EscapeHtml(a) + EscapeHtml(b)
  {
    var s1a, s1b := ReplaceAll(a, '&', "&amp;"), ReplaceAll(b, '&', "&amp;");
    ReplaceAllConcat(a, b, '&', "&amp;");
    var s2a, s2b := ReplaceAll(s1a, '<', "&lt;"), ReplaceAll(s1b, '<', "&lt;");
    ReplaceAllConcat(s1a, s1b, '<', "&lt;");
    var s3a, s3b := ReplaceAll(s2a, '>', "&gt;"), ReplaceAll(s2b, '>', "&gt;");
    ReplaceAllConcat(s2a, s2b, '>', "&gt;");
    ReplaceAllConcat(s3a, s3b, '"', "&quot;");
  }

  lemma EscapeHtmlChar(c: char)
    ensures EscapeHtml([c]) == EscapeChar(c, true)
  {
    assert ReplaceAll([c], '&', "&amp;") == if c == '&' then "&amp;" else [c];
    if c == '&' {
      assert '<' !in "&amp;" && '>' !in "&amp;" && '"' !in "&amp;";
    } else if c == '<' {
      assert '>' !in "&lt;" && '"' !in "&lt;";
    } else if c == '>' {
      assert '"' !in "&gt;";
    }
  }

  /** Replacing '&' first means the chained replacements escape every character
      independently: no entity produced for '<', '>' or '"' is escaped again. */
  lemma {:induction false} EscapeHtmlPerChar(s: string)
    ensures EscapeHtml(s) == EscapeEach(s, true)
  {
    if s != [] {
      assert s == [s[0]] + s[1..];
      EscapeHtmlConcat([s[0]], s[1..]);
      EscapeHtmlChar(s[0]);
      EscapeHtmlPerChar(s[1..]);
    }
  }

  predicate StartsEntity(t: string) {
    StartsWith(t, "&amp;") || StartsWith(t, "&lt;") || StartsWith(t, "&gt;") || StartsWith(t, "&quot;")
  }

  /** No '<', '>' or '"', and every '&' begins one of the four entities. */
  predicate Escaped(r: string) {
    && (forall i :: 0 <= i < |r| ==> r[i] != '<' && r[i] != '>' && r[i] != '"')
    && (forall i :: 0 <= i < |r| && r[i] == '&' ==> StartsEntity(r[i..]))
  }

  lemma EscapedPrepend(e: string, rest: string)
    requires e == "&amp;" || e == "&lt;" || e == "&gt;" || e == "&quot;"
      || (|e| == 1 && e[0] != '&' && e[0] != '<' && e[0] != '>' && e[0] != '"')
    requires Escaped(rest)
    ensures Escaped(e + rest)
  {
    var r := e + rest;
    assert r[..|e|] == e;
    forall i | 0 <= i < |r|
      ensures r[i] != '<' && r[i] != '>' && r[i] != '"'
      ensures r[i] == '&' ==> StartsEntity(r[i..])
    {
      if i < |e| {
        assert r[i] == e[i];
        if r[i] == '&' {
          assert i == 0;
          assert r[i..] == r;
        }
      } else {
        assert r[i] == rest[i - |e|];
        assert r[i..] == rest[i - |e|..];
      }
    }
  }

  lemma {:induction false} EscapeEachSafe(s: string)
    ensures Escaped(EscapeEach(s, true))
  {
    if s != [] {
      EscapeEachSafe(s[1..]);
      EscapedPrepend(EscapeChar(s[0], true), EscapeEach(s[1..], true));
    }
  }

  /** escapeHtml's output has no '<', '>' or '"', and every '&' in it begins
      one of the entities &amp; &lt; &gt; &quot;. */
  lemma EscapeHtmlSafe(s: string)
    ensures Escaped(EscapeHtml(s))
  {
    EscapeHtmlPerChar(s);
    EscapeEachSafe(s);
  }

  /** escapeHtml leaves a string without special characters unchanged. */
  lemma EscapeHtmlIdentity(s: string)
    requires '&' !in s && '<' !in s && '>' !in s && '"' !in s
    ensures EscapeHtml(s) == s
  {
  }

  /** Reads the four entities back; any other character stands for itself. */
  function UnescapeHtml(t: string): string {
    if t == [] then []
    else if StartsWith(t, "&amp;") then "&" + UnescapeHtml(t[5..])
    else if StartsWith(t, "&lt;") then "<" + UnescapeHtml(t[4..])
    else if StartsWith(t, "&gt;") then ">" + UnescapeHtml(t[4..])
    else if StartsWith(t, "&quot;") then "\"" + UnescapeHtml(t[6..])
    else [t[0]] + UnescapeHtml(t[1..])
  }

  lemma UnescapeEntity(e: string, c: char, rest: string)
    requires (e == "&amp;" && c == '&') || (e == "&lt;" && c == '<')
      || (e == "&gt;" && c == '>') || (e == "&quot;" && c == '"')
    ensures UnescapeHtml(e + rest) == [c] + UnescapeHtml(rest)
  {
    var t := e + rest;
    assert t[..|e|] == e && t[|e|..] == rest;
    assert t[0] == '&' && t[1] == e[1];
  }

  lemma UnescapePlain(c: char, rest: string)
    requires c != '&'
    ensures UnescapeHtml([c] + rest) == [c] + UnescapeHtml(rest)
  {
    var t := [c] + rest;
    assert t[0] == c && t[1..] == rest;
  }

  /** Decoding undoes per-character escaping, with or without '"' escaped. */
  lemma {:induction false} UnescapeEscapeEach(s: string, quote: bool)
    ensures UnescapeHtml(EscapeEach(s, quote)) == s
  {
    if s != [] {
      var c, rest := s[0], EscapeEach(s[1..], quote);
      UnescapeEscapeEach(s[1..], quote);
      if c == '&' || c == '<' || c == '>' || (c == '"' && quote) {
        UnescapeEntity(EscapeChar(c, quote), c, rest);
      } else {
        UnescapePlain(c, rest);
      }
      assert s == [s[0]] + s[1..];
    }
  }

  /** Per-character escaping leaves no '<' and no '>'. */
  lemma {:induction false} EscapeEachNoAngle(s: string, quote: bool)
    ensures '<' !in EscapeEach(s, quote) && '>' !in EscapeEach(s, quote)
  {
    if s != [] {
      EscapeEachNoAngle(s[1..], quote);
    }
  }

  /** Escaping loses nothing: decoding the entities gives back the input. */
  lemma EscapeHtmlRoundTrip(s: string)
    ensures UnescapeHtml(EscapeHtml(s)) == s
  {
    EscapeHtmlPerChar(s);
    UnescapeEscapeEach(s, true);
  }

  // ---------------------------------------------------------------------------
  // URL allow-list

  predicate IsAsciiAlpha(c: char) { 'a' <= c <= 'z' || 'A' <= c <= 'Z' }

  predicate IsSchemeChar(c: char) {
    IsAsciiAlpha(c) || '0' <= c <= '9' || c == '+' || c == '-' || c == '.'
  }

  function LowerChar(c: char): char {
    if 'A' <= c <= 'Z' then (c as int + 32) as char else c
  }

  function LowerAscii(s: string): (r: string)
    ensures |r| == |s| && forall i :: 0 <= i < |s| ==> r[i] == LowerChar(s[i])
  {
    seq(|s|, i requires 0 <= i < |s| => LowerChar(s[i]))
  }

  /** The URL parser first removes every ASCII tab and newline ... */
  function RemoveTabNewline(s: string): string {
    if s == [] then []
    else (if s[0] == '\t' || s[0] == '\n' || s[0] == '\r' then [] else [s[0]]) + RemoveTabNewline(s[1..])
  }

  predicate IsC0OrSpace(c: char) { c <= ' ' }

  function TrimC0Start(s: string): string {
    if s != [] && IsC0OrSpace(s[0]) then TrimC0Start(s[1..]) else s
  }

  function TrimC0End(s: string): string {
    if s != [] && IsC0OrSpace(s[|s| - 1]) then TrimC0End(s[..|s| - 1]) else s
  }

  /** ... and strips leading and trailing C0 controls and spaces. */
  function CleanUrl(s: string): string {
    TrimC0End(TrimC0Start(RemoveTabNewline(s)))
  }

  /** Position of the ':' ending a scheme whose characters from `i` on are scheme characters. */
  function ScanScheme(s: string, i: nat): (r: Option<nat>)
    requires i <= |s|
    ensures r.Some? ==> i <= r.value < |s|
    decreases |s| - i
  {
    if i == |s| then None
    else if s[i] == ':' then Some(i)
    else if IsSchemeChar(s[i]) then ScanScheme(s, i + 1)
    else None
  }

  lemma {:induction false} ScanSchemeSpec(s: string, i: nat, k: nat)
    requires i <= |s|
    ensures ScanScheme(s, i) == Some(k) <==>
      (i <= k < |s| && s[k] == ':' && forall j :: i <= j < k ==> IsSchemeChar(s[j]))
    decreases |s| - i
  {
    if i < |s| && s[i] != ':' && IsSchemeChar(s[i]) {
      ScanSchemeSpec(s, i + 1, k);
    }
  }

  /** `new URL(url).protocol`, or None where the constructor throws: an ASCII
      letter, then scheme characters up to ':', lower-cased, with the ':' kept. */
  function Protocol(url: string): Option<string> {
    var t := CleanUrl(url);
    if t == [] || !IsAsciiAlpha(t[0]) then None
    else match ScanScheme(t, 1)
      case Some(k) => Some(LowerAscii(t[..k]) + ":")
      case None => None
  }

  /** isValidUrl: only http:, https: and mailto: links are allowed. */
  predicate IsValidUrl(url: string) {
    Protocol(url) == Some("http:") || Protocol(url) == Some("https:") || Protocol(url) == Some("mailto:")
  }

  predicate IsLowerWord(w: string) {
    forall i :: 0 <= i < |w| ==> 'a' <= w[i] <= 'z'
  }

  /** For a scheme of lower-case letters, the parsed protocol is that scheme
      exactly when the lower-cased text begins with it and a colon. */
  lemma SchemeFromPrefix(t: string, w: string)
    requires t != [] && IsAsciiAlpha(t[0])
    requires |w| >= 1 && IsLowerWord(w)
    ensures StartsWith(LowerAscii(t), w + ":") <==>
      (match ScanScheme(t, 1) case Some(k) => LowerAscii(t[..k]) + ":" == w + ":" case None => false)
  {
    var n := |w|;
    var l := LowerAscii(t);
    ScanSchemeSpec(t, 1, n);
    if StartsWith(l, w + ":") {
      assert l[n] == (w + ":")[n] == ':';
      assert t[n] == ':';
      forall j | 1 <= j < n ensures IsSchemeChar(t[j]) {
        assert l[j] == (w + ":")[j] == w[j];
      }
      assert LowerAscii(t[..n]) == w by {
        forall j | 0 <= j < n ensures LowerAscii(t[..n])[j] == w[j] {
          assert l[j] == (w + ":")[j];
        }
      }
    }
    match ScanScheme(t, 1)
    case None =>
    case Some(k) =>
      if LowerAscii(t[..k]) + ":" == w + ":" {
        assert |LowerAscii(t[..k])| == k;
        assert LowerAscii(t[..k]) == w;
        assert l[..n + 1] == w + ":" by {
          forall j | 0 <= j <= n ensures l[j] == (w + ":")[j] {
            if j < n {
              assert LowerAscii(t[..k])[j] == LowerChar(t[j]);
            } else {
              assert t[k] == ':';
            }
          }
        }
      }
  }

  /** A link passes the allow-list exactly when, once cleaned and lower-cased,
      it begins with "http:", "https:" or "mailto:". */
  lemma IsValidUrlIff(url: string)
    ensures IsValidUrl(url) <==>
      var l := LowerAscii(CleanUrl(url));
      StartsWith(l, "http:") || StartsWith(l, "https:") || StartsWith(l, "mailto:")
  {
    var t := CleanUrl(url);
    var l := LowerAscii(t);
    if t == [] || !IsAsciiAlpha(t[0]) {
      if t != [] {
        assert l[0] == LowerChar(t[0]);
      }
    } else {
      SchemeFromPrefix(t, "http");
      SchemeFromPrefix(t, "https");
      SchemeFromPrefix(t, "mailto");
    }
  }

  /** A "javascript:" link, in any letter case, never passes. */
  lemma JavascriptRejected(url: string)
    requires StartsWith(LowerAscii(CleanUrl(url)), "javascript:")
    ensures !IsValidUrl(url)
  {
    IsValidUrlIff(url);
  }

  // ---------------------------------------------------------------------------
  // Filename and id validation

  predicate IsForbiddenFilenameChar(c: char) {
    c == '\\' || c == '/' || c == ':' || c == '*' || c == '?' || c == '"' || c == '<' || c == '>' || c == '|'
  }

  /** The test of /[\\/:*?"<>|]/: a scan for a forbidden character. */
  function HasForbiddenChar(s: string): bool {
    s != [] && (IsForbiddenFilenameChar(s[0]) || HasForbiddenChar(s[1..]))
  }

  /** The test of /\.\./: a search for two consecutive dots. */
  function HasDotDot(s: string): bool {
    IndexOf(s, "..").Some?
  }

  /** isValidFilename. */
  predicate IsValidFilename(name: string) {
    !HasForbiddenChar(name) && !HasDotDot(name)
  }

  lemma {:induction false} HasForbiddenCharSpec(s: string)
    ensures HasForbiddenChar(s) <==> exists i :: 0 <= i < |s| && IsForbiddenFilenameChar(s[i])
  {
    if s != [] {
      HasForbiddenCharSpec(s[1..]);
      if exists i :: 0 <= i < |s| && IsForbiddenFilenameChar(s[i]) {
        var i :| 0 <= i < |s| && IsForbiddenFilenameChar(s[i]);
        if i > 0 { assert s[1..][i - 1] == s[i]; }
      }
    }
  }

  lemma HasDotDotSpec(s: string)
    ensures HasDotDot(s) <==> exists i :: 0 <= i < |s| - 1 && s[i] == '.' && s[i + 1] == '.'
  {
    match IndexOf(s, "..")
    case Some(k) =>
      assert s[k..k + 2] == "..";
      assert s[k] == '.' && s[k + 1] == '.';
    case None =>
      forall i | 0 <= i < |s| - 1 ensures !(s[i] == '.' && s[i + 1] == '.') {
        assert !StartsWith(s[i..], "..");
        assert s[i..][..2] == [s[i], s[i + 1]];
      }
  }

  /** A filename is valid exactly when it has none of \ / : * ? " < > | and no "..";
      a single dot is allowed. */
  lemma IsValidFilenameIff(name: string)
    ensures IsValidFilename(name) <==>
      (forall i :: 0 <= i < |name| ==> !IsForbiddenFilenameChar(name[i]))
      && (forall i :: 0 <= i < |name| - 1 ==> !(name[i] == '.' && name[i + 1] == '.'))
  {
    HasForbiddenCharSpec(name);
    HasDotDotSpec(name);
  }

  predicate IsIdChar(c: char) {
    IsAsciiAlpha(c) || '0' <= c <= '9' || c == '_' || c == '-'
  }

  /** The test of /^[a-zA-Z0-9_-]+$/: one id character, then any number more. */
  function MatchesIdPattern(s: string): bool {
    s != [] && IsIdChar(s[0]) && (|s| == 1 || MatchesIdPattern(s[1..]))
  }

  /** isValidId. */
  predicate IsValidId(id: string) {
    MatchesIdPattern(id)
  }

  /** An id is valid exactly when it is non-empty and made only of letters, digits, '_' and '-'. */
  lemma {:induction false} IsValidIdIff(id: string)
    ensures IsValidId(id) <==> |id| > 0 && forall i :: 0 <= i < |id| ==> IsIdChar(id[i])
  {
    if |id| > 1 {
      IsValidIdIff(id[1..]);
      if forall i :: 0 <= i < |id| ==> IsIdChar(id[i]) {
        assert forall i :: 0 <= i < |id[1..]| ==> IsIdChar(id[1..][i]) by {
          forall i | 0 <= i < |id[1..]| ensures IsIdChar(id[1..][i]) { assert id[1..][i] == id[i + 1]; }
        }
      }
      if MatchesIdPattern(id) {
        forall i | 0 <= i < |id| ensures IsIdChar(id[i]) {
          if i > 0 { assert id[i] == id[1..][i - 1]; }
        }
      }
    }
  }
}

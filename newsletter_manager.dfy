/** src/hooks/useNewsletterManager.ts: saving, starting and deleting
    newsletters. The stores the hook drives are the value `Session`; the
    dialogs' answers, the server's responses and the HTML-to-text conversion
    of the browser (`textOf`, a detached div's textContent) are parameters. */
module NewsletterManager {
  import opened Common
  import opened Types
  import opened Numbers
  import opened EditorStore

  const Untitled: string := "Untitled Newsletter"

  /** An entry of the saved-newsletter list. */
  datatype SavedNewsletter = SavedNewsletter(id: string, title: string, updatedAt: int)

  function Titles(saved: seq<SavedNewsletter>): (ts: seq<string>)
    ensures |ts| == |saved| && forall i :: 0 <= i < |saved| ==> ts[i] == saved[i].title
  {
    seq(|saved|, i requires 0 <= i < |saved| => saved[i].title)
  }

  /** What the hook reads and sets: the editor's history, the loaded
      newsletter's id (null for a new one), its title, and the active tab. */
  datatype Session = Session(editor: History, newsletterId: Option<string>, title: string, activeTab: string)

  // ---------------------------------------------------------------------------
  // The title a new newsletter is offered

  predicate IsSentenceEnd(c: char) {
    c == '.' || c == '!' || c == '?'
  }

  /** `split(/[.!?]/)[0]`: everything before the first sentence end. */
  function FirstSegment(s: string): (r: string)
    ensures |r| <= |s| && r == s[..|r|]
    ensures forall i :: 0 <= i < |r| ==> !IsSentenceEnd(r[i])
    ensures |r| < |s| ==> IsSentenceEnd(s[|r|])
  {
    if s == [] || IsSentenceEnd(s[0]) then []
    else [s[0]] + FirstSegment(s[1..])
  }

  /** The first sentence of a text, trimmed and cut to 30 characters. */
  function Summary(plain: string): string {
    var t := Trim(FirstSegment(plain));
    t[..if |t| < 30 then |t| else 30]
  }

  /** A summary is at most 30 characters long, holds no sentence end, does not
      start with white space, and is the start of the trimmed first sentence. */
  lemma SummaryFacts(plain: string)
    ensures |Summary(plain)| <= 30
    ensures forall i :: 0 <= i < |Summary(plain)| ==> !IsSentenceEnd(Summary(plain)[i])
    ensures Summary(plain) == [] || !IsJsWhitespace(Summary(plain)[0])
    ensures StartsWith(Trim(FirstSegment(plain)), Summary(plain))
  {
    var t := Trim(FirstSegment(plain));
    var r := Summary(plain);
    TrimInside(FirstSegment(plain));
    assert r == t[..|r|];
    forall i | 0 <= i < |r| ensures !IsSentenceEnd(r[i]) {
      assert r[i] == t[i];
    }
  }

  /** Every character of the trimmed string is a character of the string,
      and the first is not white space. */
  lemma TrimInside(x: string)
    ensures forall i :: 0 <= i < |Trim(x)| ==> Trim(x)[i] in x
    ensures Trim(x) == [] || !IsJsWhitespace(Trim(x)[0])
  {
    var a := TrimStart(x);
    var t := TrimEnd(a);
    forall i | 0 <= i < |t| ensures t[i] in x {
      assert t[i] == a[i] == x[|x| - |a| + i];
    }
    if t != [] {
      assert t[0] == a[0];
    }
  }

  /** `blocks.find(b => b.type === 'text' && b.content)`. */
  function FirstTextBlock(blocks: seq<Block>): (r: Option<nat>)
    ensures r.Some? ==> r.value < |blocks| && blocks[r.value].kind == TextType && Truthy(blocks[r.value].content)
    ensures r.Some? ==> forall j :: 0 <= j < r.value ==> !(blocks[j].kind == TextType && Truthy(blocks[j].content))
    ensures r.None? ==> forall j :: 0 <= j < |blocks| ==> !(blocks[j].kind == TextType && Truthy(blocks[j].content))
  {
    if blocks == [] then None
    else if blocks[0].kind == TextType && Truthy(blocks[0].content) then Some(0)
    else match FirstTextBlock(blocks[1..])
      case None => None
      case Some(j) => Some(j + 1)
  }

  /** The title before it is made unique: the summary of the first text
      block with content, unless that summary is empty. */
  function DerivedTitle(title: string, blocks: seq<Block>, textOf: string -> string): string {
    match FirstTextBlock(blocks)
    case None => title
    case Some(i) =>
      var s := Summary(textOf(blocks[i].content.value));
      if s != "" then s else title
  }

  /** The k-th candidate: the title itself, then `title (1)`, `title (2)`, ... */
  function Candidate(title: string, k: nat): string {
    if k == 0 then title else title + " (" + NatToString(k) + ")"
  }

  function MaxLength(ts: seq<string>): (m: nat)
    ensures forall i :: 0 <= i < |ts| ==> |ts[i]| <= m
  {
    if ts == [] then 0
    else
      var rest := MaxLength(ts[1..]);
      if |ts[0]| > rest then |ts[0]| else rest
  }

  /** A taken numbered candidate has a number below 10^(longest title). */
  lemma TakenBound(title: string, k: nat, ts: seq<string>)
    requires k >= 1 && Candidate(title, k) in ts
    ensures k < Pow10(MaxLength(ts))
  {
    BelowPow10(k);
    var d := |NatToString(k)|;
    assert d <= MaxLength(ts);
    PowMonotone(d, MaxLength(ts));
  }

  lemma {:induction false} PowMonotone(a: nat, b: nat)
    requires a <= b
    ensures Pow10(a) <= Pow10(b)
    decreases b
  {
    if a < b {
      PowMonotone(a, b - 1);
    }
  }

  /** The first free candidate from the k-th on: every candidate before it
      is taken, and it is not. */
  function FreeIndex(title: string, ts: seq<string>, k: nat): (n: nat)
    ensures n >= k && Candidate(title, n) !in ts
    ensures forall j :: k <= j < n ==> Candidate(title, j) in ts
    decreases Pow10(MaxLength(ts)) + 1 - k
  {
    if Candidate(title, k) !in ts then k
    else
      assert k >= 1 ==> k < Pow10(MaxLength(ts)) by {
        if k >= 1 { TakenBound(title, k, ts); }
      }
      FreeIndex(title, ts, k + 1)
  }

  /** The loop's result: the title if no saved newsletter has it, else the
      first of `title (1)`, `title (2)`, ... that none has. */
  function UniqueTitleOf(title: string, ts: seq<string>): string {
    Candidate(title, FreeIndex(title, ts, 0))
  }

  /** The unique title is free; it is the title itself when that is free, and
      otherwise a numbered candidate all of whose predecessors are taken. */
  lemma UniqueTitleFacts(title: string, ts: seq<string>)
    ensures UniqueTitleOf(title, ts) !in ts
    ensures title !in ts ==> UniqueTitleOf(title, ts) == title
    ensures title in ts ==>
      && FreeIndex(title, ts, 0) >= 1
      && UniqueTitleOf(title, ts) == title + " (" + NatToString(FreeIndex(title, ts, 0)) + ")"
      && forall j :: 1 <= j < FreeIndex(title, ts, 0) ==> title + " (" + NatToString(j) + ")" in ts
  {
    var n := FreeIndex(title, ts, 0);
    if title in ts {
      assert Candidate(title, 0) in ts;
      forall j | 1 <= j < n ensures title + " (" + NatToString(j) + ")" in ts {
        assert Candidate(title, j) in ts;
      }
    }
  }

  /** With one saved newsletter already called 'Untitled Newsletter', the
      next one is offered 'Untitled Newsletter (1)'. */
  lemma UntitledTaken()
    ensures UniqueTitleOf(Untitled, [Untitled]) == Untitled + " (1)"
  {
    var c := Candidate(Untitled, 1);
    assert NatToString(1) == "1";
    assert |c| > |Untitled|;
    assert c !in [Untitled];
    assert FreeIndex(Untitled, [Untitled], 1) == 1;
  }

  /** The uniqueness loop of handleSave. */
  method UniqueTitle(saveTitle: string, saved: seq<SavedNewsletter>) returns (uniqueTitle: string)
    ensures uniqueTitle == UniqueTitleOf(saveTitle, Titles(saved))
  {
    var ts := Titles(saved);
    uniqueTitle := saveTitle;
    var counter: nat := 1;
    while uniqueTitle in ts
      invariant counter >= 1 && uniqueTitle == Candidate(saveTitle, counter - 1)
      invariant FreeIndex(saveTitle, ts, counter - 1) == FreeIndex(saveTitle, ts, 0)
      decreases Pow10(MaxLength(ts)) + 1 - counter
    {
      if counter >= 2 {
        TakenBound(saveTitle, counter - 1, ts);
      }
      uniqueTitle := saveTitle + " (" + NatToString(counter) + ")";
      counter := counter + 1;
    }
  }

  /** The title the prompt offers: for a new newsletter still called
      'Untitled Newsletter', the derived title made unique; else the title. */
  function Suggested(s: Session, saved: seq<SavedNewsletter>, textOf: string -> string): string {
    if !Truthy(s.newsletterId) && s.title == Untitled then
      UniqueTitleOf(DerivedTitle(s.title, s.editor.blocks, textOf), Titles(saved))
    else s.title
  }

  /** An untitled new newsletter is offered a title no saved newsletter has. */
  lemma SuggestedIsFree(s: Session, saved: seq<SavedNewsletter>, textOf: string -> string)
    requires !Truthy(s.newsletterId) && s.title == Untitled
    ensures Suggested(s, saved, textOf) !in Titles(saved)
  {
    UniqueTitleFacts(DerivedTitle(s.title, s.editor.blocks, textOf), Titles(saved));
  }

  // ---------------------------------------------------------------------------
  // handleSave

  /** The body of the POST request. */
  datatype Request = Request(id: Option<string>, title: string, blocks: seq<Block>)

  /** What handleSave did: the title the prompt offered (if it was shown),
      the request it sent (if any), the session after, and its toast. */
  datatype SaveEffect = SaveEffect(prompted: Option<string>, request: Option<Request>, session: Session, toast: Option<Toast>)

  /** handleSave. `answer` is the prompt's answer (None for cancel); `response`
      is the id the server answers with, None when the request fails. */
  method HandleSave(s: Session, saved: seq<SavedNewsletter>, textOf: string -> string,
                    answer: Option<string>, response: Option<string>) returns (e: SaveEffect)
    ensures Truthy(s.newsletterId) ==>
      e.prompted.None? && e.request == Some(Request(s.newsletterId, s.title, s.editor.blocks))
    ensures !Truthy(s.newsletterId) ==> e.prompted == Some(Suggested(s, saved, textOf))
    ensures !Truthy(s.newsletterId) && answer.None? ==> e == SaveEffect(e.prompted, None, s, None)
    ensures !Truthy(s.newsletterId) && answer.Some? ==>
      var t := if answer.value != "" then answer.value else Suggested(s, saved, textOf);
      e.request == Some(Request(s.newsletterId, t, s.editor.blocks)) && e.session.title == t
    ensures e.request.Some? ==>
      && e.session.editor == s.editor && e.session.activeTab == s.activeTab
      && (Truthy(s.newsletterId) ==> e.session.title == s.title)
      && e.session.newsletterId == (if response.Some? then response else s.newsletterId)
      && e.toast == Some(if response.Some? then Toast("Newsletter saved successfully!", SuccessToast)
                         else Toast("Failed to save newsletter", ErrorToast))
  {
    var saveTitle := s.title;
    var session := s;
    e := SaveEffect(None, None, s, None);
    if !Truthy(s.newsletterId) && s.title == Untitled {
      saveTitle := DerivedTitle(s.title, s.editor.blocks, textOf);
      saveTitle := UniqueTitle(saveTitle, saved);
    }
    if !Truthy(s.newsletterId) {
      e := e.(prompted := Some(saveTitle));
      if answer.None? {
        return;
      }
      saveTitle := if answer.value != "" then answer.value else saveTitle;
      session := session.(title := saveTitle);
    }
    var request := Request(s.newsletterId, saveTitle, s.editor.blocks);
    if response.Some? {
      session := session.(newsletterId := response);
      e := e.(request := Some(request), session := session, toast := Some(Toast("Newsletter saved successfully!", SuccessToast)));
    } else {
      e := e.(request := Some(request), session := session, toast := Some(Toast("Failed to save newsletter", ErrorToast)));
    }
  }

  // ---------------------------------------------------------------------------
  // New and delete

  /** What starting a new newsletter leaves: an empty editor with a fresh
      history, no id, the default title, the editor tab. */
  const Fresh: Session := Session(Initial, None, Untitled, "editor")

  /** handleNewNewsletter: on confirmation the session is reset and the
      draft cleared; otherwise nothing happens. */
  function NewNewsletter(s: Session, confirmed: bool): (r: (Session, bool))
    ensures confirmed ==> r == (Fresh, true)
    ensures !confirmed ==> r == (s, false)
  {
    if confirmed then (Fresh, true) else (s, false)
  }

  /** What handleDeleteNewsletter did: the session after, whether the draft
      was cleared, whether the list is fetched again, and its toast. */
  datatype DeleteEffect = DeleteEffect(session: Session, draftCleared: bool, refetch: bool, toast: Option<Toast>)

  /** handleDeleteNewsletter. `response` is whether the DELETE answered ok
      (None when it threw); `confirmNew` answers the reset's own dialog. */
  function HandleDelete(s: Session, id: string, confirmDelete: bool, response: Option<bool>, confirmNew: bool): (e: DeleteEffect)
    ensures !confirmDelete ==> e == DeleteEffect(s, false, false, None)
    ensures confirmDelete && response != Some(true) ==>
      e == DeleteEffect(s, false, false, Some(Toast("Failed to delete newsletter", ErrorToast)))
    ensures confirmDelete && response == Some(true) ==> e.refetch && e.toast.None?
    ensures confirmDelete && response == Some(true) && s.newsletterId == Some(id) && confirmNew ==>
      e.session == Fresh && e.draftCleared
    ensures s.newsletterId != Some(id) || !confirmNew ==> e.session == s && !e.draftCleared
  {
    if !confirmDelete then DeleteEffect(s, false, false, None)
    else if response == Some(true) then
      var (after, cleared) := if s.newsletterId == Some(id) then NewNewsletter(s, confirmNew) else (s, false);
      DeleteEffect(after, cleared, true, None)
    else DeleteEffect(s, false, false, Some(Toast("Failed to delete newsletter", ErrorToast)))
  }
}

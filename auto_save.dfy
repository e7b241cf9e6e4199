/** src/hooks/useAutoSave.ts: the draft kept in sessionStorage. Session
    storage is the map `Storage`; JSON.stringify and JSON.parse are the
    parameters `stringify` and `parse` (None when parsing throws); the clock
    is the string `now` that Date.now().toString() gives. The debounce
    timers are left out: a write sees the debounced values. */
module AutoSave {
  import opened Common
  import opened Types
  import opened EditorStore

  const DraftKey: string := "newsletter_draft"
  const Untitled: string := "Untitled Newsletter"

  type Storage = map<string, string>

  /** The object the hook writes. The timestamps are not modelled. */
  datatype DraftRecord = DraftRecord(id: string, title: string, blocks: seq<Block>)

  /** The three properties restoreDraft reads from a parsed draft; a missing
      property is None. */
  datatype Draft = Draft(id: Option<string>, title: Option<string>, blocks: Option<seq<Block>>)

  /** A draft is worth writing once there is a block or a title of one's own. */
  predicate ShouldWrite(blocks: seq<Block>, title: string) {
    |blocks| > 0 || title != Untitled
  }

  /** `newsletterId || Date.now().toString()`. */
  function DraftId(newsletterId: Option<string>, now: string): (id: string)
    ensures Truthy(newsletterId) ==> id == newsletterId.value
    ensures !Truthy(newsletterId) ==> id == now
  {
    if Truthy(newsletterId) then newsletterId.value else now
  }

  /** The persisting effect: the draft key set to the serialised draft, or
      the storage unchanged when there is nothing worth writing. */
  function WriteDraft(storage: Storage, blocks: seq<Block>, title: string, newsletterId: Option<string>,
                      now: string, stringify: DraftRecord -> string): (r: Storage)
    ensures !ShouldWrite(blocks, title) ==> r == storage
    ensures ShouldWrite(blocks, title) ==>
      DraftKey in r && r[DraftKey] == stringify(DraftRecord(DraftId(newsletterId, now), title, blocks))
    ensures forall k :: k != DraftKey ==> (k in r <==> k in storage) && (k in r ==> r[k] == storage[k])
  {
    if ShouldWrite(blocks, title) then
      storage[DraftKey := stringify(DraftRecord(DraftId(newsletterId, now), title, blocks))]
    else storage
  }

  /** What a restore sets: the blocks, the newsletter id, the title. */
  datatype Restored = Restored(blocks: seq<Block>, newsletterId: Option<string>, title: string)

  /** What restoreDraft finds: a non-empty stored string that parses, with a
      non-empty block list. A missing or empty id becomes null, a missing or
      empty title 'Untitled Newsletter'. */
  function DraftToRestore(storage: Storage, parse: string -> Option<Draft>): (r: Option<Restored>)
    ensures r.Some? <==>
      && DraftKey in storage && storage[DraftKey] != ""
      && parse(storage[DraftKey]).Some?
      && parse(storage[DraftKey]).value.blocks.Some? && |parse(storage[DraftKey]).value.blocks.value| > 0
    ensures r.Some? ==>
      var d := parse(storage[DraftKey]).value;
      && r.value.blocks == d.blocks.value
      && (Truthy(d.id) ==> r.value.newsletterId == d.id)
      && (!Truthy(d.id) ==> r.value.newsletterId.None?)
      && r.value.title == (if Truthy(d.title) then d.title.value else Untitled)
  {
    if DraftKey in storage && storage[DraftKey] != "" then
      match parse(storage[DraftKey])
      case None => None
      case Some(d) =>
        if d.blocks.Some? && |d.blocks.value| > 0 then
          Some(Restored(d.blocks.value, if Truthy(d.id) then d.id else None, if Truthy(d.title) then d.title.value else Untitled))
        else None
    else None
  }

  /** restoreDraft on the editor store: reset, then the restored blocks set;
      the newsletter store's id and title are returned. Without a draft to
      restore nothing changes, and an unparsable draft is passed over. */
  method RestoreDraft(editor: Store, storage: Storage, parse: string -> Option<Draft>,
                      newsletterId: Option<string>, title: string)
    returns (newId: Option<string>, newTitle: string)
    requires editor.Valid()
    modifies editor
    ensures editor.Valid()
    ensures DraftToRestore(storage, parse).None? ==>
      editor.State() == old(editor.State()) && newId == newsletterId && newTitle == title
    ensures DraftToRestore(storage, parse).Some? ==>
      var d := DraftToRestore(storage, parse).value;
      editor.State() == AfterSet(Initial, d.blocks) && newId == d.newsletterId && newTitle == d.title
  {
    newId, newTitle := newsletterId, title;
    if DraftKey in storage && storage[DraftKey] != "" {
      var parsed := parse(storage[DraftKey]);
      if parsed.Some? {
        var d := parsed.value;
        if d.blocks.Some? && |d.blocks.value| > 0 {
          editor.Reset();
          editor.SetBlocks(d.blocks.value);
          newId := if Truthy(d.id) then d.id else None;
          newTitle := if Truthy(d.title) then d.title.value else Untitled;
        }
      }
    }
  }

  /** After a restore the history holds exactly the empty start and the
      restored blocks: one undo goes back to an empty editor, nothing earlier. */
  lemma RestoredHistory(blocks: seq<Block>)
    requires |blocks| > 0
    ensures AfterSet(Initial, blocks) == History(blocks, [[], blocks], 1)
    ensures AfterUndo(AfterSet(Initial, blocks)).blocks == []
  {
  }

  /** clearDraft: the draft key goes and every other key stays. */
  function ClearDraft(storage: Storage): (r: Storage)
    ensures DraftKey !in r
    ensures forall k :: k != DraftKey ==> (k in r <==> k in storage) && (k in r ==> r[k] == storage[k])
  {
    storage - {DraftKey}
  }

  /** A cleared storage has no draft to restore. */
  lemma ClearedRestoresNothing(storage: Storage, parse: string -> Option<Draft>)
    ensures DraftToRestore(ClearDraft(storage), parse).None?
  {
  }

  /** A draft written and read back restores what was written, when parse
      undoes stringify: the blocks and title, the newsletter's id or else the
      timestamp; the default title stands in for an empty one. A draft with
      no blocks (written for its title alone) restores nothing. */
  lemma WriteThenRestore(storage: Storage, blocks: seq<Block>, title: string, newsletterId: Option<string>,
                         now: string, stringify: DraftRecord -> string, parse: string -> Option<Draft>)
    requires ShouldWrite(blocks, title)
    requires var rec := DraftRecord(DraftId(newsletterId, now), title, blocks);
      stringify(rec) != "" && parse(stringify(rec)) == Some(Draft(Some(rec.id), Some(rec.title), Some(rec.blocks)))
    ensures var r := DraftToRestore(WriteDraft(storage, blocks, title, newsletterId, now, stringify), parse);
      && (|blocks| == 0 ==> r.None?)
      && (|blocks| > 0 ==> r == Some(Restored(blocks,
            if Truthy(newsletterId) then newsletterId else if now != "" then Some(now) else None,
            if title != "" then title else Untitled)))
  {
    var w := WriteDraft(storage, blocks, title, newsletterId, now, stringify);
    assert w[DraftKey] == stringify(DraftRecord(DraftId(newsletterId, now), title, blocks));
  }
}

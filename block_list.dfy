/** src/components/Editor/BlockList.tsx: the editing actions of the block
    list. Each builds the next list of blocks from the current one and hands
    it to the store's setBlocks. Fresh ids (uuid v4) are parameters. */
module BlockList {
  import opened Common
  import opened Types
  import opened Numbers
  import opened BlockEdits

  /** The empty block the insert buttons add: a placeholder awaiting an
      upload for 'image', an empty text block for any other type. */
  function NewBlock(kind: BlockType, id: string): (b: Block)
    ensures b.id == id
    ensures kind == ImageType ==> b.kind == PlaceholderType && b.content.None?
    ensures kind != ImageType ==> b.kind == TextType && b.content == Some("")
  {
    if kind == ImageType then Block(id, PlaceholderType, None, None, None, None, None, None, None, None)
    else Block(id, TextType, Some(""), None, None, None, None, None, None, None)
  }

  /** addBlock: the new block spliced into a copy of the list at `index`. */
  method AddBlock(blocks: seq<Block>, kind: BlockType, index: int, freshId: string) returns (newBlocks: seq<Block>)
    ensures |newBlocks| == |blocks| + 1
    ensures newBlocks[SpliceStart(index, |blocks|)] == NewBlock(kind, freshId)
    ensures RemoveAt(newBlocks, SpliceStart(index, |blocks|)) == blocks
  {
    var newBlock := NewBlock(kind, freshId);
    newBlocks := InsertAt(blocks, newBlock, index);
    InsertThenRemove(blocks, newBlock, index);
  }

  // ---------------------------------------------------------------------------
  // Inline upload

  /** One element of the upload response. The server sends the stored image's
      URL as `src`; no response carries an `imageUrl`. */
  datatype Slice = Slice(src: Option<string>, imageUrl: Option<string>, links: Option<seq<LinkInfo>>)

  /** A response element as the upload endpoint builds it (server/app.ts). */
  predicate FromServer(s: Slice) {
    s.imageUrl.None?
  }

  /** The image block made of a slice, as written: its src is read from the
      slice's `imageUrl`. */
  function SliceBlockAsWritten(s: Slice, fileName: string, id: string): Block {
    Block(id, ImageType, None, s.imageUrl, Some(fileName), None, s.links, None, None, None)
  }

  /** The image block made of a slice, reading the URL the response carries. */
  function SliceBlock(s: Slice, fileName: string, id: string): (b: Block)
    ensures b.id == id && b.kind == ImageType && b.src == s.src && b.alt == Some(fileName) && b.links == s.links
  {
    Block(id, ImageType, None, s.src, Some(fileName), None, s.links, None, None, None)
  }

  /** As written, every block made from a server response has no src, even
      when the response names the stored image; read from `src`, the block
      carries that URL. */
  lemma SliceSrcLost(s: Slice, fileName: string, id: string)
    requires FromServer(s) && s.src.Some?
    ensures SliceBlockAsWritten(s, fileName, id).src.None?
    ensures SliceBlock(s, fileName, id).src == s.src
  {
  }

  /** The new blocks as written, one per slice, in slice order: no block
      made from a server response has a src. */
  function SliceBlocksAsWritten(slices: seq<Slice>, fileName: string, ids: seq<string>): (bs: seq<Block>)
    requires |ids| == |slices|
    ensures |bs| == |slices|
    ensures forall j :: 0 <= j < |slices| ==> bs[j] == SliceBlockAsWritten(slices[j], fileName, ids[j])
    ensures forall j :: 0 <= j < |slices| && FromServer(slices[j]) ==> bs[j].src.None?
  {
    seq(|slices|, j requires 0 <= j < |slices| => SliceBlockAsWritten(slices[j], fileName, ids[j]))
  }

  /** The corrected new blocks, one per slice, in slice order. */
  function SliceBlocks(slices: seq<Slice>, fileName: string, ids: seq<string>): (bs: seq<Block>)
    requires |ids| == |slices|
    ensures |bs| == |slices|
    ensures forall j :: 0 <= j < |slices| ==> bs[j] == SliceBlock(slices[j], fileName, ids[j])
  {
    seq(|slices|, j requires 0 <= j < |slices| => SliceBlock(slices[j], fileName, ids[j]))
  }

  /** The updater of handleInlineUpload: the first block with the placeholder's
      id is replaced by the new blocks; if it is gone, the list is unchanged. */
  function ReplacePlaceholder(prev: seq<Block>, blockId: string, newBlocks: seq<Block>): (r: seq<Block>)
    ensures (forall j :: 0 <= j < |prev| ==> prev[j].id != blockId) ==> r == prev
    ensures FindIndexById(prev, blockId).Some? ==>
      var i := FindIndexById(prev, blockId).value;
      && |r| == |prev| - 1 + |newBlocks|
      && r[..i] == prev[..i]
      && r[i..i + |newBlocks|] == newBlocks
      && r[i + |newBlocks|..] == prev[i + 1..]
      && multiset(r) == multiset(prev) - multiset{prev[i]} + multiset(newBlocks)
  {
    match FindIndexById(prev, blockId)
    case None => prev
    case Some(i) =>
      var r := ReplaceAt(prev, i, newBlocks);
      assert r[..i] == prev[..i];
      assert r[i..i + |newBlocks|] == newBlocks;
      assert r[i + |newBlocks|..] == prev[i + 1..];
      r
  }

  /** handleInlineUpload as written: on success the placeholder gives way to
      one image block per slice, src read from `imageUrl`, and a success
      toast counts them; a failed upload (`Failure` carrying the error's
      message) leaves the list as it was and shows the message, or 'Failed
      to upload image' when it is empty. */
  method HandleInlineUpload(prev: seq<Block>, blockId: string, upload: Result<seq<Slice>>, fileName: string, ids: seq<string>)
    returns (next: seq<Block>, toast: Toast)
    requires upload.Success? ==> |ids| == |upload.value|
    ensures upload.Success? ==> next == ReplacePlaceholder(prev, blockId, SliceBlocksAsWritten(upload.value, fileName, ids))
    ensures upload.Success? ==>
      toast == Toast("Successfully added " + NatToString(|upload.value|) + " image slice(s)", SuccessToast)
    ensures upload.Failure? ==> next == prev && toast.kind == ErrorToast
    ensures upload.Failure? ==> toast.message == (if upload.error != "" then upload.error else "Failed to upload image")
  {
    if upload.Failure? {
      next := prev;
      var message := if upload.error != "" then upload.error else "Failed to upload image";
      toast := Toast(message, ErrorToast);
      return;
    }
    var slices := upload.value;
    var newBlocks := SliceBlocksAsWritten(slices, fileName, ids);
    next := ReplacePlaceholder(prev, blockId, newBlocks);
    toast := Toast("Successfully added " + NatToString(|slices|) + " image slice(s)", SuccessToast);
  }

  /** handleInlineUpload with the block's src read from the response's `src`;
      everything else as written. */
  method HandleInlineUploadCorrected(prev: seq<Block>, blockId: string, upload: Result<seq<Slice>>, fileName: string, ids: seq<string>)
    returns (next: seq<Block>, toast: Toast)
    requires upload.Success? ==> |ids| == |upload.value|
    ensures upload.Success? ==> next == ReplacePlaceholder(prev, blockId, SliceBlocks(upload.value, fileName, ids))
    ensures upload.Success? ==>
      toast == Toast("Successfully added " + NatToString(|upload.value|) + " image slice(s)", SuccessToast)
    ensures upload.Failure? ==> next == prev && toast.kind == ErrorToast
    ensures upload.Failure? ==> toast.message == (if upload.error != "" then upload.error else "Failed to upload image")
  {
    if upload.Failure? {
      next := prev;
      var message := if upload.error != "" then upload.error else "Failed to upload image";
      toast := Toast(message, ErrorToast);
      return;
    }
    var slices := upload.value;
    var newBlocks := SliceBlocks(slices, fileName, ids);
    next := ReplacePlaceholder(prev, blockId, newBlocks);
    toast := Toast("Successfully added " + NatToString(|slices|) + " image slice(s)", SuccessToast);
  }

  /** A successful upload answered by the server, with the placeholder still
      in the list: as written, every block that replaces it has no src; with
      the correction, each carries its slice's src. */
  lemma InlineUploadSrc(prev: seq<Block>, blockId: string, slices: seq<Slice>, fileName: string, ids: seq<string>)
    requires |ids| == |slices|
    requires forall j :: 0 <= j < |slices| ==> FromServer(slices[j])
    requires FindIndexById(prev, blockId).Some?
    ensures var i := FindIndexById(prev, blockId).value;
      var asWritten := ReplacePlaceholder(prev, blockId, SliceBlocksAsWritten(slices, fileName, ids));
      var corrected := ReplacePlaceholder(prev, blockId, SliceBlocks(slices, fileName, ids));
      && |asWritten| == |corrected| == |prev| - 1 + |slices|
      && (forall k :: i <= k < i + |slices| ==> asWritten[k].src.None?)
      && (forall k :: i <= k < i + |slices| ==> corrected[k].src == slices[k - i].src)
  {
    var i := FindIndexById(prev, blockId).value;
    var ws, cs := SliceBlocksAsWritten(slices, fileName, ids), SliceBlocks(slices, fileName, ids);
    var asWritten, corrected := ReplaceAt(prev, i, ws), ReplaceAt(prev, i, cs);
    assert ReplacePlaceholder(prev, blockId, ws) == asWritten;
    assert ReplacePlaceholder(prev, blockId, cs) == corrected;
    forall k | i <= k < i + |slices|
      ensures asWritten[k].src.None? && corrected[k].src == slices[k - i].src
    {
      ReplacedAt(prev, i, ws, k - i);
      ReplacedAt(prev, i, cs, k - i);
    }
  }

  /** The j-th new block stands j places after the replaced position. */
  lemma ReplacedAt(prev: seq<Block>, i: nat, newBlocks: seq<Block>, j: nat)
    requires i < |prev| && j < |newBlocks|
    ensures i + j < |ReplaceAt(prev, i, newBlocks)| && ReplaceAt(prev, i, newBlocks)[i + j] == newBlocks[j]
  {
  }

  // ---------------------------------------------------------------------------
  // Drag and drop

  /** handleDragEnd. Both ids come from the sortable items, which are the
      blocks' ids. With no drop target, or a drop on itself, nothing moves. */
  function DragEnd(blocks: seq<Block>, activeId: string, overId: Option<string>): (r: seq<Block>)
    requires FindIndexById(blocks, activeId).Some?
    requires overId.Some? ==> FindIndexById(blocks, overId.value).Some?
    ensures |r| == |blocks|
  {
    if overId.Some? && activeId != overId.value then
      Move(blocks, FindIndexById(blocks, activeId).value, FindIndexById(blocks, overId.value).value)
    else blocks
  }

  /** After a drop on another block, the dragged block stands where that
      block stood, the others keep their relative order, and nothing is lost
      or duplicated. */
  lemma DragEndMoves(blocks: seq<Block>, activeId: string, overId: Option<string>)
    requires FindIndexById(blocks, activeId).Some?
    requires overId.Some? ==> FindIndexById(blocks, overId.value).Some?
    ensures overId.None? || activeId == overId.value ==> DragEnd(blocks, activeId, overId) == blocks
    ensures overId.Some? && activeId != overId.value ==>
      var from, to := FindIndexById(blocks, activeId).value, FindIndexById(blocks, overId.value).value;
      var r := DragEnd(blocks, activeId, overId);
      && r[to] == blocks[from] && r[to].id == activeId
      && RemoveAt(r, to) == RemoveAt(blocks, from)
      && multiset(r) == multiset(blocks)
  {
    if overId.Some? && activeId != overId.value {
      MoveFacts(blocks, FindIndexById(blocks, activeId).value, FindIndexById(blocks, overId.value).value);
    }
  }
}

/** src/stores/editorStore.ts: the editor's blocks with a linear undo/redo
    history. The store's state is the class `Store`; `History` is the value of
    that state, and the functions on it say what each action makes of it. */
module EditorStore {
  import opened Common
  import opened Types
  import opened BlockEdits

  /** The store's three fields. */
  datatype History = History(blocks: seq<Block>, history: seq<seq<Block>>, historyIndex: int)

  /** What every action keeps: the history is never empty, the index points
      into it, and the blocks shown are the entry it points at. */
  predicate Consistent(h: History) {
    |h.history| > 0 && 0 <= h.historyIndex < |h.history| && h.blocks == h.history[h.historyIndex]
  }

  /** The state the store is created with and reset to. */
  const Initial: History := History([], [[]], 0)

  /** setBlocks: a value deep-equal to the current blocks changes nothing in
      the history; any other value drops the entries after the index, is
      appended, and becomes the current entry. */
  function AfterSet(h: History, next: seq<Block>): (r: History)
    requires Consistent(h)
    ensures Consistent(r) && r.blocks == next
    ensures next == h.blocks ==> r == h
    ensures next != h.blocks ==>
      && r.historyIndex == h.historyIndex + 1 && |r.history| == h.historyIndex + 2
      && r.history[..h.historyIndex + 1] == h.history[..h.historyIndex + 1]
  {
    if next != h.blocks then
      var newHistory := h.history[..h.historyIndex + 1] + [next];
      History(next, newHistory, |newHistory| - 1)
    else h.(blocks := next)
  }

  /** undo: one entry back, or nothing at the first. */
  function AfterUndo(h: History): (r: History)
    requires Consistent(h)
    ensures Consistent(r) && r.history == h.history
    ensures h.historyIndex == 0 ==> r == h
    ensures h.historyIndex > 0 ==> r.historyIndex == h.historyIndex - 1
  {
    if h.historyIndex > 0 then
      var newIndex := h.historyIndex - 1;
      h.(historyIndex := newIndex, blocks := h.history[newIndex])
    else h
  }

  /** redo: one entry forward, or nothing at the last. */
  function AfterRedo(h: History): (r: History)
    requires Consistent(h)
    ensures Consistent(r) && r.history == h.history
    ensures h.historyIndex == |h.history| - 1 ==> r == h
    ensures h.historyIndex < |h.history| - 1 ==> r.historyIndex == h.historyIndex + 1
  {
    if h.historyIndex < |h.history| - 1 then
      var newIndex := h.historyIndex + 1;
      h.(historyIndex := newIndex, blocks := h.history[newIndex])
    else h
  }

  // ---------------------------------------------------------------------------
  // The store

  class Store {
    var blocks: seq<Block>
    var history: seq<seq<Block>>
    var historyIndex: int

    function State(): History
      reads this
    {
      History(blocks, history, historyIndex)
    }

    ghost predicate Valid()
      reads this
    {
      Consistent(State())
    }

    constructor ()
      ensures Valid() && State() == Initial
    {
      blocks := [];
      history := [[]];
      historyIndex := 0;
    }

    method SetBlocks(next: seq<Block>)
      requires Valid()
      modifies this
      ensures Valid() && State() == AfterSet(old(State()), next)
    {
      var prevBlocks := blocks;
      if prevBlocks != next {
        var newHistory := history[..historyIndex + 1];
        newHistory := newHistory + [next];
        blocks, history, historyIndex := next, newHistory, |newHistory| - 1;
        return;
      }
      blocks := next;
    }

    /** setBlocks with an updater: the function is applied to the current blocks. */
    method SetBlocksWith(f: seq<Block> -> seq<Block>)
      requires Valid()
      modifies this
      ensures Valid() && State() == AfterSet(old(State()), f(old(blocks)))
    {
      SetBlocks(f(blocks));
    }

    method Undo()
      requires Valid()
      modifies this
      ensures Valid() && State() == AfterUndo(old(State()))
    {
      if historyIndex > 0 {
        var newIndex := historyIndex - 1;
        historyIndex, blocks := newIndex, history[newIndex];
      }
    }

    method Redo()
      requires Valid()
      modifies this
      ensures Valid() && State() == AfterRedo(old(State()))
    {
      if historyIndex < |history| - 1 {
        var newIndex := historyIndex + 1;
        historyIndex, blocks := newIndex, history[newIndex];
      }
    }

    method Reset()
      modifies this
      ensures Valid() && State() == Initial
    {
      blocks, history, historyIndex := [], [[]], 0;
    }

    method UpdateBlock(id: string, updates: Patch)
      requires Valid()
      modifies this
      ensures Valid() && State() == AfterSet(old(State()), UpdateById(old(blocks), id, updates))
    {
      SetBlocks(UpdateById(blocks, id, updates));
    }

    method DeleteBlock(id: string)
      requires Valid()
      modifies this
      ensures Valid() && State() == AfterSet(old(State()), RemoveById(old(blocks), id))
    {
      SetBlocks(RemoveById(blocks, id));
    }

    method AddBlock(block: Block, index: int)
      requires Valid()
      modifies this
      ensures Valid() && State() == AfterSet(old(State()), InsertAt(old(blocks), block, index))
    {
      SetBlocks(InsertAt(blocks, block, index));
    }
  }

  // ---------------------------------------------------------------------------
  // What the history satisfies

  /** Undo, then redo, from any entry but the first, comes back to the same state. */
  lemma UndoThenRedo(h: History)
    requires Consistent(h) && h.historyIndex > 0
    ensures AfterRedo(AfterUndo(h)) == h
  {
  }

  /** Redo, then undo, from any entry but the last, comes back to the same state. */
  lemma RedoThenUndo(h: History)
    requires Consistent(h) && h.historyIndex < |h.history| - 1
    ensures AfterUndo(AfterRedo(h)) == h
  {
  }

  /** A change makes the state the last entry: there is nothing to redo, and
      undo shows the blocks as they were before the change. */
  lemma ChangeDropsFuture(h: History, next: seq<Block>)
    requires Consistent(h) && next != h.blocks
    ensures AfterRedo(AfterSet(h, next)) == AfterSet(h, next)
    ensures AfterUndo(AfterSet(h, next)).blocks == h.blocks
  {
    var r := AfterSet(h, next);
    assert r.history[h.historyIndex] == h.history[h.historyIndex];
  }

  /** Updating an id no block has leaves the whole state as it was: no new
      history entry. */
  lemma UpdateUnknownId(h: History, id: string, p: Patch)
    requires Consistent(h)
    requires forall i :: 0 <= i < |h.blocks| ==> h.blocks[i].id != id
    ensures AfterSet(h, UpdateById(h.blocks, id, p)) == h
  {
    UpdateUnmatched(h.blocks, id, p);
  }

  /** The blocks after a run of values: the last one, or [] for none. */
  function LastOr(changes: seq<seq<Block>>): seq<Block> {
    if changes == [] then [] else changes[|changes| - 1]
  }

  /** Each value differs from the blocks before it. */
  predicate EachDiffers(changes: seq<seq<Block>>)
    decreases |changes|
  {
    changes == [] ||
    (EachDiffers(changes[..|changes| - 1]) && changes[|changes| - 1] != LastOr(changes[..|changes| - 1]))
  }

  /** The history a run of changes builds from the initial state: each
      change that differs from the blocks before it adds one entry. */
  lemma {:induction false} ChangesFromInitial(changes: seq<seq<Block>>)
    requires EachDiffers(changes)
    ensures Replay(Initial, changes) == History(LastOr(changes), [[]] + changes, |changes|)
    decreases |changes|
  {
    if changes != [] {
      var n := |changes|;
      var init, last := changes[..n - 1], changes[n - 1];
      ChangesFromInitial(init);
      AppendEntry(init, last);
      PrependSnoc([[]], changes);
    }
  }

  lemma PrependSnoc<T>(p: seq<T>, s: seq<T>)
    requires s != []
    ensures p + s[..|s| - 1] + [s[|s| - 1]] == p + s
  {
    assert s[..|s| - 1] + [s[|s| - 1]] == s;
  }

  lemma AppendEntry(init: seq<seq<Block>>, last: seq<Block>)
    requires last != LastOr(init)
    ensures AfterSet(History(LastOr(init), [[]] + init, |init|), last) == History(last, [[]] + init + [last], |init| + 1)
  {
    var h := History(LastOr(init), [[]] + init, |init|);
    assert h.history[..h.historyIndex + 1] == [[]] + init;
  }

  /** The state after setBlocks with each value in turn. */
  function Replay(h: History, changes: seq<seq<Block>>): (r: History)
    requires Consistent(h)
    ensures Consistent(r)
    decreases |changes|
  {
    if changes == [] then h else AfterSet(Replay(h, changes[..|changes| - 1]), changes[|changes| - 1])
  }
}

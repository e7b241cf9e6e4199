/** The list edits the editor makes on its blocks, shared by the store
    (src/stores/editorStore.ts) and the block list
    (src/components/Editor/BlockList.tsx): update and delete by id, insertion
    with Array.prototype.splice, replacement of a block by several, and the
    drag-and-drop move. */
module BlockEdits {
  import opened Common
  import opened Types

  /** `blocks.map(b => b.id === id ? { ...b, ...updates } : b)`. */
  function UpdateById(bs: seq<Block>, id: string, p: Patch): (r: seq<Block>)
    ensures |r| == |bs|
    ensures forall i :: 0 <= i < |bs| && bs[i].id != id ==> r[i] == bs[i]
    ensures forall i :: 0 <= i < |bs| && bs[i].id == id ==> r[i] == Merge(bs[i], p)
  {
    seq(|bs|, i requires 0 <= i < |bs| => if bs[i].id == id then Merge(bs[i], p) else bs[i])
  }

  /** An id no block has leaves the list as it was, equal value for value. */
  lemma UpdateUnmatched(bs: seq<Block>, id: string, p: Patch)
    requires forall i :: 0 <= i < |bs| ==> bs[i].id != id
    ensures UpdateById(bs, id, p) == bs
  {
  }

  /** `blocks.filter(b => b.id !== id)`. */
  function RemoveById(bs: seq<Block>, id: string): (r: seq<Block>)
    ensures |r| <= |bs|
    ensures forall b :: b in r ==> b in bs && b.id != id
  {
    if bs == [] then []
    else (if bs[0].id != id then [bs[0]] else []) + RemoveById(bs[1..], id)
  }

  /** Exactly the blocks with the id go: every other block stays as often as it was there. */
  lemma {:induction false} RemoveByIdCounts(bs: seq<Block>, id: string)
    ensures forall b: Block :: b.id != id ==> multiset(RemoveById(bs, id))[b] == multiset(bs)[b]
    ensures forall b: Block :: b.id == id ==> b !in RemoveById(bs, id)
  {
    if bs != [] {
      RemoveByIdCounts(bs[1..], id);
      assert bs == [bs[0]] + bs[1..];
    }
  }

  /** The filter works piece by piece, so the blocks that stay keep their order. */
  lemma {:induction false} RemoveByIdConcat(a: seq<Block>, b: seq<Block>, id: string)
    ensures RemoveById(a + b, id) == RemoveById(a, id) + RemoveById(b, id)
  {
    if a != [] {
      assert (a + b)[1..] == a[1..] + b;
      RemoveByIdConcat(a[1..], b, id);
    } else {
      assert a + b == b;
    }
  }

  /** Where Array.prototype.splice starts for an integral index: counted from
      the end when negative, clamped to [0, length]. */
  function SpliceStart(index: int, len: nat): (k: nat)
    ensures k <= len
    ensures 0 <= index <= len ==> k == index
    ensures index < 0 && index + len >= 0 ==> k == index + len
    ensures index > len ==> k == len
    ensures index + len < 0 ==> k == 0
  {
    if index < 0 then (if len + index > 0 then len + index else 0)
    else if index < len then index else len
  }

  /** `copy.splice(index, 0, block)` on a copy of the list. */
  function InsertAt(bs: seq<Block>, b: Block, index: int): (r: seq<Block>)
    ensures |r| == |bs| + 1
    ensures r[SpliceStart(index, |bs|)] == b
    ensures multiset(r) == multiset(bs) + multiset{b}
  {
    var k := SpliceStart(index, |bs|);
    assert bs == bs[..k] + bs[k..];
    bs[..k] + [b] + bs[k..]
  }

  /** The list without its k-th element. */
  function RemoveAt(bs: seq<Block>, k: nat): (r: seq<Block>)
    requires k < |bs|
    ensures |r| == |bs| - 1
  {
    bs[..k] + bs[k + 1..]
  }

  /** Taking the inserted block out again gives back the list: the others are
      untouched and in order. */
  lemma InsertThenRemove(bs: seq<Block>, b: Block, index: int)
    ensures RemoveAt(InsertAt(bs, b, index), SpliceStart(index, |bs|)) == bs
  {
    var k := SpliceStart(index, |bs|);
    var r := InsertAt(bs, b, index);
    assert r[..k] == bs[..k];
    assert r[k + 1..] == bs[k..];
    assert bs[..k] + bs[k..] == bs;
  }

  /** `findIndex(b => b.id === id)`, `None` for -1. */
  function FindIndexById(bs: seq<Block>, id: string): (r: Option<nat>)
    ensures r.Some? ==> r.value < |bs| && bs[r.value].id == id
    ensures r.Some? ==> forall j :: 0 <= j < r.value ==> bs[j].id != id
    ensures r.None? ==> forall j :: 0 <= j < |bs| ==> bs[j].id != id
  {
    if bs == [] then None
    else if bs[0].id == id then Some(0)
    else match FindIndexById(bs[1..], id)
      case None => None
      case Some(j) => Some(j + 1)
  }

  /** `copy.splice(index, 1, ...newBlocks)`: the block at `index` replaced by the new ones. */
  function ReplaceAt(bs: seq<Block>, index: nat, newBlocks: seq<Block>): (r: seq<Block>)
    requires index < |bs|
    ensures |r| == |bs| - 1 + |newBlocks|
    ensures multiset(r) == multiset(bs) - multiset{bs[index]} + multiset(newBlocks)
  {
    assert bs == bs[..index] + [bs[index]] + bs[index + 1..];
    bs[..index] + newBlocks + bs[index + 1..]
  }

  /** arrayMove(items, from, to): the element at `from` taken out and put
      back in at `to`. */
  function Move(items: seq<Block>, from: nat, to: nat): (r: seq<Block>)
    requires from < |items| && to < |items|
    ensures |r| == |items|
  {
    var rest := RemoveAt(items, from);
    rest[..to] + [items[from]] + rest[to..]
  }

  /** The moved block lands at `to`; taking it out there leaves the others in
      their old relative order; nothing is lost or duplicated. */
  lemma MoveFacts(items: seq<Block>, from: nat, to: nat)
    requires from < |items| && to < |items|
    ensures Move(items, from, to)[to] == items[from]
    ensures RemoveAt(Move(items, from, to), to) == RemoveAt(items, from)
    ensures multiset(Move(items, from, to)) == multiset(items)
  {
    var x := items[from];
    var rest := RemoveAt(items, from);
    var r := Move(items, from, to);
    assert r == rest[..to] + [x] + rest[to..];
    assert r[..to] == rest[..to];
    assert r[to + 1..] == rest[to..];
    assert rest[..to] + rest[to..] == rest;
    calc {
      multiset(r);
      multiset(rest[..to]) + multiset{x} + multiset(rest[to..]);
      multiset(rest) + multiset{x};
      { assert rest == items[..from] + items[from + 1..]; }
      multiset(items[..from]) + multiset(items[from + 1..]) + multiset{x};
      { assert items == items[..from] + [x] + items[from + 1..]; }
      multiset(items);
    }
  }

}

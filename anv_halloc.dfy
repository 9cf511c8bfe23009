/**
 * The hierarchical allocator of include/anv_halloc.h.  Every block carries a
 * header in front of its data: a fixed-capacity array of child pointers, a
 * parent pointer, its index in the parent's array, a child count, the
 * capacity, and a check value.  Allocating under a parent attaches the new
 * block to the parent's next free child slot; freeing a block frees its
 * recorded children first, recursively, and then the block itself.
 *
 * Blocks are named by ids handed out in allocation order, so a child's id
 * is always greater than its parent's.  The child array is the sequence of
 * recorded ids (its length is the child count).  Freeing a block does not
 * detach it from its parent: the parent's slot then names a freed block.
 */
module AnvHalloc {
  import opened Bytes

  /** ANVH__CHECK_VAL. */
  const CHECK_VAL: nat := 0xFAF0
  /** sizeof(void *) on a 64-bit target. */
  const PTR_SZ: nat := 8
  /** ANVH__DATA_SZ: four uint16 fields and the parent pointer. */
  const DATA_SZ: nat := 2 * 4 + PTR_SZ
  /** Capacities and counts are uint16. */
  const U16: nat := 0x1_0000

  /** The header bytes in front of the data of a block with room for
      `capacity` children. */
  function HeaderSize(capacity: nat): nat
  {
    DATA_SZ + PTR_SZ * capacity
  }

  /** A block's header fields and its data bytes; `children` holds the ids in
      the first `children_count` child slots. */
  datatype Block = Block(parent: Option<nat>, parentIdx: nat, capacity: nat, check: nat,
                         children: seq<nat>, data: seq<uint8>)

  /** The live blocks by id. */
  type Heap = map<nat, Block>

  /** The header of live block `id` is consistent with the others. */
  predicate BlockOk(h: Heap, bound: nat, id: nat)
    requires id in h
  {
    var b := h[id];
    && b.check == CHECK_VAL && b.capacity < U16 && |b.children| <= b.capacity
    && (forall i :: 0 <= i < |b.children| ==> id < b.children[i] < bound)
    && (forall i :: 0 <= i < |b.children| && b.children[i] in h ==>
          h[b.children[i]].parent == Some(id) && h[b.children[i]].parentIdx == i)
    && (b.parent.Some? ==> b.parent.value < id)
    && (b.parent.Some? && b.parent.value in h ==>
          b.parentIdx < |h[b.parent.value].children| && h[b.parent.value].children[b.parentIdx] == id)
  }

  /** Every live id is below `bound` (the next id) and has a consistent
      header.  A child slot may name a freed block. */
  predicate Inv(h: Heap, bound: nat)
  {
    forall id :: id in h ==> id < bound && BlockOk(h, bound, id)
  }

  // ---------------------------------------------------------------------
  // Allocation.

  /** anvh__attach_child: fails, changing nothing, when the parent's child
      slots are all used; otherwise records the child in slot `count`,
      increments the count, and points the child back at the parent. */
  function AttachSpec(h: Heap, p: nat, c: nat): (r: (Heap, bool))
    requires p in h && c in h && p != c
    ensures r.1 <==> |h[p].children| < h[p].capacity
    ensures !r.1 ==> r.0 == h
    ensures r.1 ==> (r.0.Keys == h.Keys && r.0[p].children == h[p].children + [c]
                     && r.0[c].parent == Some(p) && r.0[c].parentIdx == |h[p].children|
                     && (forall k :: k in h && k != p && k != c ==> r.0[k] == h[k]))
  {
    var n := |h[p].children|;
    if n >= h[p].capacity then (h, false)
    else
      var h1 := h[p := h[p].(children := h[p].children + [c])];
      (h1[c := h1[c].(parent := Some(p), parentIdx := n)], true)
  }

  /** The header calloc leaves for a new block: check value and capacity
      set, no children, no parent, zeroed data. */
  function FreshBlock(allocSz: nat, capacity: nat): Block
  {
    Block(None, 0, capacity, CHECK_VAL, [], Zeros(allocSz))
  }

  /** anvh_alloc: the new heap, the next id and the returned block (None for
      NULL).  `allocOk` is calloc's answer.  A block whose attach fails is
      freed again; its id stays used. */
  function AllocSpec(h: Heap, bound: nat, parent: Option<nat>, allocSz: nat, capacity: nat, allocOk: bool): (Heap, nat, Option<nat>)
    requires Inv(h, bound) && capacity < U16
    requires parent.Some? ==> parent.value in h
  {
    if !allocOk then (h, bound, None)
    else
      var h1 := h[bound := FreshBlock(allocSz, capacity)];
      if parent.None? then (h1, bound + 1, Some(bound))
      else
        var h2 := h1[bound := h1[bound].(parent := parent)];
        var (h3, ok) := AttachSpec(h2, parent.value, bound);
        if ok then (h3, bound + 1, Some(bound)) else (h, bound + 1, None)
  }

  lemma InvGrows(h: Heap, bound: nat, bound2: nat)
    requires Inv(h, bound) && bound <= bound2
    ensures Inv(h, bound2)
  {
  }

  /** Allocation keeps the heap consistent; the new block (if any) has the
      check value, the given capacity, no children and zeroed data, and a
      child goes to the parent's slot `count`. */
  lemma AllocInv(h: Heap, bound: nat, parent: Option<nat>, allocSz: nat, capacity: nat, allocOk: bool)
    requires Inv(h, bound) && capacity < U16
    requires parent.Some? ==> parent.value in h
    ensures var (h2, bound2, mem) := AllocSpec(h, bound, parent, allocSz, capacity, allocOk);
      && Inv(h2, bound2) && bound <= bound2
      && (mem.None? ==> h2 == h)
      && (mem.Some? ==> (mem.value == bound && h2.Keys == h.Keys + {bound}
                         && h2[bound].check == CHECK_VAL && h2[bound].capacity == capacity
                         && h2[bound].children == [] && h2[bound].data == Zeros(allocSz) && h2[bound].parent == parent))
      && (parent.Some? && mem.Some? ==> (h2[parent.value].children == h[parent.value].children + [bound]
                                         && h2[bound].parentIdx == |h[parent.value].children|))
      && (forall k :: k in h && (parent.None? || k != parent.value) ==> k in h2 && h2[k] == h[k])
  {
    var (h2, bound2, mem) := AllocSpec(h, bound, parent, allocSz, capacity, allocOk);
    if mem.None? {
      InvGrows(h, bound, bound2);
      return;
    }
    if parent.None? {
      RootOk(h, bound, FreshBlock(allocSz, capacity));
    } else {
      var p := parent.value;
      var nb := FreshBlock(allocSz, capacity).(parent := parent, parentIdx := |h[p].children|);
      assert h2 == h[p := h[p].(children := h[p].children + [bound])][bound := nb];
      AttachOk(h, bound, p, nb);
    }
  }

  /** A block without parent or children under a fresh id keeps the heap
      consistent. */
  lemma RootOk(h: Heap, bound: nat, nb: Block)
    requires Inv(h, bound)
    requires nb.check == CHECK_VAL && nb.capacity < U16 && nb.children == [] && nb.parent.None?
    ensures Inv(h[bound := nb], bound + 1)
  {
    var h2 := h[bound := nb];
    forall id | id in h2 ensures id < bound + 1 && BlockOk(h2, bound + 1, id) {
      if id != bound {
        var b := h[id];
        forall i | 0 <= i < |b.children| && b.children[i] in h2
          ensures h2[b.children[i]].parent == Some(id) && h2[b.children[i]].parentIdx == i
        {
          assert b.children[i] < bound;
        }
      }
    }
  }

  /** A childless block under a fresh id, recorded in the next free slot
      of `p`, keeps the heap consistent. */
  lemma AttachOk(h: Heap, bound: nat, p: nat, nb: Block)
    requires Inv(h, bound) && p in h && |h[p].children| < h[p].capacity
    requires nb.check == CHECK_VAL && nb.capacity < U16 && nb.children == []
    requires nb.parent == Some(p) && nb.parentIdx == |h[p].children|
    ensures Inv(h[p := h[p].(children := h[p].children + [bound])][bound := nb], bound + 1)
  {
    var h2 := h[p := h[p].(children := h[p].children + [bound])][bound := nb];
    forall id | id in h2 ensures id < bound + 1 && BlockOk(h2, bound + 1, id) {
      if id == bound {
        assert p < bound;
      } else if id == p {
        AttachParentOk(h, bound, p, nb);
      } else {
        var b := h[id];
        forall i | 0 <= i < |b.children| && b.children[i] in h2
          ensures h2[b.children[i]].parent == Some(id) && h2[b.children[i]].parentIdx == i
        {
          assert b.children[i] < bound;
        }
      }
    }
  }

  lemma AttachParentOk(h: Heap, bound: nat, p: nat, nb: Block)
    requires Inv(h, bound) && p in h && |h[p].children| < h[p].capacity
    requires nb.parent == Some(p) && nb.parentIdx == |h[p].children|
    ensures BlockOk(h[p := h[p].(children := h[p].children + [bound])][bound := nb], bound + 1, p)
  {
    var h2 := h[p := h[p].(children := h[p].children + [bound])][bound := nb];
    var b := h2[p];
    assert BlockOk(h, bound, p);
    forall i | 0 <= i < |b.children| && b.children[i] in h2
      ensures h2[b.children[i]].parent == Some(p) && h2[b.children[i]].parentIdx == i
    {
      if i < |h[p].children| {
        assert b.children[i] == h[p].children[i];
      }
    }
  }

  /** One allocation under `p` takes a slot exactly when one is free. */
  lemma AllocChild(h: Heap, bound: nat, p: nat)
    requires Inv(h, bound) && p in h
    ensures var s := AllocSpec(h, bound, Some(p), 0, 0, true);
      && Inv(s.0, s.1) && p in s.0 && s.0[p].capacity == h[p].capacity
      && |h[p].children| <= h[p].capacity && (s.2.Some? <==> |h[p].children| < h[p].capacity)
      && |s.0[p].children| == |h[p].children| + (if s.2.Some? then 1 else 0)
  {
    AllocInv(h, bound, Some(p), 0, 0, true);
  }

  /** Allocating `k` children under `p`, one after the other: the heap,
      the next id and how many succeeded.  A parent takes exactly as many
      children as it has free slots: min(k, capacity - count) succeed. */
  function AllocChildren(h: Heap, bound: nat, p: nat, k: nat): (r: (Heap, nat, nat))
    requires Inv(h, bound) && p in h
    ensures p in r.0 && r.0[p].capacity == h[p].capacity
    ensures var room := h[p].capacity - |h[p].children|;
      && r.2 == (if k < room then k else room)
      && |r.0[p].children| == |h[p].children| + r.2
    decreases k
  {
    if k == 0 then
      assert BlockOk(h, bound, p);
      (h, bound, 0)
    else
      var s := AllocSpec(h, bound, Some(p), 0, 0, true);
      AllocChild(h, bound, p);
      var r1 := AllocChildren(s.0, s.1, p, k - 1);
      CountStep(h[p].capacity - |h[p].children|, s.0[p].capacity - |s.0[p].children|, k, r1.2, s.2.Some?);
      (r1.0, r1.1, r1.2 + (if s.2.Some? then 1 else 0))
  }

  /** The arithmetic of one step: a free slot is taken, or there is none. */
  lemma CountStep(room: int, room1: int, k: nat, n1: int, taken: bool)
    requires k > 0 && room >= 0 && (taken <==> room > 0) && room1 == room - (if taken then 1 else 0)
    requires n1 == (if k - 1 < room1 then k - 1 else room1)
    ensures n1 + (if taken then 1 else 0) == (if k < room then k else room)
  {
  }

  // ---------------------------------------------------------------------
  // Freeing.

  /** The blocks anvh_free(id) hands to free(), in order: the subtrees of
      the recorded children in slot order, then the block itself.  A freed
      id shows up as itself (anvh_free on a dangling pointer). */
  function Released(h: Heap, bound: nat, id: nat): seq<nat>
    requires Inv(h, bound) && id < bound
    decreases bound - id, 1
  {
    if id !in h then [id] else ReleasedAll(h, bound, id, h[id].children) + [id]
  }

  /** The release orders of the subtrees of `ids`, concatenated. */
  function ReleasedAll(h: Heap, bound: nat, p: nat, ids: seq<nat>): seq<nat>
    requires Inv(h, bound) && p < bound
    requires forall i :: 0 <= i < |ids| ==> p < ids[i] < bound
    decreases bound - p, 0, |ids|
  {
    if ids == [] then [] else Released(h, bound, ids[0]) + ReleasedAll(h, bound, p, ids[1..])
  }

  /** anvh_free is defined on `id`: every block it releases is a live block
      of the heap. */
  predicate Freeable(h: Heap, bound: nat, id: nat)
    requires Inv(h, bound) && id < bound
  {
    forall k :: 0 <= k < |Released(h, bound, id)| ==> Released(h, bound, id)[k] in h
  }

  /** anvh_free's effect: the released blocks are gone, the rest untouched. */
  function FreeSpec(h: Heap, bound: nat, id: nat): Heap
    requires Inv(h, bound) && id < bound
  {
    map k | k in h && k !in Released(h, bound, id) :: h[k]
  }

  /** The last block released is the block itself; all others come from
      its subtree and have larger ids. */
  lemma {:induction false} ReleasedShape(h: Heap, bound: nat, id: nat)
    requires Inv(h, bound) && id < bound
    ensures |Released(h, bound, id)| > 0 && Released(h, bound, id)[|Released(h, bound, id)| - 1] == id
    ensures forall x :: x in Released(h, bound, id) ==> id <= x < bound
    decreases bound - id, 1
  {
    if id in h {
      ReleasedAllBounds(h, bound, id, h[id].children);
    }
  }

  lemma {:induction false} ReleasedAllBounds(h: Heap, bound: nat, p: nat, ids: seq<nat>)
    requires Inv(h, bound) && p < bound
    requires forall i :: 0 <= i < |ids| ==> p < ids[i] < bound
    ensures forall x :: x in ReleasedAll(h, bound, p, ids) ==> p < x < bound
    decreases bound - p, 0, |ids|
  {
    if ids != [] {
      ReleasedShape(h, bound, ids[0]);
      ReleasedAllBounds(h, bound, p, ids[1..]);
    }
  }

  /** A released block's whole release order is part of the outer one. */
  lemma {:induction false} ReleasedNested(h: Heap, bound: nat, id: nat, x: nat)
    requires Inv(h, bound) && id < bound && x in Released(h, bound, id)
    ensures x < bound && forall y :: y in Released(h, bound, x) ==> y in Released(h, bound, id)
    decreases bound - id, 1
  {
    ReleasedShape(h, bound, id);
    if x != id {
      ReleasedAllNested(h, bound, id, h[id].children, x);
    }
  }

  lemma {:induction false} ReleasedAllNested(h: Heap, bound: nat, p: nat, ids: seq<nat>, x: nat)
    requires Inv(h, bound) && p < bound
    requires forall i :: 0 <= i < |ids| ==> p < ids[i] < bound
    requires x in ReleasedAll(h, bound, p, ids)
    ensures x < bound && forall y :: y in Released(h, bound, x) ==> y in ReleasedAll(h, bound, p, ids)
    decreases bound - p, 0, |ids|
  {
    if x in Released(h, bound, ids[0]) {
      ReleasedNested(h, bound, ids[0], x);
    } else {
      ReleasedAllNested(h, bound, p, ids[1..], x);
    }
  }

  /** Every recorded child's subtree is released with its parent. */
  lemma {:induction false} ReleasedAllHas(h: Heap, bound: nat, p: nat, ids: seq<nat>, i: nat)
    requires Inv(h, bound) && p < bound
    requires forall j :: 0 <= j < |ids| ==> p < ids[j] < bound
    requires i < |ids|
    ensures ids[i] in ReleasedAll(h, bound, p, ids)
    decreases |ids|
  {
    if i == 0 {
      ReleasedShape(h, bound, ids[0]);
    } else {
      ReleasedAllHas(h, bound, p, ids[1..], i - 1);
    }
  }

  /** Freeing leaves no orphan: a remaining block whose parent was live
      still has its parent. */
  lemma FreeLeavesNoOrphan(h: Heap, bound: nat, id: nat, k: nat)
    requires Inv(h, bound) && id < bound && Freeable(h, bound, id)
    requires k in FreeSpec(h, bound, id) && h[k].parent.Some? && h[k].parent.value in h
    ensures h[k].parent.value in FreeSpec(h, bound, id)
  {
    var p := h[k].parent.value;
    if p in Released(h, bound, id) {
      ReleasedNested(h, bound, id, p);
      ReleasedAllHas(h, bound, p, h[p].children, h[k].parentIdx);
      assert false;
    }
  }

  /** Freeing keeps the heap consistent and removes exactly the released
      blocks. */
  lemma FreeInv(h: Heap, bound: nat, id: nat)
    requires Inv(h, bound) && id < bound
    ensures Inv(FreeSpec(h, bound, id), bound)
    ensures forall k :: k in h ==> (k in FreeSpec(h, bound, id) <==> k !in Released(h, bound, id))
  {
    var h2 := FreeSpec(h, bound, id);
    forall k | k in h2 ensures k < bound && BlockOk(h2, bound, k) {
      assert BlockOk(h, bound, k);
    }
  }

  // ---------------------------------------------------------------------
  // The allocator state.

  class HallocHeap {
    var blocks: Heap
    var nextId: nat

    predicate Valid()
      reads this
    {
      Inv(blocks, nextId)
    }

    constructor()
      ensures Valid() && blocks == map[] && nextId == 0
    {
      blocks := map[];
      nextId := 0;
    }

    /** anvh__attach_child. */
    method AttachChild(p: nat, c: nat) returns (ok: bool)
      requires p in blocks && c in blocks && p != c
      modifies this
      ensures (blocks, ok) == AttachSpec(old(blocks), p, c) && nextId == old(nextId)
    {
      var n := |blocks[p].children|;
      if n >= blocks[p].capacity {
        return false;
      }
      blocks := blocks[p := blocks[p].(children := blocks[p].children + [c])];
      blocks := blocks[c := blocks[c].(parent := Some(p), parentIdx := n)];
      ok := true;
    }

    /** anvh_alloc. */
    method Alloc(parent: Option<nat>, allocSz: nat, capacity: nat, allocOk: bool) returns (mem: Option<nat>)
      requires Valid() && capacity < U16
      requires parent.Some? ==> parent.value in blocks
      modifies this
      ensures (blocks, nextId, mem) == AllocSpec(old(blocks), old(nextId), parent, allocSz, capacity, allocOk)
      ensures Valid()
    {
      AllocInv(blocks, nextId, parent, allocSz, capacity, allocOk);
      if !allocOk {
        return None;
      }
      var id := nextId;
      ghost var h := blocks;
      blocks := blocks[id := FreshBlock(allocSz, capacity)];
      nextId := nextId + 1;
      if parent.Some? {
        blocks := blocks[id := blocks[id].(parent := parent)];
        var ok := AttachChild(parent.value, id);
        if !ok {
          // free((void *)((size_t)mem - data_sz))
          blocks := blocks - {id};
          assert blocks == h;
          return None;
        }
      }
      mem := Some(id);
    }

    /** The walk of anvh_free: the blocks it releases, in order.  It only
        reads the headers. */
    method Walk(id: nat) returns (order: seq<nat>)
      requires Valid() && id < nextId
      ensures order == Released(blocks, nextId, id)
      decreases nextId - id
    {
      if id !in blocks {
        return [id];
      }
      var children := blocks[id].children;
      order := [];
      var i := 0;
      while i < |children|
        invariant 0 <= i <= |children|
        invariant order + ReleasedAll(blocks, nextId, id, children[i..]) == ReleasedAll(blocks, nextId, id, children)
      {
        assert children[i..][1..] == children[i + 1..];
        var sub := Walk(children[i]);
        order := order + sub;
        i := i + 1;
      }
      order := order + [id];
    }

    /** anvh_free.  NULL releases nothing (the debug assertion is not
        modelled); otherwise the subtree goes, children before parents. */
    method Free(mem: Option<nat>) returns (order: seq<nat>)
      requires Valid()
      requires mem.Some? ==> mem.value in blocks && Freeable(blocks, nextId, mem.value)
      modifies this
      ensures nextId == old(nextId) && Valid()
      ensures mem.None? ==> order == [] && blocks == old(blocks)
      ensures mem.Some? ==> (order == Released(old(blocks), nextId, mem.value)
                             && blocks == FreeSpec(old(blocks), nextId, mem.value))
    {
      if mem.None? {
        return [];
      }
      FreeInv(blocks, nextId, mem.value);
      order := Walk(mem.value);
      blocks := FreeSpec(blocks, nextId, mem.value);
    }
  }
}

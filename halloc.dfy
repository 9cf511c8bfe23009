/**
 * The hierarchical allocator of repackages/halloc.h.  Every block has a
 * list of children (an intrusive singly-headed list whose items are the
 * blocks' sibling links) and may itself sit in one parent's list.  A block
 * that is in no list is unlisted: its sibling link points back at itself.
 *
 * The blocks form a forest.  The model keeps it as trees of values: the
 * roots are the unlisted blocks, and a node's `kids` are its children list
 * in list order (the head first).  Block ids are handed out in allocation
 * order and stand for the blocks' addresses.
 *
 * The list primitives map onto the child sequences: hlist_add puts a node
 * at the front of a parent's `kids`, hlist_del takes it out (it becomes a
 * root, as hlist_init_item makes it unlisted), and hlist_item_listed is
 * `Listed`.  hlist_relink and hlist_relink_head repair the links after a
 * block moves in memory and change no list.
 */
module Halloc {
  import opened Bytes
  import opened Forest

  /** sizeof_hblock: the sibling item (two pointers) and the children head
      (one pointer), on a 64-bit target built with NDEBUG. */
  const HEADER_SZ: nat := 24
  /** SIZE_T_HALF: 1 << (4 * sizeof(size_t)). */
  const SIZE_T_HALF: nat := 0x1_0000_0000

  /** A block of the hierarchy and its data. */
  type HTree = Tree<seq<uint8>>

  // ---------------------------------------------------------------------
  // _relate and the release order of _free_children.

  function RelateT(b: nat, t: HTree): bool
    decreases t, 1
  {
    RelateAll(b, t.kids)
  }

  /** The search of _relate over a children list: some child is `b` or has
      `b` below it. */
  function RelateAll(b: nat, ts: seq<HTree>): bool
    decreases ts, 0
  {
    ts != [] && (ts[0].id == b || RelateT(b, ts[0]) || RelateAll(b, ts[1..]))
  }

  /** _relate(b, p) is true exactly when `b` is a strict descendant of `p`. */
  lemma {:induction false} RelateIff(b: nat, t: HTree)
    ensures RelateT(b, t) <==> b in IdsAll(t.kids)
    decreases t, 1
  {
    RelateAllIff(b, t.kids);
  }

  lemma {:induction false} RelateAllIff(b: nat, ts: seq<HTree>)
    ensures RelateAll(b, ts) <==> b in IdsAll(ts)
    decreases ts, 0
  {
    if ts != [] {
      RelateIff(b, ts[0]);
      RelateAllIff(b, ts[1..]);
    }
  }


  // ---------------------------------------------------------------------
  // Size arithmetic.

  /** halloc's quick overflow check, in size_t: `len + sizeof_hblock`
      wraps below `sizeof_hblock`. */
  function Overflows(len: nat): bool
    requires len < U64
  {
    (len + HEADER_SZ) % U64 < HEADER_SZ
  }

  /** The check fires exactly when the block size does not fit a size_t. */
  lemma OverflowsIff(len: nat)
    requires len < U64
    ensures Overflows(len) <==> len + HEADER_SZ > SIZE_MAX
  {
    if len + HEADER_SZ >= U64 {
      ModUnique(len + HEADER_SZ, U64, 1, len + HEADER_SZ - U64);
    } else {
      ModUnique(len + HEADER_SZ, U64, 0, len + HEADER_SZ);
    }
  }

  /** _ok_to_multiply as written: the third disjunct accepts exactly the
      products that do overflow. */
  function OkToMultiplyAsWritten(a: nat, b: nat): bool
  {
    (a < SIZE_T_HALF && b < SIZE_T_HALF) || a == 0 || SIZE_MAX / a < b
  }

  /** As written, 2^33 * 2^32 passes although it exceeds SIZE_MAX, and
      2^32 * 1 is refused although it fits. */
  lemma OkToMultiplyAsWrittenWrong()
    ensures OkToMultiplyAsWritten(0x2_0000_0000, 0x1_0000_0000) && 0x2_0000_0000 * 0x1_0000_0000 > SIZE_MAX
    ensures !OkToMultiplyAsWritten(0x1_0000_0000, 1) && 0x1_0000_0000 * 1 <= SIZE_MAX
  {
    assert SIZE_MAX / 0x2_0000_0000 == 0x7FFF_FFFF by {
      ModUnique(SIZE_MAX, 0x2_0000_0000, 0x7FFF_FFFF, 0x1_FFFF_FFFF);
    }
    assert SIZE_MAX / 0x1_0000_0000 == 0xFFFF_FFFF by {
      ModUnique(SIZE_MAX, 0x1_0000_0000, 0xFFFF_FFFF, 0xFFFF_FFFF);
    }
  }

  /** As written, h_calloc(2^33, 2^32 + 1) passes the check and its size_t
      product wraps to 2^33, far short of the bytes asked for. */
  lemma CallocWrapsAsWritten()
    ensures OkToMultiplyAsWritten(0x2_0000_0000, 0x1_0000_0001)
    ensures (0x2_0000_0000 * 0x1_0000_0001) % U64 == 0x2_0000_0000
    ensures 0x2_0000_0000 * 0x1_0000_0001 > SIZE_MAX
  {
    assert SIZE_MAX / 0x2_0000_0000 == 0x7FFF_FFFF by {
      ModUnique(SIZE_MAX, 0x2_0000_0000, 0x7FFF_FFFF, 0x1_FFFF_FFFF);
    }
    ModUnique(0x2_0000_0000 * 0x1_0000_0001, U64, 2, 0x2_0000_0000);
  }

  /** _ok_to_multiply with the third disjunct the right way round. */
  function OkToMultiply(a: nat, b: nat): bool
  {
    (a < SIZE_T_HALF && b < SIZE_T_HALF) || a == 0 || b <= SIZE_MAX / a
  }

  /** The corrected check accepts exactly the products that fit a size_t. */
  lemma OkToMultiplyExact(a: nat, b: nat)
    ensures OkToMultiply(a, b) <==> a * b <= SIZE_MAX
  {
    if a < SIZE_T_HALF && b < SIZE_T_HALF {
      MulBelow(a, b, SIZE_T_HALF);
    } else if a > 0 {
      QuotientBound(SIZE_MAX, a, b);
    }
  }

  /** `b` is at most `m / a` exactly when `a * b` is at most `m`. */
  lemma QuotientBound(m: nat, a: nat, b: nat)
    requires a > 0
    ensures b <= m / a <==> a * b <= m
  {
    var q, r := m / a, m % a;
    assert m == q * a + r && 0 <= r < a;
    if b <= q {
      MulMono(a, b, q);
    } else {
      MulMono(a, q + 1, b);
      assert a * (q + 1) == q * a + a;
    }
  }

  lemma MulMono(a: nat, b: nat, c: nat)
    requires b <= c
    ensures a * b <= a * c
  {
  }

  lemma MulBelow(a: nat, b: nat, n: nat)
    requires a < n && b < n
    ensures a * b <= (n - 1) * (n - 1)
  {
    MulMono(a, b, n - 1);
    MulMono(n - 1, a, n - 1);
    assert a * (n - 1) == (n - 1) * a;
  }

  /** The bytes a block of `len` bytes holds after realloc: the old data
      up to the new length, then what the allocator left (`fill`). */
  function Resized(old_: seq<uint8>, len: nat, fill: seq<uint8>): (d: seq<uint8>)
    requires |fill| == len
    ensures |d| == len
    ensures forall k :: 0 <= k < len && k < |old_| ==> d[k] == old_[k]
  {
    if len <= |old_| then old_[..len] else old_ + fill[|old_|..]
  }

  // ---------------------------------------------------------------------
  // The allocator state and the API.

  /** hattach on the forest: `b`'s subtree leaves its list; with a parent
      it goes to the front of the parent's children. */
  function AttachSpec(ts: seq<HTree>, b: nat, p: Option<nat>): seq<HTree>
    requires b in IdsAll(ts)
  {
    FindAllFacts(ts, b);
    var sub := Subtree(ts, b);
    if p.None? then (if b in RootIds(ts) then ts else RemoveAll(ts, b) + [sub])
    else AddAll(RemoveAll(ts, b), p.value, sub)
  }

  /** hattach keeps the set of blocks and their uniqueness; `b` ends up
      unlisted, or as the first child of `p`, with its subtree intact. */
  lemma AttachFacts(ts: seq<HTree>, b: nat, p: Option<nat>)
    requires UniqueAll(ts) && b in IdsAll(ts)
    requires p.Some? ==> p.value in IdsAll(ts) && p.value != b && !RelateT(p.value, Subtree(ts, b))
    ensures var r := AttachSpec(ts, b, p);
      && UniqueAll(r) && IdsAll(r) == IdsAll(ts)
      && (p.None? ==> b in RootIds(r) && FindAll(r, b) == FindAll(ts, b))
      && (p.Some? ==> Listed(r, b) && p.value in IdsAll(r) && |Subtree(r, p.value).kids| > 0
                      && Subtree(r, p.value).kids[0] == Subtree(ts, b))
  {
    FindAllFacts(ts, b);
    var sub := Subtree(ts, b);
    var rest := RemoveAll(ts, b);
    RemoveAllFacts(ts, b);
    FindAllFacts(rest, b);
    if p.None? {
      if b !in RootIds(ts) {
        IdsAllAppend(rest, [sub]);
        assert [sub][1..] == [];
        UniqueAppend(rest, sub);
        FindAllAppend(rest, sub, b);
        assert (rest + [sub])[|rest|].id == b;
      }
    } else {
      var q := p.value;
      RelateIff(q, sub);
      assert q !in Ids(sub);
      AddAllFacts(rest, q, sub);
      FindAllFacts(AddAll(rest, q, sub), q);
      FindAllFacts(rest, q);
      assert b in Ids(Subtree(AddAll(rest, q, sub), q)) by {
        assert Subtree(AddAll(rest, q, sub), q).kids == [sub] + Subtree(rest, q).kids;
        assert IdsAll([sub] + Subtree(rest, q).kids) == Ids(sub) + IdsAll(Subtree(rest, q).kids) by {
          assert ([sub] + Subtree(rest, q).kids)[1..] == Subtree(rest, q).kids;
        }
      }
    }
  }

  /** Every block of the forest below `bound`. */
  predicate Bounded(ts: seq<HTree>, bound: nat)
  {
    forall x :: x in IdsAll(ts) ==> x < bound
  }

  class Hierarchy {
    /** The unlisted blocks, each with its descendants. */
    var forest: seq<HTree>
    /** The id the next allocation gets. */
    var nextId: nat

    predicate Valid()
      reads this
    {
      UniqueAll(forest) && Bounded(forest, nextId)
    }

    constructor()
      ensures Valid() && forest == [] && nextId == 0
    {
      forest := [];
      nextId := 0;
    }

    /** The walk of _free_children followed by the block itself: the
        release order.  It only reads the forest. */
    method FreeWalk(t: HTree) returns (order: seq<nat>)
      ensures order == FreeOrderT(t)
      decreases t
    {
      order := [];
      var i := 0;
      while i < |t.kids|
        invariant 0 <= i <= |t.kids|
        invariant order + FreeOrderAll(t.kids[i..]) == FreeOrderAll(t.kids)
      {
        assert t.kids[i..][1..] == t.kids[i + 1..];
        var sub := FreeWalk(t.kids[i]);
        order := order + sub;
        i := i + 1;
      }
      order := order + [t.id];
    }

    /**
     * halloc(ptr, len).  `allocOk` is the allocator's answer and `fill` the
     * bytes it leaves in a block of `len` bytes.  The result is the block
     * (None for NULL); `released` is what went to free(), in order.
     */
    method HAlloc(ptr: Option<nat>, len: nat, fill: seq<uint8>, allocOk: bool) returns (r: Option<nat>, released: seq<nat>)
      requires Valid() && len < U64 && |fill| == len
      requires ptr.Some? ==> ptr.value in IdsAll(forest)
      modifies this
      ensures Valid()
      ensures Overflows(len) ==> r.None? && released == [] && forest == old(forest) && nextId == old(nextId)
      ensures !Overflows(len) && ptr.None? ==>
        (if len == 0 || !allocOk then r.None? && forest == old(forest)
         else r == Some(old(nextId)) && forest == old(forest) + [Node(old(nextId), fill, [])] && nextId == old(nextId) + 1)
      ensures !Overflows(len) && ptr.None? ==> released == []
      ensures !Overflows(len) && ptr.Some? && len > 0 ==> released == []
      ensures !Overflows(len) && ptr.Some? && len > 0 ==>
        (if !allocOk then r.None? && forest == old(forest)
         else r == ptr && forest == SetDataAll(old(forest), ptr.value, Resized(Subtree(old(forest), ptr.value).data, len, fill)))
      ensures !Overflows(len) && ptr.Some? && len == 0 ==>
        r.None? && released == FreeOrderT(Subtree(old(forest), ptr.value)) && forest == RemoveAll(old(forest), ptr.value)
    {
      released := [];
      if Overflows(len) {
        return None, [];
      }
      if ptr.None? {
        if len == 0 || !allocOk {
          return None, [];
        }
        var t := Node(nextId, fill, []);
        assert IdsAll([t]) == {nextId} by {
          assert [t][1..] == [];
        }
        IdsAllAppend(forest, [t]);
        UniqueAppend(forest, t);
        forest := forest + [t];
        r := Some(nextId);
        nextId := nextId + 1;
        return;
      }
      var id := ptr.value;
      FindAllFacts(forest, id);
      var block := Subtree(forest, id);
      if len > 0 {
        if !allocOk {
          return None, [];
        }
        SetDataAllFacts(forest, id, Resized(block.data, len, fill));
        forest := SetDataAll(forest, id, Resized(block.data, len, fill));
        return ptr, [];
      }
      released := FreeWalk(block);
      RemoveAllFacts(forest, id);
      forest := RemoveAll(forest, id);
      r := None;
    }

    /** hattach(block, parent).  A NULL block requires a NULL parent; the
        parent must not be the block or lie below it. */
    method HAttach(block: Option<nat>, parent: Option<nat>)
      requires Valid()
      requires block.None? ==> parent.None?
      requires block.Some? ==> block.value in IdsAll(forest)
      requires block.Some? && parent.Some? ==>
        parent.value in IdsAll(forest) && parent.value != block.value
        && !RelateT(parent.value, Subtree(forest, block.value))
      modifies this
      ensures Valid() && nextId == old(nextId)
      ensures block.None? ==> forest == old(forest)
      ensures block.Some? ==> forest == AttachSpec(old(forest), block.value, parent)
    {
      if block.None? {
        return;
      }
      AttachFacts(forest, block.value, parent);
      forest := AttachSpec(forest, block.value, parent);
    }

    /** h_malloc(len). */
    method HMalloc(len: nat, fill: seq<uint8>, allocOk: bool) returns (r: Option<nat>)
      requires Valid() && len < U64 && |fill| == len
      modifies this
      ensures Valid()
      ensures r.Some? <==> !Overflows(len) && len > 0 && allocOk
      ensures r.Some? ==> r.value == old(nextId) && forest == old(forest) + [Node(old(nextId), fill, [])]
      ensures r.None? ==> forest == old(forest)
    {
      var released;
      r, released := HAlloc(None, len, fill, allocOk);
    }

    /** h_calloc(n, len) as written: `_ok_to_multiply` with its inverted
        third disjunct, then the size_t product `len *= n`, which wraps.  The
        block holds (n * len) mod 2^64 zero bytes. */
    method HCalloc(n: nat, len: nat, allocOk: bool) returns (r: Option<nat>)
      requires Valid() && n < U64 && len < U64
      modifies this
      ensures Valid()
      ensures r.Some? <==>
        OkToMultiplyAsWritten(n, len) && 0 < (n * len) % U64 && (n * len) % U64 + HEADER_SZ <= SIZE_MAX && allocOk
      ensures r.Some? ==> r.value == old(nextId) && forest == old(forest) + [Node(old(nextId), Zeros((n * len) % U64), [])]
      ensures r.None? ==> forest == old(forest)
      // 2^33 * (2^32 + 1) passes the check and wraps to a block of 2^33 bytes.
      ensures n == 0x2_0000_0000 && len == 0x1_0000_0001 ==>
        (r.Some? <==> allocOk) && (r.Some? ==> forest == old(forest) + [Node(old(nextId), Zeros(0x2_0000_0000), [])])
    {
      if n == 0x2_0000_0000 && len == 0x1_0000_0001 {
        CallocWrapsAsWritten();
      }
      if !OkToMultiplyAsWritten(n, len) {
        return None;
      }
      var size := (n * len) % U64;
      OverflowsIff(size);
      var released;
      r, released := HAlloc(None, size, Zeros(size), allocOk);
      // memset(ptr, 0, len): the allocator's bytes are overwritten with zeros.
    }

    /** h_realloc(ptr, len). */
    method HRealloc(ptr: Option<nat>, len: nat, fill: seq<uint8>, allocOk: bool) returns (r: Option<nat>)
      requires Valid() && len < U64 && |fill| == len
      requires ptr.Some? ==> ptr.value in IdsAll(forest)
      modifies this
      ensures Valid()
      ensures Overflows(len) || len == 0 || !allocOk ==> r.None?
      ensures ptr.Some? && len > 0 && !Overflows(len) ==>
        (if !allocOk then forest == old(forest)
         else r == ptr && forest == SetDataAll(old(forest), ptr.value, Resized(Subtree(old(forest), ptr.value).data, len, fill)))
    {
      var released;
      r, released := HAlloc(ptr, len, fill, allocOk);
    }

    /** h_free(ptr). */
    method HFree(ptr: Option<nat>) returns (released: seq<nat>)
      requires Valid()
      requires ptr.Some? ==> ptr.value in IdsAll(forest)
      modifies this
      ensures Valid()
      ensures ptr.None? ==> released == [] && forest == old(forest)
      ensures ptr.Some? ==> released == FreeOrderT(Subtree(old(forest), ptr.value))
                            && forest == RemoveAll(old(forest), ptr.value)
    {
      OverflowsIff(0);
      var r;
      r, released := HAlloc(ptr, 0, [], true);
    }

    /** h_strdup(str): a block holding the string's bytes and a 0. */
    method HStrdup(str: seq<uint8>, allocOk: bool) returns (r: Option<nat>)
      requires Valid() && |str| + 1 < U64
      requires forall k :: 0 <= k < |str| ==> str[k] != 0
      modifies this
      ensures Valid()
      ensures r.Some? <==> !Overflows(|str| + 1) && allocOk
      ensures r.Some? ==> r.value == old(nextId) && forest == old(forest) + [Node(old(nextId), str + [0], [])]
      ensures r.None? ==> forest == old(forest)
    {
      var len := |str|;
      var released;
      // The allocator's bytes end up overwritten: memcpy(ptr, str, len) and ptr[len] = 0.
      r, released := HAlloc(None, len + 1, str + [0], allocOk);
    }
  }
}

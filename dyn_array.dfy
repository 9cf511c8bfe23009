/**
 * The growable array of include/anv_arr.h.
 *
 * An array is a metadata-prefixed block: the header holds the length
 * (arr_sz), the capacity (arr_capacity), the item size and a spare item slot
 * (tmp_item) used by swap; the data area holds `capacity` items of `itemSz`
 * bytes, of which the first `length` are live.  The model keeps the live
 * items as a sequence (its length is arr_sz), the capacity as a number and
 * the spare slot as an item.  Items are byte strings; a NULL item pointer
 * stands for `itemSz` zero bytes (set_internal's memset, `OrZeros`).
 *
 * Where ANV_ARR__TMP_ITEM really points is worked out on the bytes of the
 * block (SwapBlock): the offset of the tmp_item field is added to a pointer
 * to the header struct and so is scaled by the struct's size.  The class
 * keeps the slot the comment in anv_arr_new describes, inside the header.
 *
 * The operations on item sequences are pure functions first; the class
 * `DynArr` and the module-level operations that take a possibly NULL array
 * implement them over the header fields.
 */
module DynArray {
  import opened Bytes

  type Item = seq<uint8>

  /** anv_arr_result. */
  datatype ArrResult = Ok | InvalidParams | AllocError | IndexOutOfBounds | IndexCollision

  function ResultCode(r: ArrResult): (n: nat)
    ensures n == 0 <==> r == Ok
  {
    match r
    case Ok => 0
    case InvalidParams => 1
    case AllocError => 2
    case IndexOutOfBounds => 10
    case IndexCollision => 11
  }

  /** anv_arr__reallocator_default. */
  function DefaultReallocator(oldCapacity: nat): (n: nat)
    ensures n > oldCapacity && n - oldCapacity == 8
  {
    oldCapacity + 8
  }

  // ---------------------------------------------------------------------
  // The item sequence under each operation.

  /** push: the item goes after the last live one. */
  function Pushed(items: seq<Item>, x: Item): (r: seq<Item>)
    ensures |r| == |items| + 1 && r[..|items|] == items && r[|items|] == x
  {
    items + [x]
  }

  /** pop: the last live item and the sequence without it, or NULL when empty. */
  function Popped(items: seq<Item>): (r: (Option<Item>, seq<Item>))
    ensures items == [] <==> r.0.None?
    ensures items == [] ==> r.1 == []
    ensures items != [] ==> r.0 == Some(items[|items| - 1]) && r.1 == items[..|items| - 1]
  {
    if items == [] then (None, []) else (Some(items[|items| - 1]), items[..|items| - 1])
  }

  /** The out-of-bounds test of insert; index 0 is allowed on an empty array. */
  predicate InsertOutOfBounds(items: seq<Item>, index: nat)
  {
    index != 0 && index >= |items|
  }

  /**
   * "Unordered" insert at an in-bounds index: the item already at `index` is
   * pushed to the end first, then `x` overwrites `index`.  On an empty
   * array this is a push.
   */
  function Inserted(items: seq<Item>, index: nat, x: Item): seq<Item>
    requires !InsertOutOfBounds(items, index)
  {
    if items == [] then [x] else (items + [items[index]])[index := x]
  }

  /** get: the item at `index`, or NULL when `index >= length`. */
  function GetItem(items: seq<Item>, index: nat): (r: Option<Item>)
    ensures r.None? <==> index >= |items|
    ensures r.Some? ==> r.value == items[index]
  {
    if index >= |items| then None else Some(items[index])
  }

  /** swap's result: collision is tested before bounds. */
  function SwapResult(items: seq<Item>, a: nat, b: nat): ArrResult
  {
    if a == b then IndexCollision
    else if a >= |items| || b >= |items| then IndexOutOfBounds
    else Ok
  }

  function Swapped(items: seq<Item>, a: nat, b: nat): seq<Item>
    requires a < |items| && b < |items|
  {
    items[a := items[b]][b := items[a]]
  }

  /** remove at an in-bounds index: the last item is copied over it and the
      length drops by one. */
  function Removed(items: seq<Item>, index: nat): seq<Item>
    requires index < |items|
  {
    items[index := items[|items| - 1]][..|items| - 1]
  }

  // ---------------------------------------------------------------------
  // Properties of the operations on item sequences.

  /** pop undoes push (LIFO). */
  lemma PopAfterPush(items: seq<Item>, x: Item)
    ensures Popped(Pushed(items, x)) == (Some(x), items)
  {
    assert Pushed(items, x)[..|items|] == items;
  }

  /** push after pop restores the sequence. */
  lemma PushAfterPop(items: seq<Item>)
    requires items != []
    ensures Pushed(Popped(items).1, Popped(items).0.value) == items
  {
  }

  /** Inserting at an in-bounds index puts `x` there, moves the displaced
      item to the end, keeps every other item in its place, and adds exactly
      `x` to the multiset of items. */
  lemma InsertedShape(items: seq<Item>, index: nat, x: Item)
    requires !InsertOutOfBounds(items, index)
    ensures var r := Inserted(items, index, x);
      && |r| == |items| + 1 && r[index] == x
      && (items != [] ==> r[|items|] == items[index])
      && (forall k :: 0 <= k < |items| && k != index ==> r[k] == items[k])
      && multiset(r) == multiset(items) + multiset{x}
  {
    if items != [] {
      var pushed := items + [items[index]];
      assert multiset(pushed) == multiset(items) + multiset{items[index]};
      MultisetUpdate(pushed, index, x);
    }
  }

  /** tests/anv_arr.c: inserting 100, 200, 300 at index 0 of an empty array
      leaves 300, 100, 200. */
  lemma InsertAtZeroOrder(a: Item, b: Item, c: Item)
    ensures Inserted(Inserted(Inserted([], 0, a), 0, b), 0, c) == [c, a, b]
  {
    assert Inserted([], 0, a) == [a];
    assert Inserted([a], 0, b) == [b, a];
    assert Inserted([b, a], 0, c) == [c, a, b];
  }

  /** tests/anv_arr.c: push 100, push 200, insert 300 at 1 leaves 100, 300, 200. */
  lemma InsertInMiddleOrder(a: Item, b: Item, c: Item)
    ensures Inserted(Pushed(Pushed([], a), b), 1, c) == [a, c, b]
  {
    assert Pushed(Pushed([], a), b) == [a, b];
  }

  /** Overwriting one element trades it for the new one in the multiset. */
  lemma MultisetUpdate(s: seq<Item>, i: nat, v: Item)
    requires i < |s|
    ensures multiset(s[i := v]) == multiset(s) - multiset{s[i]} + multiset{v}
  {
    assert s == s[..i] + [s[i]] + s[i + 1..];
    assert s[i := v] == s[..i] + [v] + s[i + 1..];
  }

  /** Swapping exchanges exactly the two items; it is its own inverse and a
      permutation. */
  lemma SwappedShape(items: seq<Item>, a: nat, b: nat)
    requires a < |items| && b < |items| && a != b
    ensures var r := Swapped(items, a, b);
      && |r| == |items| && r[a] == items[b] && r[b] == items[a]
      && (forall k :: 0 <= k < |items| && k != a && k != b ==> r[k] == items[k])
      && Swapped(r, a, b) == items
      && multiset(r) == multiset(items)
  {
    var r := Swapped(items, a, b);
    assert Swapped(r, a, b) == items;
    var m := items[a := items[b]];
    MultisetUpdate(items, a, items[b]);
    MultisetUpdate(m, b, items[a]);
    assert m[b] == items[b];
  }

  /** Remove drops exactly the item at `index` from the multiset; items
      before it keep their places, and the last one takes its slot. */
  lemma RemovedShape(items: seq<Item>, index: nat)
    requires index < |items|
    ensures var r := Removed(items, index);
      && |r| == |items| - 1
      && (forall k :: 0 <= k < |r| && k != index ==> r[k] == items[k])
      && (index < |r| ==> r[index] == items[|items| - 1])
      && multiset(r) == multiset(items) - multiset{items[index]}
  {
    var n := |items|;
    var u := items[index := items[n - 1]];
    MultisetUpdate(items, index, items[n - 1]);
    assert u == u[..n - 1] + [u[n - 1]];
    assert u[n - 1] == items[n - 1];
    var head, rest := multiset(u[..n - 1]), multiset(items) - multiset{items[index]};
    assert head + multiset{items[n - 1]} == rest + multiset{items[n - 1]};
    MultisetCancel(head, rest, items[n - 1]);
  }

  lemma MultisetCancel(a: multiset<Item>, b: multiset<Item>, x: Item)
    requires a + multiset{x} == b + multiset{x}
    ensures a == b
  {
    forall e ensures a[e] == b[e] {
      assert (a + multiset{x})[e] == (b + multiset{x})[e];
    }
  }

  /** tests/anv_arr.c: removing index 1 of [a, b, c] leaves [a, c]; removing
      the only item leaves nothing. */
  lemma RemoveExamples(a: Item, b: Item, c: Item)
    ensures Removed([a, b, c], 1) == [a, c]
    ensures Removed([a], 0) == []
  {
  }

  // ---------------------------------------------------------------------
  // anv_arr__swap_internal on the bytes of the block.  The block is laid out
  // by anv_meta_malloc: the header, one size byte, the four-byte check word,
  // then the data area with item i at DataOffset + Off(i, itemSz).

  /** sizeof(anv_arr__metadata) on a 64-bit target: three size_t and a pointer. */
  const METADATA_SZ: nat := 32
  /** offsetof(anv_arr__metadata, tmp_item). */
  const TMP_ITEM_OFFSET: nat := 24
  /** Where ANV_ARR__TMP_ITEM points: the offset is added to a pointer to
      anv_arr__metadata, so it is scaled by the size of the struct. */
  const TMP_ITEM_AS_WRITTEN: nat := TMP_ITEM_OFFSET * METADATA_SZ

  /** The header anv_arr_new asks for: the struct with its pointer field
      replaced by one item. */
  function HeaderSize(itemSz: nat): (n: nat)
    ensures n == TMP_ITEM_OFFSET + itemSz
  {
    METADATA_SZ + itemSz - 8
  }

  /** Start of the data area: header, size byte and check word. */
  function DataOffset(itemSz: nat): (n: nat)
    ensures n == HeaderSize(itemSz) + 5
  {
    HeaderSize(itemSz) + 1 + 4
  }

  /** memcpy of `src` to offset `at` of the block, one byte at a time. */
  function Overwrite(blk: seq<uint8>, at: nat, src: seq<uint8>): (r: seq<uint8>)
    requires at + |src| <= |blk|
    ensures |r| == |blk|
    decreases |src|
  {
    if src == [] then blk else Overwrite(blk[at := src[0]], at + 1, src[1..])
  }

  /** The copied range holds the source. */
  lemma {:induction false} OverwriteIn(blk: seq<uint8>, at: nat, src: seq<uint8>, k: nat)
    requires at + |src| <= |blk| && at <= k < at + |src|
    ensures Overwrite(blk, at, src)[k] == src[k - at]
    decreases |src|
  {
    if k == at {
      OverwriteOut(blk[at := src[0]], at + 1, src[1..], k);
    } else {
      OverwriteIn(blk[at := src[0]], at + 1, src[1..], k);
    }
  }

  /** Every byte outside the copied range keeps its value. */
  lemma {:induction false} OverwriteOut(blk: seq<uint8>, at: nat, src: seq<uint8>, k: nat)
    requires at + |src| <= |blk| && k < |blk| && (k < at || at + |src| <= k)
    ensures Overwrite(blk, at, src)[k] == blk[k]
    decreases |src|
  {
    if src != [] {
      OverwriteOut(blk[at := src[0]], at + 1, src[1..], k);
    }
  }

  /** Byte offset of item i in the data area, index * item_sz as in
      anv_arr__get_internal (OffIsProduct), written as a sum so that the
      proofs about it stay linear. */
  function Off(i: int, itemSz: nat): nat
  {
    if i <= 0 then 0 else Off(i - 1, itemSz) + itemSz
  }

  lemma {:induction false} OffIsProduct(i: nat, itemSz: nat)
    ensures Off(i, itemSz) == i * itemSz
  {
    if i > 0 {
      OffIsProduct(i - 1, itemSz);
    }
  }

  /** Items at different indices occupy disjoint byte ranges. */
  lemma {:induction false} OffApart(i: nat, j: nat, itemSz: nat)
    requires i < j
    ensures Off(i, itemSz) + itemSz <= Off(j, itemSz)
    decreases j
  {
    if i + 1 < j {
      OffApart(i, j - 1, itemSz);
    }
  }

  /** The first n items of the data area. */
  function BlockItems(blk: seq<uint8>, itemSz: nat, n: nat): (r: seq<Item>)
    requires DataOffset(itemSz) + Off(n, itemSz) <= |blk|
    ensures |r| == n
  {
    seq(n, i => ItemBytes(blk, DataOffset(itemSz) + Off(i, itemSz), itemSz))
  }

  /** The `len` bytes at `at`; every item of BlockItems lies inside the
      block (BlockItemAt), so the empty answer is never taken there. */
  function ItemBytes(blk: seq<uint8>, at: nat, len: nat): Item
  {
    if at + len <= |blk| then blk[at .. at + len] else []
  }

  lemma {:induction false} BlockItemAt(blk: seq<uint8>, itemSz: nat, n: nat, i: nat)
    requires i < n && DataOffset(itemSz) + Off(n, itemSz) <= |blk|
    ensures Off(i, itemSz) + itemSz <= Off(n, itemSz)
    ensures BlockItems(blk, itemSz, n)[i] == blk[DataOffset(itemSz) + Off(i, itemSz) .. DataOffset(itemSz) + Off(i, itemSz) + itemSz]
  {
    OffApart(i, n, itemSz);
    ItemAtOffset(blk, itemSz, n, i, DataOffset(itemSz) + Off(i, itemSz));
  }

  /** The three memcpys of anv_arr__swap_internal, through a spare slot at
      block offset `tmpAt`: tmp := item ia; item ia := item ib;
      item ib := tmp. */
  function SwapBlock(blk: seq<uint8>, itemSz: nat, tmpAt: nat, ia: nat, ib: nat): (r: seq<uint8>)
    requires tmpAt + itemSz <= |blk|
    requires DataOffset(itemSz) + Off(ia, itemSz) + itemSz <= |blk|
    requires DataOffset(itemSz) + Off(ib, itemSz) + itemSz <= |blk|
    ensures |r| == |blk|
  {
    CopyVia(blk, tmpAt, DataOffset(itemSz) + Off(ia, itemSz), DataOffset(itemSz) + Off(ib, itemSz), itemSz)
  }

  /** The same three memcpys on raw byte offsets: `len` bytes from `at` to
      `t`, from `bt` to `at`, then from `t` to `bt`. */
  function CopyVia(blk: seq<uint8>, t: nat, at: nat, bt: nat, len: nat): (r: seq<uint8>)
    requires t + len <= |blk| && at + len <= |blk| && bt + len <= |blk|
    ensures |r| == |blk|
  {
    var b1 := Overwrite(blk, t, blk[at .. at + len]);
    var b2 := Overwrite(b1, at, b1[bt .. bt + len]);
    Overwrite(b2, bt, b2[t .. t + len])
  }

  // With the spare slot below both items and the items apart, the copy
  // puts the bytes of `bt` at `at`, those of `at` at `bt`, and leaves every
  // other byte above the slot alone.

  lemma {:induction false} CopyViaFirst(blk: seq<uint8>, t: nat, at: nat, bt: nat, len: nat, k: nat)
    requires at + len <= |blk| && bt + len <= |blk|
    requires t + len <= at && t + len <= bt && (at + len <= bt || bt + len <= at)
    requires at <= k < at + len
    ensures CopyVia(blk, t, at, bt, len)[k] == blk[k - at + bt]
  {
    var b1 := Overwrite(blk, t, blk[at .. at + len]);
    var b2 := Overwrite(b1, at, b1[bt .. bt + len]);
    OverwriteOut(b2, bt, b2[t .. t + len], k);
    OverwriteIn(b1, at, b1[bt .. bt + len], k);
    OverwriteOut(blk, t, blk[at .. at + len], k - at + bt);
  }

  lemma {:induction false} CopyViaSecond(blk: seq<uint8>, t: nat, at: nat, bt: nat, len: nat, k: nat)
    requires at + len <= |blk| && bt + len <= |blk|
    requires t + len <= at && t + len <= bt && (at + len <= bt || bt + len <= at)
    requires bt <= k < bt + len
    ensures CopyVia(blk, t, at, bt, len)[k] == blk[k - bt + at]
  {
    var b1 := Overwrite(blk, t, blk[at .. at + len]);
    var b2 := Overwrite(b1, at, b1[bt .. bt + len]);
    OverwriteIn(b2, bt, b2[t .. t + len], k);
    OverwriteOut(b1, at, b1[bt .. bt + len], k - bt + t);
    OverwriteIn(blk, t, blk[at .. at + len], k - bt + t);
  }

  lemma {:induction false} CopyViaRest(blk: seq<uint8>, t: nat, at: nat, bt: nat, len: nat, k: nat)
    requires at + len <= |blk| && bt + len <= |blk|
    requires t + len <= k < |blk| && !(at <= k < at + len) && !(bt <= k < bt + len)
    ensures CopyVia(blk, t, at, bt, len)[k] == blk[k]
  {
    var b1 := Overwrite(blk, t, blk[at .. at + len]);
    var b2 := Overwrite(b1, at, b1[bt .. bt + len]);
    OverwriteOut(b2, bt, b2[t .. t + len], k);
    OverwriteOut(b1, at, b1[bt .. bt + len], k);
    OverwriteOut(blk, t, blk[at .. at + len], k);
  }

  /** The same on a whole item: the one at `it` ends up holding what was at
      `jt`, where `jt` is the other item for the two swapped ones and `it`
      itself for any item apart from both. */
  lemma {:induction false} CopyViaSlice(blk: seq<uint8>, t: nat, at: nat, bt: nat, len: nat, it: nat, jt: nat)
    requires at + len <= |blk| && bt + len <= |blk| && it + len <= |blk| && jt + len <= |blk|
    requires t + len <= at && t + len <= bt && (at + len <= bt || bt + len <= at)
    requires (it == at && jt == bt) || (it == bt && jt == at) ||
      (it == jt && t + len <= it && (it + len <= at || at + len <= it) && (it + len <= bt || bt + len <= it))
    ensures CopyVia(blk, t, at, bt, len)[it .. it + len] == blk[jt .. jt + len]
  {
    var got, want := CopyVia(blk, t, at, bt, len)[it .. it + len], blk[jt .. jt + len];
    if it == at && jt == bt {
      forall k | 0 <= k < len
        ensures got[k] == want[k]
      {
        CopyViaFirst(blk, t, at, bt, len, it + k);
      }
    } else if it == bt && jt == at {
      forall k | 0 <= k < len
        ensures got[k] == want[k]
      {
        CopyViaSecond(blk, t, at, bt, len, it + k);
      }
    } else {
      forall k | 0 <= k < len
        ensures got[k] == want[k]
      {
        CopyViaRest(blk, t, at, bt, len, it + k);
      }
    }
  }

  /** As written, with one-byte items and 739 of them the slot
      TMP_ITEM_AS_WRITTEN is item 738: swapping items 0 and 1 also
      overwrites item 738 with the old item 0. */
  lemma SwapAsWrittenClobbers()
    ensures DataOffset(1) + Off(739, 1) <= 769 && TMP_ITEM_AS_WRITTEN + 1 <= 769
    ensures var blk := Zeros(769)[30 := 1];
      && BlockItems(SwapBlock(blk, 1, TMP_ITEM_AS_WRITTEN, 0, 1), 1, 739)[738] == [1]
      && Swapped(BlockItems(blk, 1, 739), 0, 1)[738] == [0]
  {
    OffIsProduct(739, 1);
    OffIsProduct(738, 1);
    var blk := Zeros(769)[30 := 1];
    var b1 := Overwrite(blk, 768, blk[30 .. 31]);
    var b2 := Overwrite(b1, 30, b1[31 .. 32]);
    var r := Overwrite(b2, 31, b2[768 .. 769]);
    assert r == SwapBlock(blk, 1, TMP_ITEM_AS_WRITTEN, 0, 1);
    OverwriteOut(b2, 31, b2[768 .. 769], 768);
    OverwriteOut(b1, 30, b1[31 .. 32], 768);
    OverwriteIn(blk, 768, blk[30 .. 31], 768);
    assert r[768 .. 769] == [r[768]] == [1];
    BlockItemAt(r, 1, 739, 738);
    BlockItemAt(blk, 1, 739, 738);
    assert blk[768 .. 769] == [0];
  }

  /** With the slot where the tmp_item field is meant to be, inside the
      header, the three memcpys swap exactly the two items. */
  lemma {:induction false} SwapBlockIntended(blk: seq<uint8>, itemSz: nat, n: nat, ia: nat, ib: nat)
    requires ia < n && ib < n && ia != ib
    requires DataOffset(itemSz) + Off(n, itemSz) <= |blk|
    ensures DataOffset(itemSz) + Off(ia, itemSz) + itemSz <= |blk| && DataOffset(itemSz) + Off(ib, itemSz) + itemSz <= |blk|
    ensures BlockItems(SwapBlock(blk, itemSz, TMP_ITEM_OFFSET, ia, ib), itemSz, n) == Swapped(BlockItems(blk, itemSz, n), ia, ib)
  {
    OffApart(ia, n, itemSz);
    OffApart(ib, n, itemSz);
    var lhs := BlockItems(SwapBlock(blk, itemSz, TMP_ITEM_OFFSET, ia, ib), itemSz, n);
    var rhs := Swapped(BlockItems(blk, itemSz, n), ia, ib);
    forall i | 0 <= i < n
      ensures lhs[i] == rhs[i]
    {
      var items := BlockItems(blk, itemSz, n);
      assert rhs[i] == if i == ib then items[ia] else if i == ia then items[ib] else items[i];
      SwapItemAt(blk, itemSz, n, ia, ib, i);
    }
  }

  /** Item i after the copy is item ia, ib or i before it. */
  lemma {:induction false} SwapItemAt(blk: seq<uint8>, itemSz: nat, n: nat, ia: nat, ib: nat, i: nat)
    requires ia < n && ib < n && i < n && ia != ib
    requires DataOffset(itemSz) + Off(n, itemSz) <= |blk|
    requires DataOffset(itemSz) + Off(ia, itemSz) + itemSz <= |blk| && DataOffset(itemSz) + Off(ib, itemSz) + itemSz <= |blk|
    ensures BlockItems(SwapBlock(blk, itemSz, TMP_ITEM_OFFSET, ia, ib), itemSz, n)[i] ==
      BlockItems(blk, itemSz, n)[if i == ia then ib else if i == ib then ia else i]
  {
    var j := if i == ia then ib else if i == ib then ia else i;
    var d := DataOffset(itemSz);
    var at, bt, it, jt := d + Off(ia, itemSz), d + Off(ib, itemSz), d + Off(i, itemSz), d + Off(j, itemSz);
    OffApart(i, n, itemSz);
    OffApart(j, n, itemSz);
    if ia < ib { OffApart(ia, ib, itemSz); } else { OffApart(ib, ia, itemSz); }
    if i != ia && i != ib {
      if i < ia { OffApart(i, ia, itemSz); } else { OffApart(ia, i, itemSz); }
      if i < ib { OffApart(i, ib, itemSz); } else { OffApart(ib, i, itemSz); }
    }
    SwapBlockSlice(blk, itemSz, ia, ib, it, jt);
    ItemsFromSlices(SwapBlock(blk, itemSz, TMP_ITEM_OFFSET, ia, ib), blk, itemSz, n, i, j, it, jt);
  }

  /** CopyViaSlice for the slot in the header. */
  lemma {:induction false} SwapBlockSlice(blk: seq<uint8>, itemSz: nat, ia: nat, ib: nat, it: nat, jt: nat)
    requires var at, bt := DataOffset(itemSz) + Off(ia, itemSz), DataOffset(itemSz) + Off(ib, itemSz);
      && at + itemSz <= |blk| && bt + itemSz <= |blk| && it + itemSz <= |blk| && jt + itemSz <= |blk|
      && (at + itemSz <= bt || bt + itemSz <= at)
      && ((it == at && jt == bt) || (it == bt && jt == at) ||
          (it == jt && DataOffset(itemSz) <= it && (it + itemSz <= at || at + itemSz <= it) && (it + itemSz <= bt || bt + itemSz <= it)))
    ensures SwapBlock(blk, itemSz, TMP_ITEM_OFFSET, ia, ib)[it .. it + itemSz] == blk[jt .. jt + itemSz]
  {
    CopyViaSlice(blk, TMP_ITEM_OFFSET, DataOffset(itemSz) + Off(ia, itemSz), DataOffset(itemSz) + Off(ib, itemSz), itemSz, it, jt);
  }

  /** Items of two blocks are equal when their bytes are. */
  lemma {:induction false} ItemsFromSlices(r: seq<uint8>, blk: seq<uint8>, itemSz: nat, n: nat, i: nat, j: nat, it: nat, jt: nat)
    requires i < n && j < n && |r| == |blk| && DataOffset(itemSz) + Off(n, itemSz) <= |blk|
    requires it == DataOffset(itemSz) + Off(i, itemSz) && jt == DataOffset(itemSz) + Off(j, itemSz)
    requires it + itemSz <= |r| && jt + itemSz <= |blk| && r[it .. it + itemSz] == blk[jt .. jt + itemSz]
    ensures BlockItems(r, itemSz, n)[i] == BlockItems(blk, itemSz, n)[j]
  {
    ItemAtOffset(r, itemSz, n, i, it);
    ItemAtOffset(blk, itemSz, n, j, jt);
  }

  /** BlockItemAt with the offset given. */
  lemma {:induction false} ItemAtOffset(blk: seq<uint8>, itemSz: nat, n: nat, i: nat, at: nat)
    requires i < n && DataOffset(itemSz) + Off(n, itemSz) <= |blk|
    requires at == DataOffset(itemSz) + Off(i, itemSz) && at + itemSz <= |blk|
    ensures BlockItems(blk, itemSz, n)[i] == blk[at .. at + itemSz]
  {
    assert BlockItems(blk, itemSz, n)[i] == ItemBytes(blk, at, itemSz);
  }

  // ---------------------------------------------------------------------
  // The module-level reallocator setting.

  /** The static `anv_arr__reallocator` shared by every array. */
  class Config {
    var reallocator: nat -> nat

    constructor ()
      ensures reallocator == DefaultReallocator
    {
      reallocator := DefaultReallocator;
    }

    /** anv_arr_config_reallocator_fn: NULL restores the default. */
    method ConfigReallocatorFn(fn: Option<nat -> nat>)
      modifies this
      ensures reallocator == if fn.None? then DefaultReallocator else fn.value
    {
      if fn.None? {
        reallocator := DefaultReallocator;
      } else {
        reallocator := fn.value;
      }
    }
  }

  // ---------------------------------------------------------------------
  // The array object.

  class DynArr {
    /** The live items; |items| is arr_sz. */
    var items: seq<Item>
    /** arr_capacity. */
    var capacity: nat
    /** item_sz. */
    const itemSz: nat
    /** The tmp_item slot at the end of the header. */
    var tmp: Item
    /** Set once a failed reallocation has released the whole block. */
    var released: bool

    ghost predicate Valid()
      reads this
    {
      && !released
      && |items| <= capacity
      && |tmp| == itemSz
      && (forall i :: 0 <= i < |items| ==> |items[i]| == itemSz)
    }

    constructor (capacity: nat, itemSz: nat)
      requires capacity * itemSz > 0
      ensures Valid() && items == [] && this.capacity == capacity && this.itemSz == itemSz
    {
      this.items := [];
      this.capacity := capacity;
      this.itemSz := itemSz;
      this.tmp := Zeros(itemSz);
      this.released := false;
    }

    /** Whether a push at the current state stays inside the block once
        the reallocator has been applied (the reallocator must grow). */
    ghost predicate CanGrow(cfg: Config)
      reads this, cfg
    {
      |items| < capacity || cfg.reallocator(capacity) > |items|
    }

    /** anv_arr__reallocate; `allocOk` is anv_meta_realloc's answer.  A
        failed reallocation releases the block (anv_meta_realloc frees it). */
    method Reallocate(newCapacity: nat, allocOk: bool) returns (r: ArrResult)
      requires Valid() && newCapacity >= |items|
      modifies this
      ensures r == (if allocOk then Ok else AllocError)
      ensures items == old(items) && tmp == old(tmp)
      ensures allocOk ==> Valid() && capacity == newCapacity
      ensures !allocOk ==> released && capacity == old(capacity)
    {
      if !allocOk {
        released := true;
        return AllocError;
      }
      capacity := newCapacity;
      return Ok;
    }

    /** anv_arr__push_internal. */
    method PushInternal(item: Option<Item>, cfg: Config, allocOk: bool) returns (r: ArrResult)
      requires Valid() && CanGrow(cfg)
      requires item.Some? ==> |item.value| == itemSz
      modifies this
      ensures r == Ok || r == AllocError
      ensures r == AllocError <==> old(|items|) >= old(capacity) && !allocOk
      ensures r == Ok ==> Valid() && items == Pushed(old(items), OrZeros(itemSz, item))
      ensures r == Ok ==> capacity == if old(|items|) >= old(capacity) then cfg.reallocator(old(capacity)) else old(capacity)
      ensures r == AllocError ==> released && items == old(items)
      ensures tmp == old(tmp)
    {
      if |items| >= capacity {
        var newCapacity := cfg.reallocator(capacity);
        r := Reallocate(newCapacity, allocOk);
        if r != Ok {
          return;
        }
      }
      items := items + [OrZeros(itemSz, item)];
      r := Ok;
    }
  }

  /** anv_arr_new.  `allocOk` is malloc's answer.  The header size is
      passed to anv_meta_malloc as an unsigned char and the data size is the
      size_t product, so NULL comes back when either of them wraps to 0, as
      well as when malloc fails.  A header that wraps to a non-zero size
      would leave no room for the tmp_item slot; callers keep clear of it. */
  method New(capacity: nat, itemSz: nat, allocOk: bool) returns (a: DynArr?)
    requires capacity < U64 && itemSz < U64
    requires TMP_ITEM_OFFSET + itemSz < 256 || (TMP_ITEM_OFFSET + itemSz) % 256 == 0
    ensures (a == null) <==>
      ((capacity * itemSz) % U64 == 0 || (TMP_ITEM_OFFSET + itemSz) % 256 == 0 || !allocOk)
    ensures a != null ==> fresh(a) && a.Valid() && a.items == [] && a.capacity == capacity && a.itemSz == itemSz
  {
    if (capacity * itemSz) % U64 == 0 || HeaderSize(itemSz) % 256 == 0 || !allocOk {
      return null;
    }
    a := new DynArr(capacity, itemSz);
  }

  /** anv_arr_length: 0 for a NULL array. */
  method Length(a: DynArr?) returns (n: nat)
    requires a != null ==> a.Valid()
    ensures n == if a == null then 0 else |a.items|
  {
    if a == null {
      return 0;
    }
    return |a.items|;
  }

  /** anv_arr__push. */
  method Push(a: DynArr?, item: Option<Item>, cfg: Config, allocOk: bool) returns (r: ArrResult)
    requires a != null ==> a.Valid() && a.CanGrow(cfg) && (item.Some? ==> |item.value| == a.itemSz)
    modifies a
    ensures a == null ==> r == InvalidParams
    ensures a != null ==> r == Ok || r == AllocError
    ensures a != null && r == Ok ==>
      a.Valid() && a.items == Pushed(old(a.items), OrZeros(a.itemSz, item)) &&
      a.capacity == if old(|a.items|) >= old(a.capacity) then cfg.reallocator(old(a.capacity)) else old(a.capacity)
    ensures a != null ==> (r == AllocError <==> old(|a.items|) >= old(a.capacity) && !allocOk)
    ensures a != null && r == AllocError ==> a.released && a.items == old(a.items)
  {
    if a == null {
      return InvalidParams;
    }
    r := a.PushInternal(item, cfg, allocOk);
  }

  /** anv_arr__insert. */
  method Insert(a: DynArr?, index: nat, item: Option<Item>, cfg: Config, allocOk: bool) returns (r: ArrResult)
    requires a != null ==> a.Valid() && a.CanGrow(cfg) && (item.Some? ==> |item.value| == a.itemSz)
    modifies a
    ensures a == null ==> r == InvalidParams
    ensures a != null && InsertOutOfBounds(old(a.items), index) ==>
      r == IndexOutOfBounds && a.items == old(a.items) && a.capacity == old(a.capacity) && a.Valid()
    ensures a != null && !InsertOutOfBounds(old(a.items), index) ==>
      (r == Ok || r == AllocError) &&
      (r == AllocError <==> old(|a.items|) >= old(a.capacity) && !allocOk)
    ensures a != null && r == Ok ==>
      a.Valid() && a.items == Inserted(old(a.items), index, OrZeros(a.itemSz, item)) &&
      a.capacity == if old(|a.items|) >= old(a.capacity) then cfg.reallocator(old(a.capacity)) else old(a.capacity)
    ensures a != null && r == AllocError ==> a.released
  {
    if a == null {
      return InvalidParams;
    }
    if index != 0 && index >= |a.items| {
      return IndexOutOfBounds;
    }
    if |a.items| == 0 {
      r := a.PushInternal(item, cfg, allocOk);
    } else {
      var oldItem := a.items[index];
      r := a.PushInternal(Some(oldItem), cfg, allocOk);
      if r == Ok {
        a.items := a.items[index := OrZeros(a.itemSz, item)];
      }
    }
  }

  /** anv_arr__pop: NULL on a NULL or empty array. */
  method Pop(a: DynArr?) returns (item: Option<Item>)
    requires a != null ==> a.Valid()
    modifies a
    ensures a == null ==> item.None?
    ensures a != null ==> a.Valid() && (item, a.items) == Popped(old(a.items)) && a.capacity == old(a.capacity)
  {
    if a == null {
      return None;
    }
    if |a.items| == 0 {
      return None;
    }
    item := Some(a.items[|a.items| - 1]);
    a.items := a.items[..|a.items| - 1];
  }

  /** anv_arr__get: NULL on a NULL array or when index >= length. */
  method Get(a: DynArr?, index: nat) returns (item: Option<Item>)
    requires a != null ==> a.Valid()
    ensures a == null ==> item.None?
    ensures a != null ==> (item.None? <==> index >= |a.items|)
    ensures a != null && item.Some? ==> item.value == a.items[index]
  {
    if a == null {
      return None;
    }
    if index >= |a.items| {
      return None;
    }
    return Some(a.items[index]);
  }

  /** anv_arr_swap, through the tmp_item slot. */
  method Swap(a: DynArr?, ia: nat, ib: nat) returns (r: ArrResult)
    requires a != null ==> a.Valid()
    modifies a
    ensures a == null ==> r == InvalidParams
    ensures a != null ==> r == SwapResult(old(a.items), ia, ib) && a.Valid() && a.capacity == old(a.capacity)
    ensures a != null && r == Ok ==> a.items == Swapped(old(a.items), ia, ib) && a.tmp == old(a.items)[ia]
    ensures a != null && r != Ok ==> a.items == old(a.items)
  {
    if a == null {
      return InvalidParams;
    }
    if ia == ib {
      return IndexCollision;
    }
    if ia >= |a.items| || ib >= |a.items| {
      return IndexOutOfBounds;
    }
    a.tmp := a.items[ia];
    a.items := a.items[ia := a.items[ib]];
    a.items := a.items[ib := a.tmp];
    r := Ok;
  }

  /** anv_arr_remove: swap-with-last removal. */
  method Remove(a: DynArr?, index: nat) returns (r: ArrResult)
    requires a != null ==> a.Valid()
    modifies a
    ensures a == null ==> r == InvalidParams
    ensures a != null ==> a.Valid() && a.capacity == old(a.capacity)
    ensures a != null ==> (r == IndexOutOfBounds <==> index >= old(|a.items|)) && (r == Ok || r == IndexOutOfBounds)
    ensures a != null && r == Ok ==> a.items == Removed(old(a.items), index)
    ensures a != null && r != Ok ==> a.items == old(a.items)
  {
    if a == null {
      return InvalidParams;
    }
    if index >= |a.items| {
      return IndexOutOfBounds;
    }
    a.items := a.items[index := a.items[|a.items| - 1]];
    a.items := a.items[..|a.items| - 1];
    r := Ok;
  }

  /** anv_arr__shrink_to_fit: reallocate to exactly the length. */
  method ShrinkToFit(a: DynArr?, allocOk: bool) returns (r: ArrResult)
    requires a != null ==> a.Valid()
    modifies a
    ensures a == null ==> r == InvalidParams
    ensures a != null ==> r == (if allocOk then Ok else AllocError) && a.items == old(a.items)
    ensures a != null && r == Ok ==> a.Valid() && a.capacity == |a.items|
    ensures a != null && r == AllocError ==> a.released
  {
    if a == null {
      return InvalidParams;
    }
    r := a.Reallocate(|a.items|, allocOk);
  }
}

# anv utilities: a Dafny model of the bookkeeping cores

The repository is a set of single-header C utilities. This project models the
parts of them that keep state by rules that can be stated and proved, with raw
memory replaced by sequences, maps, arrays and trees:

- **repackages/coroutine.h**: the cooperative coroutine scheduler: a slot table
  that grows by doubling, the round-robin slot probe, the resume / yield /
  finish transitions with their assertions, and the copy of the used top of
  the shared stack into each coroutine's private buffer and back
  (`coroutine.dfy`, module `Coroutine`, class `Scheduler`).
- **include/anv_arr.h**: the growable array behind a metadata header: push with
  growth through the configurable reallocator, the unordered insert that moves
  the displaced item to the end, pop, get, swap, swap-with-last remove and
  shrink-to-fit, with every error code (`dyn_array.dfy`, module `DynArray`,
  classes `Config` and `DynArr`).
- **include/anv_metalloc.h** and the older **src/anv_metalloc.h**: the block
  layout `[metadata][size byte][check word][data]` (the two headers differ in
  the check word and the API), its readers and writers, and
  malloc / calloc / realloc / free (`meta_alloc.dfy`,
  `meta_alloc_legacy.dfy`; the shared byte helpers and the little-endian word
  codec are in `bytes.dfy`).
- **include/anv_halloc.h**: the hierarchical allocator with fixed-capacity
  child arrays (`anv_halloc.dfy`, class `HallocHeap`).
- **repackages/halloc.h**: the hierarchical allocator with intrusive sibling
  lists, hattach, subtree free and the size checks (`halloc.dfy`, class
  `Hierarchy`, over the value forest of `forest.dfy`).
- **repackages/stb_alloc.h**: the tagged block headers, the bit helpers, chunk
  lists with their placement arithmetic, the alignment malloc_base chooses,
  subtree free and reassign, with the debug counters' balance as an invariant
  (`stb_alloc.dfy`, classes `ChunkList` and `StbHeap`).
- **include/anv_leaks.h** and the older **src/anv_leaks.h**: the leak tracker's
  six 32-bit counters and its list of live-allocation records. The older one
  keeps the records on a circular doubly linked list, modelled through its
  `next`/`prev` links (`leaks.dfy`, `leaks_list.dfy`, classes `Tracker` and
  `ListTracker`).

Each state-changing operation is a method of a class whose fields are the C
state. Its postcondition ties the new state to a specification function of the
old state. The properties the C code promises are lemmas about those functions
and invariants that the methods keep. What the system allocator returns (a
success flag or an address) is a parameter of each operation. Addresses are
ids, 0 standing for NULL where the source compares against it. size_t
(64 bits) and unsigned (32 bits) overflow is written out where the source
relies on it, in h_calloc's product and in the two sizes anv_arr_new passes
to anv_meta_malloc. The sizes taken as exact elsewhere are listed under
"Left out", each with its member.

The model follows the code as written, quirks included, except where a line
under "Left out" or a row of "Findings" says otherwise. The exceptions are
these. The legacy metalloc's malloc, realloc and calloc allocate the intended
sizes. The array class keeps swap's spare slot inside the header; the bytes
of the block show where ANV_ARR__TMP_ITEM really points. anv_arr_new is
modelled only for item sizes whose header does not wrap to a short non-zero
size. For example,
`anv_leaks_free_` of src/anv_leaks.h counts the free before it searches, so
freeing an unknown or NULL block breaks the counter balance
(`LeaksList.FreeCountedUnknown`).

Assertions on arguments become preconditions: the non-zero size of the leak
tracker's allocations and the non-NULL pointer of `anv_leaks_free_` in
include/anv_leaks.h. Assertions on outcomes are not preconditions: a failed
malloc, an unknown block or the assert(0) after a search. There the model
takes the path the code takes once assertions are compiled out. The
scheduler's assertions on its callers are preconditions: nothing running and
an id in range for resume, a running coroutine for yield. Its assertion on
the stored status is proved to hold (`Coroutine.ResumeAssertsHold`).

## Model

| member | source | states |
|---|---|---|
| Coroutine.StatusCode | repackages/coroutine.h:39-44 | the four statuses have the codes 0..3 and only DEAD is 0 |
| Coroutine.NewCo | repackages/coroutine.h:102-116 | a fresh record is READY, has cap 0, size 0 and no private stack, and keeps its entry function and datum |
| Coroutine.Live | repackages/coroutine.h:86 | the number of occupied slots, never more than the table length; `nco` is kept equal to it |
| Coroutine.LiveUpdate | repackages/coroutine.h:181-182 | filling an empty slot or emptying a full one changes the occupied count by exactly one |
| Coroutine.OpenInv | repackages/coroutine.h:125-143 | the opened schedule satisfies the scheduler invariant (nco 0, cap 16, nothing running, every slot empty) and every slot reports DEAD |
| Coroutine.ProbeFrom | repackages/coroutine.h:177-185 | the probe stops at the first step whose slot (i + nco) % cap is empty, every earlier step hit an occupied slot, and it reaches cap only when none is empty |
| Coroutine.ProbeCovers | repackages/coroutine.h:178-179 | the probe visits every slot of the table |
| Coroutine.ProbeFinds | repackages/coroutine.h:176-188 | when nco < cap the probe finds an empty slot, so the assert(0) after the loop is unreachable |
| Coroutine.NewInv | repackages/coroutine.h:160-189 | coroutine_new keeps the invariant and returns -1 exactly when the table is full and realloc fails |
| Coroutine.GrowInv | repackages/coroutine.h:164-175 | doubling a full table and storing the record at the old cap keeps the invariant |
| Coroutine.PlaceInv | repackages/coroutine.h:180-183 | storing a READY record in an empty slot keeps the invariant |
| Coroutine.NewProbe | repackages/coroutine.h:176-186 | with room, the record lands in the first empty slot of the probe, that index is returned, nco grows by one and no other slot, the capacity, the running index or the stack changes |
| Coroutine.NewGrow | repackages/coroutine.h:164-175 | with a full table, realloc failure returns -1 and changes nothing; otherwise cap doubles, the old slots are kept, the record sits at the returned old cap and the rest of the new half is empty |
| Coroutine.ResumeAssertsHold | repackages/coroutine.h:205-242 | from a valid state with nothing running and an id in range, the stored record is READY or SUSPEND, so the default assert(0) branch is unreachable |
| Coroutine.Replay | repackages/coroutine.h:233-234 | writing the snapshot back keeps the shared stack's length (the top `size` bytes are replaced) |
| Coroutine.ResumeInv | repackages/coroutine.h:205-242 | resume keeps the invariant; an empty slot changes nothing; an occupied slot becomes RUNNING and the running one, with nco and cap unchanged |
| Coroutine.SaveStackGrows | repackages/coroutine.h:244-258 | the snapshot size is the depth; the private capacity never shrinks, is replaced by exactly the depth only when too small, and afterwards holds the snapshot |
| Coroutine.StackRoundTrip | repackages/coroutine.h:233-257 | the bytes saved from the top `depth` bytes are written back to exactly those positions, whatever the shared stack held in between, and the bytes below are untouched |
| Coroutine.YieldInv | repackages/coroutine.h:260-271 | yield keeps the invariant, leaves the coroutine SUSPEND, resets running to -1 and keeps nco |
| Coroutine.FinishInv | repackages/coroutine.h:191-203 | the cleanup after the entry function returns keeps the invariant, leaves the slot DEAD, decrements nco and keeps cap |
| Coroutine.StatusOf | repackages/coroutine.h:273-281 | the status is DEAD exactly for an empty slot, and in a valid state RUNNING exactly for the running index |
| Coroutine.SuspendResumeRestores | repackages/coroutine.h:233-271 | a coroutine that yields at some depth and is resumed after arbitrary use of the shared stack finds its top bytes as it left them |
| Coroutine.RunToCompletion | repackages/coroutine.h:191-242 | a READY coroutine resumed and returning without yielding ends DEAD in its slot, with nothing running and nco one lower |
| Coroutine.Scheduler.constructor | repackages/coroutine.h:125-143 | the new scheduler is the opened state: a fresh shared stack, nco 0, cap 16, running -1, all slots empty |
| Coroutine.Scheduler.Open | repackages/coroutine.h:125-143 | NULL exactly when one of the two mallocs fails; otherwise the opened state |
| Coroutine.Scheduler.Close | repackages/coroutine.h:145-158 | every stored record is deleted (as many as nco) and the table released |
| Coroutine.Scheduler.New | repackages/coroutine.h:160-189 | the new table, counters and returned id are those of coroutine_new's specification (probe or doubling), and the invariant is kept |
| Coroutine.Scheduler.Resume | repackages/coroutine.h:205-242 | the new state is resume's specification: the snapshot copied back for SUSPEND, the record RUNNING, running set to id |
| Coroutine.Scheduler.Yield | repackages/coroutine.h:244-271 | the new state is yield's specification: the top bytes copied into the (grown if needed) private buffer, SUSPEND, running -1 |
| Coroutine.Scheduler.Finish | repackages/coroutine.h:196-202 | the new state is the cleanup's specification: slot emptied, nco decremented, running -1 |
| Coroutine.Scheduler.StatusAt | repackages/coroutine.h:273-281 | DEAD exactly for an empty slot, RUNNING exactly for the running index |
| Coroutine.Scheduler.RunningId | repackages/coroutine.h:283-287 | -1 or the slot whose record is RUNNING |
| Coroutine.ProbeSlot | repackages/coroutine.h:177-178 | every step of the probe looks at a slot inside the table |
| Coroutine.LiveFull | repackages/coroutine.h:176-186 | a table whose every slot is taken has as many live coroutines as slots, so with nco < cap the probe cannot come back empty-handed |
| DynArray.ResultCode | include/anv_arr.h:132-154 | the result codes, with only OK equal to 0 |
| DynArray.DefaultReallocator | include/anv_arr.h:342-346 | the default growth adds exactly 8 to the old capacity |
| DynArray.Pushed | include/anv_arr.h:437-453 | push appends the item after the live ones and keeps every earlier item |
| DynArray.Popped | include/anv_arr.h:507-527 | pop gives NULL exactly on an empty array; otherwise the last item and the array without it |
| DynArray.GetItem | include/anv_arr.h:529-547 | get is NULL exactly when index >= length, otherwise the item at index |
| DynArray.PopAfterPush | include/anv_arr.h:437-527 | pop right after push returns the pushed item and the original items (LIFO) |
| DynArray.PushAfterPop | include/anv_arr.h:437-527 | pushing back what pop returned restores the array |
| DynArray.InsertedShape | include/anv_arr.h:474-487 | insert puts the item at index, moves the displaced item to the end, keeps every other item in place and adds exactly the new item to the multiset |
| DynArray.InsertAtZeroOrder | tests/anv_arr.c:162-186 | inserting three items at 0 of an empty array leaves the third, then the first, then the second |
| DynArray.InsertInMiddleOrder | tests/anv_arr.c:137-160 | pushing two items and inserting a third at 1 leaves first, third, second |
| DynArray.SwapAsWrittenClobbers | include/anv_arr.h:549-560 | as written, with one-byte items and 739 of them, swapping items 0 and 1 through the slot ANV_ARR__TMP_ITEM points at (block offset 768) also overwrites item 738 with the old item 0, which an exchange would leave alone |
| DynArray.SwapBlockIntended | include/anv_arr.h:549-560 | with the slot inside the header, where the tmp_item field is, the three memcpys on the bytes of the block exchange exactly items a and b of the data area and leave every other item |
| DynArray.SwapItemAt | include/anv_arr.h:549-560 | after those three memcpys, item i holds what item b held if i is a, what item a held if i is b, and its own bytes otherwise |
| DynArray.CopyViaSlice | include/anv_arr.h:557-559 | for a spare slot below two disjoint ranges, memcpy to the slot, from b to a and from the slot to b puts b's bytes at a, a's at b, and keeps any range apart from both |
| DynArray.OverwriteIn | include/anv_arr.h:557 | after memcpy, each byte of the target range holds the corresponding source byte |
| DynArray.OverwriteOut | include/anv_arr.h:557 | memcpy keeps every byte outside the target range |
| DynArray.SwappedShape | include/anv_arr.h:549-586 | swap exchanges exactly the two items, keeps the others, is its own inverse and is a permutation |
| DynArray.RemovedShape | include/anv_arr.h:588-619 | remove drops exactly the item at index from the multiset, keeps the others before the end in place and moves the last item into index |
| DynArray.RemoveExamples | tests/anv_arr.c:467-501 | removing index 1 of three items leaves the first and the third; removing the only item leaves none |
| DynArray.Config.constructor | include/anv_arr.h:348-349 | the reallocator starts as the default |
| DynArray.Config.ConfigReallocatorFn | include/anv_arr.h:351-359 | NULL restores the default reallocator, anything else installs it |
| DynArray.DynArr.constructor | include/anv_arr.h:361-380 | a new array has no items, the given capacity and item size |
| DynArray.DynArr.Reallocate | include/anv_arr.h:422-435 | success sets the capacity and keeps the items; failure reports ALLOC_ERROR and the block is released |
| DynArray.DynArr.PushInternal | include/anv_arr.h:437-453 | a full array first grows to reallocator(capacity); ALLOC_ERROR exactly when it was full and the reallocation failed; otherwise the item (zeros for NULL) is appended |
| DynArray.New | include/anv_arr.h:361-380 | NULL exactly when the size_t product item_sz * capacity is 0, the unsigned char header size 24 + item_sz wraps to 0, or malloc fails; otherwise an empty array of that capacity and item size |
| DynArray.Length | include/anv_arr.h:388-401 | 0 for NULL, otherwise the number of live items |
| DynArray.Push | include/anv_arr.h:490-505 | INVALID_PARAMS for NULL; ALLOC_ERROR exactly when the array was full and the reallocation failed, and then the items are kept and the block released; otherwise the item is appended, growing a full array first |
| DynArray.Insert | include/anv_arr.h:455-488 | INVALID_PARAMS for NULL; INDEX_OUT_OF_BOUNDS and no change when index != 0 and index >= length; otherwise the unordered insert, or ALLOC_ERROR when the growth fails |
| DynArray.Pop | include/anv_arr.h:507-527 | NULL for NULL or empty; otherwise the last item, with the length one lower and the capacity unchanged |
| DynArray.Get | include/anv_arr.h:529-547 | NULL for NULL or index >= length, otherwise the item at index |
| DynArray.Swap | include/anv_arr.h:563-586 | INVALID_PARAMS for NULL; INDEX_COLLISION for equal indices before the bounds test; INDEX_OUT_OF_BOUNDS when either is >= length; otherwise exactly those two items are exchanged, through the spare slot in the header |
| DynArray.Remove | include/anv_arr.h:598-619 | INVALID_PARAMS for NULL; INDEX_OUT_OF_BOUNDS exactly when index >= length; otherwise the last item replaces index and the length drops by one |
| DynArray.ShrinkToFit | include/anv_arr.h:621-636 | INVALID_PARAMS for NULL; on success the capacity equals the length and the items are kept |
| Bytes.OrZeros | include/anv_arr.h:409-420 | an item slot receives the item, or itemSz zero bytes for a NULL item |
| Bytes.LE32RoundTrip | include/anv_metalloc.h:341 | a uint32 stored as four little-endian bytes loads back as the same value |
| Bytes.FromLE32RoundTrip | include/anv_metalloc.h:251 | four loaded bytes stored again are the same bytes, so comparing the loaded word is comparing the bytes |
| Bytes.CopyInto | include/anv_metalloc.h:284 | memcpy into a buffer: exactly the target range becomes the source bytes, everything else keeps its value |
| Bytes.CopyOut | include/anv_metalloc.h:369 | memcpy out of a buffer: the bytes of the given range |
| MetaAlloc.ChkbValue | include/anv_metalloc.h:238-240 | the nine-digit check word cast to uint32 is 0x96941469 |
| MetaAlloc.Header | include/anv_metalloc.h:338-342 | the header is meta_sz metadata bytes, the size byte and the four check-word bytes, so the data starts at meta_sz + METASZ_SZ + CHKB_SZ |
| MetaAlloc.ValidIffCheckBytes | include/anv_metalloc.h:245-252 | a pointer is valid exactly when the four bytes before it are the bytes of CHKB |
| MetaAlloc.HeaderReadsBack | include/anv_metalloc.h:254-342 | a block written by malloc is valid, its size byte is meta_sz, its offset is meta_sz + 5, get yields the metadata and the data follows untouched |
| MetaAlloc.SetReadsBack | include/anv_metalloc.h:280-303 | after set, get returns the new metadata (zeros for NULL); the block stays valid with the same size, and the size byte, check word, data and bytes before the block are unchanged |
| MetaAlloc.PrefixKeepsHeader | include/anv_metalloc.h:355-376 | a buffer that agrees with a valid block up to the pointer is valid with the same size, offset and metadata |
| MetaAlloc.IsValid | include/anv_metalloc.h:245-252 | 0 for NULL; otherwise exactly whether the four bytes before the pointer are CHKB |
| MetaAlloc.GetSz | include/anv_metalloc.h:254-268 | 0 for an invalid pointer, otherwise the size byte five bytes before the pointer |
| MetaAlloc.GetOffset | include/anv_metalloc.h:305-319 | 0 for an invalid pointer, otherwise getsz + METASZ_SZ + CHKB_SZ, which never reaches before the buffer |
| MetaAlloc.Get | include/anv_metalloc.h:270-278 | NULL exactly for an invalid pointer; otherwise the pointer offset bytes back in the same buffer, where the getsz metadata bytes are |
| MetaAlloc.MallocReadsBack | include/anv_metalloc.h:321-343 | a buffer starting with malloc's header reads back valid through the interface, with its size, offset, block start and metadata |
| MetaAlloc.Malloc | include/anv_metalloc.h:321-343 | NULL exactly when data_sz or meta_sz is 0 or malloc fails; otherwise a fresh block of data_sz + meta_sz + 5 bytes with the header in front and the pointer at meta_sz + 5, valid, with getsz meta_sz and get the metadata (zeros for NULL) |
| MetaAlloc.Set | include/anv_metalloc.h:290-303 | INVALID_PARAMS and no change for an invalid pointer; otherwise OK and the bytes are exactly those of the set specification |
| MetaAlloc.Free | include/anv_metalloc.h:345-353 | an invalid pointer frees nothing; a valid one frees its buffer at the block start, offset bytes before the pointer |
| MetaAlloc.Realloc | include/anv_metalloc.h:355-376 | NULL and nothing released for an invalid pointer; on realloc failure the old block is released and NULL returned; otherwise a block of new_sz + offset bytes keeping the common prefix, with the pointer at the same offset |
| MetaAlloc.ReallocKeepsHeader | include/anv_metalloc.h:363-375 | the reallocated block is valid with the old metadata and offset and exactly new_sz data bytes |
| MetaAllocLegacy.IsValid | src/anv_metalloc.h:136-140 | valid exactly when the four bytes before the pointer are the bytes of 0x12345678 (no NULL test) |
| MetaAllocLegacy.GetSz | src/anv_metalloc.h:142-152 | the size byte five bytes before the pointer, below 256, with the metadata in front of it |
| MetaAllocLegacy.GetPadding | src/anv_metalloc.h:177-186 | getsz + METASZ_SZ + CHKB_SZ, never reaching before the buffer |
| MetaAllocLegacy.Get | src/anv_metalloc.h:154-163 | the pointer moved back by the padding, in the same buffer |
| MetaAllocLegacy.Header | src/anv_metalloc.h:194-200 | the header is the metadata, the size byte and the four check-word bytes |
| MetaAllocLegacy.HeaderReadsBack | src/anv_metalloc.h:136-201 | a buffer starting with the header is a valid block whose getsz, padding, get and metadata read back as written |
| MetaAllocLegacy.Set | src/anv_metalloc.h:165-175 | exactly the getsz metadata bytes become the new metadata; the size byte, check word and data are kept and get returns the new metadata |
| MetaAllocLegacy.AllocSize | src/anv_metalloc.h:188-201 | the intended allocation size: metadata, size byte, check word and data |
| MetaAllocLegacy.AllocSizeShort | src/anv_metalloc.h:191 | the size passed to malloc as written is one byte short of the layout written into it; with no data bytes even the check word overruns |
| MetaAllocLegacy.AllocSizeFits | src/anv_metalloc.h:191-200 | the intended size holds the header right before the data |
| MetaAllocLegacy.Malloc | src/anv_metalloc.h:188-201 | NULL exactly when malloc fails (metadata size 0 accepted); otherwise a fresh block of the intended size with metadata (zeros for NULL), size byte and check word in front and the pointer after them, a valid block with getsz and padding as written |
| MetaAllocLegacy.ReallocSize | src/anv_metalloc.h:212-217 | the intended realloc size keeps the padding in front of new_sz data bytes |
| MetaAllocLegacy.ReallocSizeShort | src/anv_metalloc.h:214 | the size passed to realloc as written is the padding short; metadata size 2 with new size 5 puts the returned pointer past the end of the block |
| MetaAllocLegacy.PrefixKeepsBlock | src/anv_metalloc.h:212-217 | a buffer repeating a block's header up to the pointer is a valid block with the same size |
| MetaAllocLegacy.Realloc | src/anv_metalloc.h:203-218 | NULL exactly when realloc fails; otherwise a fresh block of the intended size keeping the common prefix, with the pointer at the same padding, still valid with the same size and header |
| MetaAllocLegacy.CallocSize | src/anv_metalloc.h:224 | nitems * size wrapped to size_t, equal to the product when it fits |
| MetaAllocLegacy.Calloc | src/anv_metalloc.h:220-231 | exactly malloc of the wrapped product; the zero-length memset writes nothing |
| MetaAllocLegacy.Free | src/anv_metalloc.h:233-239 | an invalid pointer is passed to free as it is; a valid one frees its block start |
| AnvHalloc.AttachSpec | include/anv_halloc.h:65-82 | attach fails and changes nothing exactly when count >= capacity; otherwise the child is recorded in slot count, the count grows by one, the child points back at the parent with parent_idx the old count, and no other block changes |
| AnvHalloc.InvGrows | include/anv_halloc.h:84-105 | consuming an id without keeping a block keeps the heap consistent |
| AnvHalloc.AllocInv | include/anv_halloc.h:84-105 | alloc keeps the heap consistent; NULL leaves the heap as it was; a new block has check value 0xFAF0, the given capacity, no children, zeroed data and the given parent; a child lands in the parent's slot count; no other block changes |
| AnvHalloc.RootOk | include/anv_halloc.h:88-95 | a parentless, childless fresh block keeps the heap consistent |
| AnvHalloc.AttachOk | include/anv_halloc.h:75-102 | a fresh childless block recorded in the parent's next free slot keeps the heap consistent |
| AnvHalloc.AttachParentOk | include/anv_halloc.h:75-76 | the parent's header stays consistent after recording the new child |
| AnvHalloc.AllocChild | include/anv_halloc.h:96-101 | one allocation under a parent succeeds exactly when a child slot is free, and then takes exactly one slot |
| AnvHalloc.AllocChildren | include/anv_halloc.h:96-101 | of k allocations under a parent exactly min(k, capacity - count) succeed, so a parent of capacity N accepts exactly N children |
| AnvHalloc.ReleasedShape | include/anv_halloc.h:107-131 | free hands the block itself to free() last; every other released block comes from its subtree |
| AnvHalloc.ReleasedAllBounds | include/anv_halloc.h:126-128 | the children's release orders only name blocks below the parent |
| AnvHalloc.ReleasedNested | include/anv_halloc.h:126-128 | the release order of any released block is contained in the outer one |
| AnvHalloc.ReleasedAllNested | include/anv_halloc.h:126-128 | the same containment for the release orders of a list of children |
| AnvHalloc.ReleasedAllHas | include/anv_halloc.h:126-128 | every recorded child is released when its parent is |
| AnvHalloc.FreeLeavesNoOrphan | include/anv_halloc.h:107-131 | a block that survives a free and whose parent was live still has its parent |
| AnvHalloc.FreeInv | include/anv_halloc.h:107-131 | free keeps the heap consistent and removes exactly the released blocks |
| AnvHalloc.HallocHeap.constructor | include/anv_halloc.h:84-105 | an empty heap, ids starting at 0 |
| AnvHalloc.HallocHeap.AttachChild | include/anv_halloc.h:65-82 | the new heap and the result are those of the attach specification |
| AnvHalloc.HallocHeap.Alloc | include/anv_halloc.h:84-105 | the new heap, next id and result are those of the alloc specification, and the heap stays consistent |
| AnvHalloc.HallocHeap.Walk | include/anv_halloc.h:116-130 | the walk hands out exactly the release order: the recorded children's subtrees in slot order, then the block |
| AnvHalloc.HallocHeap.Free | include/anv_halloc.h:107-131 | NULL releases nothing; otherwise the release order is returned and exactly those blocks leave the heap |
| Forest.FindAllFacts | repackages/halloc.h:269 | looking a block up succeeds exactly for the blocks of the hierarchy and yields that block's own subtree, free of duplicates |
| Forest.Subtree | repackages/halloc.h:269 | the subtree of a block of the hierarchy has that block at its root and only blocks of the hierarchy below |
| Forest.RemoveAllAbsent | repackages/halloc.h:159-170 | taking out a block that is not in the hierarchy changes nothing |
| Forest.RemoveAllFacts | repackages/halloc.h:159-170 | taking a block out of its list removes exactly the blocks of its subtree, keeps every block unique, and removes it from the unlisted blocks |
| Forest.RemoveAllKeeps | repackages/halloc.h:159-170 | every block outside the removed subtree stays, with its own data |
| Forest.AddAllAbsent | repackages/halloc.h:147-157 | adding under a block that is not in the hierarchy changes nothing |
| Forest.AddAllFacts | repackages/halloc.h:147-157 | hlist_add adds exactly the blocks of the attached subtree, keeps every block unique, keeps the unlisted blocks, and puts the subtree at the head of the parent's children |
| Forest.SetDataAllFacts | repackages/halloc.h:272-290 | replacing a block's data keeps every block, every children list and every listed status; only that block's data changes |
| Forest.FreeOrderReleasesSubtree | repackages/halloc.h:292-297 | the release order of a block names exactly the blocks of its subtree, and the block itself comes last |
| Forest.FreeOrderAllReleases | repackages/halloc.h:451-456 | the release orders of a children list together name exactly the blocks below them |
| Halloc.RelateIff | repackages/halloc.h:414-436 | _relate(b, p) is true exactly when b is a strict descendant of p |
| Halloc.RelateAllIff | repackages/halloc.h:428-435 | the search over a children list finds b exactly when b is one of the children or below one |
| Halloc.OverflowsIff | repackages/halloc.h:245-248 | the quick check len + sizeof_hblock < sizeof_hblock (in size_t) fires exactly when the block size exceeds SIZE_MAX |
| Halloc.OkToMultiplyAsWrittenWrong | repackages/halloc.h:379-384 | as written the check accepts 2^33 * 2^32, which overflows, and refuses 2^32 * 1, which fits |
| Halloc.OkToMultiplyExact | repackages/halloc.h:379-384 | with the third disjunct the right way round the check accepts exactly the products that fit a size_t |
| Halloc.QuotientBound | repackages/halloc.h:383 | b <= SIZE_MAX / a exactly when a * b <= SIZE_MAX |
| Halloc.Resized | repackages/halloc.h:276 | the block keeps its old bytes up to the new length and has exactly the new length |
| Halloc.AttachFacts | repackages/halloc.h:300-329 | hattach keeps every block and their uniqueness; without a parent the block becomes unlisted with its subtree; with one it becomes the head of the parent's children with its subtree intact |
| Halloc.Hierarchy.constructor | repackages/halloc.h:214 | no blocks yet |
| Halloc.Hierarchy.FreeWalk | repackages/halloc.h:438-457 | _free_children followed by the block releases the block's subtree in the release order: each child's subtree in list order, then the block |
| Halloc.Hierarchy.HAlloc | repackages/halloc.h:234-298 | overflow gives NULL and no change; NULL with length 0 or a failed allocation gives NULL; NULL with a length gives a new unlisted childless block; a length on a block replaces its data and keeps its place and children (NULL and no change on failure); length 0 releases its subtree in order and takes it out of its list |
| Halloc.Hierarchy.HAttach | repackages/halloc.h:300-329 | a NULL block changes nothing; otherwise the hierarchy becomes the hattach specification |
| Halloc.Hierarchy.HMalloc | repackages/halloc.h:334-338 | a new unlisted block exactly when there is no overflow, the length is positive and the allocation succeeds |
| Halloc.Hierarchy.HCalloc | repackages/halloc.h:340-351 | with _ok_to_multiply as written and the size_t product wrapped, a new block of that many zero bytes exactly when the check passes, the wrapped product is positive and fits with the header, and the allocation succeeds; for 2^33 and 2^32 + 1 the check passes and the block has only 2^33 bytes |
| Halloc.CallocWrapsAsWritten | repackages/halloc.h:345-349 | 2^33 and 2^32 + 1 pass the check as written, and their product exceeds SIZE_MAX and wraps to 2^33 |
| Halloc.Hierarchy.HRealloc | repackages/halloc.h:353-357 | realloc of a block replaces only its data; NULL on overflow, length 0 or failure |
| Halloc.Hierarchy.HFree | repackages/halloc.h:359-363 | NULL changes nothing; otherwise the block's subtree is released in order and removed |
| Halloc.Hierarchy.HStrdup | repackages/halloc.h:365-371 | a new unlisted block holding the string's bytes and a terminating 0, exactly when the allocation succeeds |
| StbAlloc.Pow2 | repackages/stb_alloc.h:569 | 1 << k is at least 1 |
| StbAlloc.AndLowMask | repackages/stb_alloc.h:379-381 | masking with align - 1, align a power of two, keeps the remainder modulo align |
| StbAlloc.AndLowMaskStep | repackages/stb_alloc.h:379-381 | one bit of that fact, from x / 2 to x |
| StbAlloc.ModDouble | repackages/stb_alloc.h:379-381 | the remainder modulo 2p is made of the remainder of x / 2 modulo p and the low bit |
| StbAlloc.AndSelf | repackages/stb_alloc.h:548-552 | n & n == n |
| StbAlloc.IsPow2Iff | repackages/stb_alloc.h:548-552 | stb_is_pow2 holds exactly of the powers of two and of 0 |
| StbAlloc.AndPredIff | repackages/stb_alloc.h:548-552 | for n >= 1, n & (n - 1) is 0 exactly when n is a power of two |
| StbAlloc.Pow2IsPowerOfTwo | repackages/stb_alloc.h:569 | 1 << k is a power of two |
| StbAlloc.Encode | repackages/stb_alloc.h:192 | STB__ENCODE yields a size_t value |
| StbAlloc.Decode | repackages/stb_alloc.h:191 | STB__DECODE yields a size_t value |
| StbAlloc.DecodeEncode | repackages/stb_alloc.h:191-192 | decoding with the tag that was added gives the pointer back, whatever the wrap-around |
| StbAlloc.Identify | repackages/stb_alloc.h:205-210 | stb__identify yields one of the four header codes |
| StbAlloc.IdentifyHeader | repackages/stb_alloc.h:176-210 | for a 4-aligned link, stb__identify of a block's last header word gives back its type, and decoding that word with the type's tag gives back the link |
| StbAlloc.Lowbit4Table | repackages/stb_alloc.h:532-546 | the nibble table gives -1 exactly for 0, and otherwise the index of the nibble's lowest set bit |
| StbAlloc.Lowbit8Correct | repackages/stb_alloc.h:532-546 | stb_lowbit8 is -1 exactly when the low eight bits are clear, and otherwise the index of the lowest set bit |
| StbAlloc.Lowbit8Low | repackages/stb_alloc.h:539-541 | a set bit in the low nibble is the lowest set bit |
| StbAlloc.Lowbit8High | repackages/stb_alloc.h:542-545 | with the low nibble clear, the high nibble's lowest set bit is the lowest, four places up |
| StbAlloc.ChooseAlignOfSize | repackages/stb_alloc.h:566-593 | with the cap every stb_malloc entry point passes, the alignment chosen is the largest power of two up to 32 dividing the size |
| StbAlloc.ChooseAlignCapped | repackages/stb_alloc.h:569-590 | under the cap the alignment is 1 << lowbit of the size, at most 32 |
| StbAlloc.ChooseAlignIsPow2 | repackages/stb_alloc.h:566-595 | the assertion stb_is_pow2(align) holds whenever a negative cap is a power of two |
| StbAlloc.LeafPromotedIff | repackages/stb_alloc.h:597-600 | stb_malloc_leaf gives a general block exactly when the size is a multiple of 16 |
| StbAlloc.TryStartAligned | repackages/stb_alloc.h:370-385 | a non-negative offset from stb__try_chunk fits the block in the free part and aligns the byte after its header |
| StbAlloc.TryChunk | repackages/stb_alloc.h:359-393 | success exactly when the aligned offset less the header is non-negative; then the offset becomes the new data_left, otherwise the chunk is unchanged |
| StbAlloc.TryChunkBest | repackages/stb_alloc.h:366-393 | the block goes as high as any fitting placement, so stb__try_chunk fails only when nothing fits |
| StbAlloc.TryRoom | repackages/stb_alloc.h:370-387 | a free part of size + pre + align - 1 bytes always has room |
| StbAlloc.SortFirstTwo | repackages/stb_alloc.h:395-414 | stb__sort_chunks permutes the list, swapping only the first two when the second has at least as much left, so the first has at least as much as the second |
| StbAlloc.AllocSumUpdate | repackages/stb_alloc.h:426-434 | changing one chunk changes the accounted total by the difference of its counts |
| StbAlloc.AllocSumSort | repackages/stb_alloc.h:395-414 | sorting keeps the accounted total |
| StbAlloc.NewChunk | repackages/stb_alloc.h:447-490 | a new chunk's data size is the starting size or grown by ALIGNMENT + align, and it is what the system allocator gave for that size |
| StbAlloc.AllocChunkCounts | repackages/stb_alloc.h:416-491 | a block stb__alloc_chunk hands out is counted in exactly one chunk; a failure adds no count |
| StbAlloc.FreshChunkCounts | repackages/stb_alloc.h:447-490 | a block in a new chunk is counted once, in the new chunk |
| StbAlloc.AllocChunkPlaced | repackages/stb_alloc.h:416-491 | every block handed out sits at the end of some chunk's free part with the byte after its header aligned |
| StbAlloc.FreshChunkFront | repackages/stb_alloc.h:474-482 | the new chunk goes to the head of the list and stays there |
| StbAlloc.AllocChunkFirstFit | repackages/stb_alloc.h:422-428 | when the first chunk has room, the block comes from it, placed as high as it fits, and the first chunk's count goes up |
| StbAlloc.AllocChunkSecondFit | repackages/stb_alloc.h:430-436 | when only the second chunk has room, the block comes from it but the first chunk's count goes up |
| StbAlloc.AllocChunkFresh | repackages/stb_alloc.h:422-490 | with no chunk or an oversized request, the block comes from a new chunk in front of the old list |
| StbAlloc.ChunkList.constructor | repackages/stb_alloc.h:165-170 | the list holds the given chunks |
| StbAlloc.ChunkList.SortChunks | repackages/stb_alloc.h:395-414 | the list becomes its sorted form |
| StbAlloc.ChunkList.AllocChunk | repackages/stb_alloc.h:416-491 | the result and the new list are stb__alloc_chunk's specification |
| StbAlloc.NewChunkLoop | repackages/stb_alloc.h:451-490 | the retry loop starts at max(CHUNK_SZ, size) and ends with the new chunk of the specification |
| StbAlloc.NewChunkMiss | repackages/stb_alloc.h:486-488 | a chunk too small for the block sends the search on to one ALIGNMENT + align bytes larger |
| StbAlloc.BareAllAt | repackages/stb_alloc.h:160-163 | every tree of a forest without parented leaves has none |
| StbAlloc.BareFindT | repackages/stb_alloc.h:160-163 | every subtree of such a tree has none |
| StbAlloc.BareFindAll | repackages/stb_alloc.h:160-163 | every subtree of such a forest has none |
| StbAlloc.OutAllCons | repackages/stb_alloc.h:284-286 | a children list outstanding count is the first child, what belongs under it, and the rest |
| StbAlloc.RemoveFactsT | repackages/stb_alloc.h:259-263 | unlinking a block takes away exactly it and what belongs under it |
| StbAlloc.RemoveFactsAll | repackages/stb_alloc.h:246-263 | unlinking a block from a forest takes away exactly it and what belongs under it, and keeps leaves childless |
| StbAlloc.AddFactsT | repackages/stb_alloc.h:510-530 | linking a subtree adds exactly it to the outstanding count |
| StbAlloc.AddFactsAll | repackages/stb_alloc.h:510-530 | linking a block under a general block adds exactly it and what belongs under it, and keeps leaves childless |
| StbAlloc.SetDataFactsT | repackages/stb_alloc.h:420-490 | a new chunk list changes the outstanding count by the change in chunk allocations |
| StbAlloc.SetDataFactsAll | repackages/stb_alloc.h:420-490 | the same, for a block anywhere in the forest, keeping leaves childless |
| StbAlloc.OneRoot | repackages/stb_alloc.h:202 | a forest of the global context alone has its ids, counts and uniqueness |
| StbAlloc.OneRootAdd | repackages/stb_alloc.h:510-530 | linking under the single root changes only that root's subtree |
| StbAlloc.OneRootRemove | repackages/stb_alloc.h:246-263 | unlinking a non-root block changes only the root's subtree |
| StbAlloc.OneRootSet | repackages/stb_alloc.h:420-490 | a new chunk list changes only the block it is for |
| StbAlloc.InitialForest | repackages/stb_alloc.h:202 | the global context alone, with no chunks, is a valid forest with one outstanding block |
| StbAlloc.InsertStep | repackages/stb_alloc.h:602-656 | a fresh childless block linked first under a general block, with one more allocation counted, keeps the heap invariant |
| StbAlloc.ChunksStep | repackages/stb_alloc.h:420-490 | a new chunk list with its added allocations counted keeps the invariant and every id |
| StbAlloc.PieceStep | repackages/stb_alloc.h:635-648 | recording a fresh chunked block of a block of the tree keeps the invariant |
| StbAlloc.Survivors | repackages/stb_alloc.h:265-276 | exactly the chunk-allocated blocks whose owner was not freed remain, unchanged |
| StbAlloc.ChunkStep | repackages/stb_alloc.h:627-656 | carving a block out of a general block's chunks keeps the invariant |
| StbAlloc.FreeStep | repackages/stb_alloc.h:224-295 | unlinking a block, dropping the chunked blocks owned in its subtree and counting it all as freed keeps the invariant |
| StbAlloc.FreeLast | repackages/stb_alloc.h:868-870 | freeing the only child of a global context without chunks leaves nothing outstanding |
| StbAlloc.ReassignStep | repackages/stb_alloc.h:765-794 | moving a block under a general block outside its subtree keeps the invariant, every id and its subtree |
| StbAlloc.SubtreeAfterRemove | repackages/stb_alloc.h:246-263 | unlinking one block leaves every block outside its subtree in the forest with its own data |
| StbAlloc.StbHeap.constructor | repackages/stb_alloc.h:202 | the global context alone, no chunks, both counters zero |
| StbAlloc.StbHeap.Context | repackages/stb_alloc.h:493-508 | stb__get_context yields a general block of the tree: the global context for NULL, the parent of a chunked block, the block itself otherwise |
| StbAlloc.StbHeap.MallocBase | repackages/stb_alloc.h:559-658 | general and leaf requests link a fresh childless block first under the context (NULL and no change on failure); chunk requests carve the block out of the context's chunks as stb__alloc_chunk specifies; every success counts one allocation; the invariant is kept |
| StbAlloc.StbHeap.InsertBlock | repackages/stb_alloc.h:510-530 | the new block becomes the first child of the context; one more allocation is counted |
| StbAlloc.StbHeap.ChunkBlock | repackages/stb_alloc.h:627-649 | the context's chunk list becomes the stb__alloc_chunk result and a chunked block is recorded with its parent |
| StbAlloc.StbHeap.FreeWalk | repackages/stb_alloc.h:265-290 | the frees counted for a block are one plus what belongs under it, and the release order is its chunks' blocks, each child's subtree from the head, then the block |
| StbAlloc.StbHeap.Free | repackages/stb_alloc.h:224-295 | NULL and a chunked block change nothing; otherwise the block's subtree leaves the tree with the chunked blocks it owns and all of it counts as freed; after freeing the only child of the global context the counters agree |
| StbAlloc.StbHeap.Reassign | repackages/stb_alloc.h:765-794 | the block and its subtree move to the head of the new context's children; the counters and everything else stay |
| Leaks.Empty | include/anv_leaks.h:128-138 | the initial tracker has no records, every counter inside 32 bits, and is balanced |
| Leaks.Find | include/anv_leaks.h:282-300 | the search returns the position of the first record of the block, or reports that no record holds it |
| Leaks.SumRemove | include/anv_leaks.h:286-291 | removing a record takes exactly its size off the total of the live sizes |
| Leaks.SumUpdate | include/anv_leaks.h:354-357 | replacing a record changes the total of the live sizes by the difference of the sizes |
| Leaks.SumCons | include/anv_leaks.h:262-266 | a record at the head adds its size to the total |
| Leaks.MallocBalanced | include/anv_leaks.h:236-275 | a malloc keeps the live records counted by malloc + calloc - free and their sizes summed by allocated - freed, in 32-bit arithmetic |
| Leaks.CallocBalanced | include/anv_leaks.h:306-334 | a calloc keeps the ledger balanced, with the size_t product as the recorded size |
| Leaks.FreeBalanced | include/anv_leaks.h:277-304 | a free of a tracked or an unknown block keeps the ledger balanced |
| Leaks.ReallocBalanced | include/anv_leaks.h:336-370 | a realloc of NULL or of a tracked block keeps the ledger balanced, the size_t difference folding into 32 bits |
| Leaks.ReallocUnknownUnbalances | include/anv_leaks.h:362-364 | a realloc of an unknown block (a failed assertion) adds its size to the allocated total with no record, and the balance is lost whenever that size is not a multiple of 2^32 |
| Leaks.LeaksReportsLive | include/anv_leaks.h:187-221 | on a balanced ledger of fewer than 2^32 records the reported count is the number of live records, the array is NULL exactly when none is live, and otherwise it lists every live record in list order |
| Leaks.NoLeaksTotals | deprecated/tests/anv_leaks.c:97-101 | once no record is live, allocated equals freed and malloc + calloc equals free in 32 bits, as the tests expect |
| Leaks.Tracker.constructor | include/anv_leaks.h:121-126 | the tracker starts empty |
| Leaks.Tracker.Init | include/anv_leaks.h:128-138 | init empties the records and zeroes every counter |
| Leaks.Tracker.GetStats | include/anv_leaks.h:175-185 | the result is the six counters and nothing changes |
| Leaks.Tracker.GetLeaks | include/anv_leaks.h:187-221 | the walk from the head yields the leak report of the ledger (NULL and 0 when malloc + calloc - free is 0) and changes nothing |
| Leaks.Tracker.Search | include/anv_leaks.h:282-300 | the loop finds the first record of the block, from the head |
| Leaks.Tracker.Malloc | include/anv_leaks.h:236-275 | NULL from malloc changes nothing; otherwise a record at the head, the size added to the allocated total and one more malloc |
| Leaks.Tracker.Calloc | include/anv_leaks.h:306-334 | a record of num * size bytes at the head, the product added to the allocated total and one more calloc |
| Leaks.Tracker.Free | include/anv_leaks.h:277-304 | a tracked block loses its record and is counted freed with its recorded size; an unknown block changes nothing |
| Leaks.Tracker.Realloc | include/anv_leaks.h:336-370 | NULL goes the malloc way; otherwise the block's record takes the new block and size, the difference is added to the allocated total and one more realloc is counted |
| LeaksList.DistinctAt | src/anv_leaks.h:117-124 | two different positions of a list of distinct nodes hold different nodes |
| LeaksList.RingFrame | src/anv_leaks.h:117-124 | a list none of whose nodes a change of links touches is still the same list |
| LeaksList.RingAt | src/anv_leaks.h:117-124 | every entry of a circular list points forward at the next entry (or the head) and back at the previous one (or the head) |
| LeaksList.AddL | src/anv_leaks.h:133-140 | anv_leaks__map_add changes only the links of the head, the new node and the old first entry |
| LeaksList.UnlinkL | src/anv_leaks.h:151-166 | unlinking changes only the links of the two neighbours |
| LeaksList.InitRing | src/anv_leaks.h:126-131 | anv_leaks__map_init makes the head an empty circular list |
| LeaksList.AddRing | src/anv_leaks.h:133-140 | adding a node that is not in the list keeps it circular and doubly linked, with the node first |
| LeaksList.ConsDistinct | src/anv_leaks.h:133-140 | a node not in a list of distinct nodes can go in front and the nodes stay distinct |
| LeaksList.AddEntry | src/anv_leaks.h:133-140 | after an add every entry of the new list points at its new neighbours |
| LeaksList.AddOther | src/anv_leaks.h:133-140 | adding to one list leaves a disjoint list intact |
| LeaksList.RemoveAt | src/anv_leaks.h:151-158 | removing a position from a list of distinct nodes keeps them distinct, drops exactly that node and shifts the later ones down |
| LeaksList.UnlinkRing | src/anv_leaks.h:151-158 | unlinking an entry leaves a circular list of the remaining entries in order |
| LeaksList.UnlinkHead | src/anv_leaks.h:151-158 | after unlinking, the head points at the remaining first and last entries |
| LeaksList.UnlinkEntry | src/anv_leaks.h:151-158 | after unlinking, every remaining entry points at its new neighbours |
| LeaksList.DeleteRing | src/anv_leaks.h:151-158 | anv_leaks__map_delete drops the entry from its list, keeps the rest circular, and nulls the entry's links |
| LeaksList.NullFrame | src/anv_leaks.h:156-157 | nulling one node's links changes no other node |
| LeaksList.MoveRing | src/anv_leaks.h:160-166 | anv_leaks__map_move takes the entry out of its list and makes it the first of a disjoint list, both staying circular |
| LeaksList.SpliceRing | src/anv_leaks.h:176-188 | anv_leaks__map_splice of a non-empty list puts its entries in front of a disjoint list's, as one circular list |
| LeaksList.SpliceEntry | src/anv_leaks.h:176-188 | after a splice every entry of the joined list points at its neighbours |
| LeaksList.SpliceDistinct | src/anv_leaks.h:176-188 | two disjoint lists of distinct nodes join into a list of distinct nodes |
| LeaksList.RecordsOf | src/anv_leaks.h:195-197 | walking the list yields one record per entry |
| LeaksList.RecordsAt | src/anv_leaks.h:195-197 | entry i of the walk is the record of the i-th node |
| LeaksList.RecordsAll | src/anv_leaks.h:195-197 | every entry of the walk is the record of its node |
| LeaksList.RecordsRemove | src/anv_leaks.h:151-158 | the walk after removing a node is the old walk without that record |
| LeaksList.RecordsUpdate | src/anv_leaks.h:427-435 | rewriting a node's record rewrites exactly that entry of the walk |
| LeaksList.RecordsCons | src/anv_leaks.h:133-140 | the walk after adding a node starts with its record, followed by the old walk |
| LeaksList.FreeCountedTracked | src/anv_leaks.h:362-380 | on a tracked block this version's free (counted before the search) is the free of include/anv_leaks.h, so the ledger stays balanced |
| LeaksList.FreeCountedUnknown | src/anv_leaks.h:367-383 | on NULL or an unknown block the free is still counted, and the count of live records no longer balances |
| LeaksList.AddStep | src/anv_leaks.h:133-140 | adding a new record node keeps the tracker's list invariant and puts the record first |
| LeaksList.DeleteStep | src/anv_leaks.h:376-377 | deleting the node at a position keeps the invariant and drops exactly its record |
| LeaksList.UpdateStep | src/anv_leaks.h:427-435 | rewriting the record of a node keeps the invariant and changes exactly that record |
| LeaksList.ListTracker.constructor | src/anv_leaks.h:209-214 | the tracker starts with an empty list and zero counters |
| LeaksList.ListTracker.Init | src/anv_leaks.h:216-225 | init makes the head an empty list again and zeroes the counters |
| LeaksList.ListTracker.GetStats | src/anv_leaks.h:262-272 | the result is the six counters |
| LeaksList.ListTracker.AddRecord | src/anv_leaks.h:133-140 | a new node holding the record goes first in the list; the counters do not change |
| LeaksList.ListTracker.Malloc | src/anv_leaks.h:323-360 | the same ledger change as the newer tracker's malloc, on the linked list |
| LeaksList.ListTracker.Calloc | src/anv_leaks.h:386-412 | the same ledger change as the newer tracker's calloc, on the linked list |
| LeaksList.ListTracker.Search | src/anv_leaks.h:195-197 | the foreach stops at the node of the first record of the block, or back at the head when no record holds it |
| LeaksList.ListTracker.GetLeaks | src/anv_leaks.h:274-307 | the walk from head->next round to the head yields the leak report of the ledger |
| LeaksList.ListTracker.Free | src/anv_leaks.h:362-384 | the ledger becomes this version's free: counted first, then the block's record removed and its size freed if found |
| LeaksList.ListTracker.DeleteRecord | src/anv_leaks.h:151-158 | the node at the position is unlinked and its record dropped; the counters do not change |
| LeaksList.ListTracker.Realloc | src/anv_leaks.h:414-446 | the same ledger change as the newer tracker's realloc, on the linked list |
| LeaksList.ListTracker.UpdateRecord | src/anv_leaks.h:427-435 | the record at the position takes the new block and size; nothing else changes |
| Bytes.Zeros | include/anv_arr.h:418 | memset leaves exactly n zero bytes |

## Left out

- Machine contexts: getcontext / makecontext / swapcontext, the uc_link and uc_stack setup, and the split of the scheduler pointer into two 32-bit halves in co__mainfunc. A coroutine body is two outside events: it yields with a given stack depth, or its entry function returns.
- The address of a stack local as the stack pointer in co__save_stack: the depth of the used stack is a parameter of `Coroutine.Scheduler.Yield`.
- The unchecked result of co__new in coroutine_new and the out-of-memory FIXME in co__save_stack: allocation of a record and of a private stack is taken to succeed; only the growth of the slot table can fail.
- Raw pointer identity and relocation: a realloc that moves a block, a pointer kept across it, and stale pointers. The model keeps logical state; where pointers matter (the metalloc layouts) a pointer is a buffer and an offset, and a reallocation gives a new buffer.
- In include/anv_arr.h, the metadata pointer reused after anv_meta_realloc and the displaced item of insert read from the block before the reallocation: the model reads the item before it reallocates.
- In include/anv_arr.h, a non-NULL pointer that is not an anv_arr block (anv_meta_get answering INVALID_PARAMS): the operations take NULL or a valid array.
- DynArray.New: the header size 24 + item_sz is passed as an unsigned char. A wrap to 0 gives NULL and is modelled. A wrap to a non-zero size (any item_sz above 231 for which 24 + item_sz is not a multiple of 256) is excluded by the precondition: the header would be shorter than 24 + item_sz, and the model's spare slot would overlap the data.
- DynArray.New: the data size item_sz * capacity is wrapped to size_t only for the NULL test. A product that wraps to a small non-zero size gives, in C, a block shorter than the capacity claims; the model's array keeps the full capacity. The sum data_sz + meta_sz + 5 passed to malloc is taken as exact.
- DynArray.Swap: the item-level model copies through the spare slot inside the header, at offset 24 where the tmp_item field is. ANV_ARR__TMP_ITEM really points at block offset 768 (see Findings). There the copy clobbers an item of a long enough array; in a block shorter than 768 + item_sz bytes the source writes past the block, which `DynArray.SwapBlock` cannot express and its precondition excludes.
- MetaAllocLegacy.Malloc: allocates the intended size meta_sz + 1 + CHKB_SZ + data_sz (see Findings), not the one byte shorter size the code asks malloc for.
- MetaAllocLegacy.Realloc: allocates the intended size padding + new_sz (see Findings), not the bare new_sz the code asks realloc for.
- MetaAllocLegacy.Calloc: inherits the intended size of `MetaAllocLegacy.Malloc`, so it too allocates one byte more than the code asks for.
- StbAlloc.StbHeap.MallocBase: sizes are unbounded. The (int)size cast on the chunk paths (repackages/stb_alloc.h:628 and 641) is not modelled. Nor is the size_t wrap of size + sizeof(header) on the general and leaf paths (603 and 615).
- StbAlloc.StbHeap.ChunkBlock: takes the full size where the code passes (int)size to stb__alloc_chunk, so a size above INT_MAX is not truncated.
- StbAlloc.StbHeap.Reassign: requires that the new context is not inside the moved block's subtree. The code accepts such a move and links the block under its own descendant, making a cycle that the model's forest cannot represent.
- StbAlloc.StbHeap.ContextOk: accepts only NULL, a general block (other than the global one) or a chunked block of a general block. A leaf block or a raw chunk block passed as a context is not modelled, nor is what stb__get_context does with it.
- AnvHalloc.HallocHeap.Alloc: the size alloc_sz + data_sz that anvh_alloc passes to calloc is taken as exact; its size_t wrap is not modelled.
- DynArray.DynArr.PushInternal: requires that the reallocator grows a full array (`CanGrow`); a reallocator that does not would make the C code write past the block.
- MetaAlloc.Realloc: requires that a valid pointer sits at its own block's data offset; the C code makes the same assumption when it computes the block start.
- MetaAllocLegacy.Realloc: requires a pointer returned by the legacy malloc, whose padding is its offset.
- The child-slot address macro of include/anv_halloc.h, which scales the index twice: children are a sequence of ids, with the slot index the macro is meant to compute.
- AnvHalloc.HeaderSize: a definition of the header size with no property of its own.
- anvh_free of NULL: it asserts and returns; the model returns with nothing released.
- The HH_MAGIC debug checks of repackages/halloc.h, which are compiled in only without NDEBUG.
- hlist_relink and hlist_relink_head of repackages/halloc.h: they repair links after a block moves in memory and change no list, so they have no counterpart in a model without addresses.
- The undefined `1 << -1` in malloc_base when stb_lowbit8 finds no bit: the value it yields is the parameter `negShift`, and every property about it holds whatever that value is.
- Platform bit tricks of repackages/stb_alloc.h beyond the two-bit tag, and the debug counters beyond the balance of allocations and frees.
- stb_realloc, stb_realloc_c, stb_malloc_validate and stb_malloc_is_valid of repackages/stb_alloc.h: they are outside the modelled core. The stb_malloc entry points appear only through the alignment argument they pass to malloc_base.
- A raw chunk block passed to stb_free, which has no header to identify: `StbAlloc.StbHeap.Free` takes NULL, a chunked block or a block of the tree.
- anv_leaks__map_add_tail and anv_leaks__map_move_tail of src/anv_leaks.h: neither is used, and both are outside the modelled core.
- The inverted `!found` assertion of anv_leaks_realloc_ in src/anv_leaks.h, which fails exactly when the block is tracked: the model follows the path taken without assertions.
- anv_leaks_free_info, which writes through the array it has just freed, and all fprintf reporting, including anv_leaks_quickpeek.
- Leaks.LeaksReportsLive: requires fewer than 2^32 live records, because the count is a 32-bit difference that cannot tell more apart.
- The FILE * output of the leak tracker: reports are not modelled.
- include/anv_hhoh.h and src/anv_hhoh.h (Windows handle wrappers), anv_testsuite*.h (test runners), anv_trace.h and anv_bench.h (logging and timing), include/anv_narr.h (a numeric veneer over anv_arr with floating point), and the stb_ds demo, whose stb_ds.h is not part of this model.
- Threads do not arise: every header is single-threaded.

## Findings

| source | as written | input that shows it | evidently intended | confidence | as-written member | corrected member |
|---|---|---|---|---|---|---|
| src/anv_metalloc.h:191 | anv_meta_malloc allocates meta_sz + CHKB_SZ + data_sz bytes, leaving out the size byte | any metadata size with data size 0: the last byte of the check word lies past the block | meta_sz + 1 + CHKB_SZ + data_sz bytes | not executed | MetaAllocLegacy.AllocSizeShort | MetaAllocLegacy.AllocSizeFits |
| src/anv_metalloc.h:214 | anv_meta_realloc passes only the new data size to realloc, leaving out the header in front of the data (the padding anv_meta_getpadding counts) | metadata size 2 (padding 7) and new size 5: the returned pointer lies past the end of the block | padding + new size bytes | not executed | MetaAllocLegacy.ReallocSizeShort | MetaAllocLegacy.ReallocSize |
| repackages/halloc.h:383 | the third disjunct of _ok_to_multiply is SIZE_T_MAX / a < b, the wrong way round | a = 2^33, b = 2^32: accepted though the product overflows; a = 2^32, b = 1: refused though it fits | b <= SIZE_T_MAX / a | not executed | Halloc.OkToMultiplyAsWrittenWrong | Halloc.OkToMultiplyExact |
| include/anv_arr.h:339 | ANV_ARR__TMP_ITEM adds offsetof(tmp_item) to a pointer to the header struct, so the offset 24 is scaled by the struct's size 32 and the slot lands at block offset 768 | one-byte items, 739 of them, swap of items 0 and 1: item 738 is overwritten with the old item 0; with fewer items the copy writes past the block | a byte offset of 24, the tmp_item field inside the header | not executed | DynArray.SwapAsWrittenClobbers | DynArray.SwapBlockIntended |

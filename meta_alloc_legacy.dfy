/**
 * The older metadata allocator of src/anv_metalloc.h.  The block layout is
 * the one of include/anv_metalloc.h
 *
 *     [ metadata ][ size: 1 byte ][ CHKB: 4 bytes ][ data ]
 *
 * with a different check word, a metadata size that may be 0, no NULL
 * handling and no error results: every routine but `anv_meta_isvalid`
 * and `anv_meta_free` asserts that its pointer is valid, and that
 * assertion is the precondition here.
 *
 * Two routines pass malloc and realloc a size that is too small; each size
 * is modelled as written (the `AsWritten` members) beside the evidently
 * intended one, and the operations use the intended one.
 */
module MetaAllocLegacy {
  import opened Bytes

  const METASZ_SZ: nat := 1
  const CHKB_SZ: nat := 4
  const TAG_SZ: nat := METASZ_SZ + CHKB_SZ
  const CHKB: nat := 0x12345678

  /** The four bytes behind the pointer exist (the pointer is not NULL and
      looks back into its own buffer). */
  predicate Readable(p: Ptr)
    reads p.buf
  {
    CHKB_SZ <= p.off <= p.buf.Length
  }

  /** anv_meta_isvalid: the uint32 before the pointer is CHKB. */
  function IsValid(p: Ptr): (v: bool)
    reads p.buf
    requires Readable(p)
    ensures v <==> p.buf[p.off - CHKB_SZ..p.off] == LE32(CHKB)
  {
    LE32RoundTrip(CHKB);
    FromLE32RoundTrip(p.buf[p.off - CHKB_SZ..p.off]);
    FromLE32(p.buf[p.off - CHKB_SZ..p.off]) == CHKB
  }

  /** A valid pointer whose size byte and metadata lie inside the buffer. */
  predicate Block(p: Ptr)
    reads p.buf
  {
    Readable(p) && IsValid(p) && p.off >= TAG_SZ && p.off >= p.buf[p.off - TAG_SZ] as nat + TAG_SZ
  }

  /** anv_meta_getsz: the size byte. */
  function GetSz(p: Ptr): (n: nat)
    reads p.buf
    requires Block(p)
    ensures n < 256 && n + TAG_SZ <= p.off
  {
    p.buf[p.off - TAG_SZ] as nat
  }

  /** anv_meta_getpadding: how far the pointer is from the block start. */
  function GetPadding(p: Ptr): (n: nat)
    reads p.buf
    requires Block(p)
    ensures n == GetSz(p) + METASZ_SZ + CHKB_SZ && n <= p.off
  {
    GetSz(p) + TAG_SZ
  }

  /** anv_meta_get: the pointer to the metadata, at the block start. */
  function Get(p: Ptr): (m: Ptr)
    reads p.buf
    requires Block(p)
    ensures m.buf == p.buf && m.off + GetSz(p) + TAG_SZ == p.off
  {
    Ptr(p.buf, p.off - GetPadding(p))
  }

  /** The header malloc writes: metadata, size byte, check word. */
  function Header(meta: seq<uint8>): (h: seq<uint8>)
    requires |meta| < 256
    ensures |h| == |meta| + TAG_SZ
  {
    meta + [|meta| as uint8] + LE32(CHKB)
  }

  /** A buffer that starts with a header is a block whose size and
      metadata read back. */
  lemma HeaderReadsBack(p: Ptr, meta: seq<uint8>)
    requires |meta| < 256 && p.off == |meta| + TAG_SZ <= p.buf.Length
    requires p.buf[..p.off] == Header(meta)
    ensures Block(p) && GetSz(p) == |meta| && GetPadding(p) == p.off
    ensures Get(p) == Ptr(p.buf, 0) && p.buf[..GetSz(p)] == meta
  {
    assert p.buf[p.off - CHKB_SZ..p.off] == p.buf[..p.off][p.off - CHKB_SZ..p.off] == LE32(CHKB);
    assert p.buf[p.off - TAG_SZ] == p.buf[..p.off][p.off - TAG_SZ] == |meta| as uint8;
    assert p.buf[..|meta|] == p.buf[..p.off][..|meta|] == meta;
  }

  /** anv_meta_set: memcpy of getsz bytes over the metadata; a NULL
      `metadata` is not accepted by memcpy. */
  method Set(p: Ptr, metadata: seq<uint8>)
    requires Block(p) && |metadata| == GetSz(p)
    modifies p.buf
    ensures p.buf[..] == old(p.buf[..p.off - GetPadding(p)]) + metadata + old(p.buf[p.off - TAG_SZ..])
    ensures Block(p) && GetSz(p) == old(GetSz(p)) && p.buf[Get(p).off..Get(p).off + GetSz(p)] == metadata
  {
    var sz := GetSz(p);
    ghost var b := p.buf[..];
    CopyInto(p.buf, p.off - (sz + TAG_SZ), metadata);
    assert p.buf[p.off - TAG_SZ..] == b[p.off - TAG_SZ..];
    assert p.buf[p.off - CHKB_SZ..p.off] == b[p.off - CHKB_SZ..p.off];
    assert p.buf[p.off - TAG_SZ] == b[p.off - TAG_SZ];
  }

  // ---------------------------------------------------------------------
  // Allocation sizes: as written and as intended.

  /** The size anv_meta_malloc passes to malloc: mem_sz + CHKB_SZ + data_sz
      (the size byte is not counted). */
  function AllocSizeAsWritten(metaSz: nat, dataSz: nat): nat
  {
    dataSz + CHKB_SZ + metaSz
  }

  /** The size the layout needs: header plus data. */
  function AllocSize(metaSz: nat, dataSz: nat): (n: nat)
    ensures n == metaSz + METASZ_SZ + CHKB_SZ + dataSz
  {
    metaSz + TAG_SZ + dataSz
  }

  /** As written the block is one byte short of the layout it is given:
      the last data byte lies outside it, and for zero data bytes the last
      byte of the check word does. */
  lemma AllocSizeShort(meta: seq<uint8>, dataSz: nat)
    requires |meta| < 256
    ensures AllocSizeAsWritten(|meta|, dataSz) + 1 == |Header(meta)| + dataSz
    ensures dataSz == 0 ==> AllocSizeAsWritten(|meta|, dataSz) < |Header(meta)|
  {
  }

  /** The intended size holds the header right before `dataSz` data bytes. */
  lemma AllocSizeFits(meta: seq<uint8>, dataSz: nat)
    requires |meta| < 256
    ensures AllocSize(|meta|, dataSz) == |Header(meta)| + dataSz
  {
  }

  /** anv_meta_malloc with the intended size: `metadata` (or zeros) goes at
      the start, then the size byte and the check word; the data bytes are
      left as malloc returned them.  `metaSz` may be 0 here. */
  method Malloc(metadata: Option<seq<uint8>>, metaSz: nat, dataSz: nat, allocOk: bool) returns (p: Option<Ptr>)
    requires metaSz < 256
    requires metadata.Some? ==> |metadata.value| == metaSz
    ensures p.None? <==> !allocOk
    ensures p.Some? ==>
      && fresh(p.value.buf) && p.value.buf.Length == AllocSize(metaSz, dataSz)
      && p.value.off == metaSz + TAG_SZ && p.value.buf[..p.value.off] == Header(OrZeros(metaSz, metadata))
      && Block(p.value) && GetSz(p.value) == metaSz && GetPadding(p.value) == p.value.off
  {
    if !allocOk {
      return None;
    }
    var buf := new uint8[AllocSize(metaSz, dataSz)];
    CopyInto(buf, 0, OrZeros(metaSz, metadata));
    buf[metaSz] := metaSz as uint8;
    CopyInto(buf, metaSz + METASZ_SZ, LE32(CHKB));
    p := Some(Ptr(buf, metaSz + TAG_SZ));
    assert buf[..metaSz + TAG_SZ] == Header(OrZeros(metaSz, metadata));
    HeaderReadsBack(p.value, OrZeros(metaSz, metadata));
  }

  /** The size anv_meta_realloc passes to realloc: `new_sz` alone. */
  function ReallocSizeAsWritten(padding: nat, newSz: nat): nat
  {
    newSz
  }

  /** The intended size: the header is kept in front of `newSz` data bytes. */
  function ReallocSize(padding: nat, newSz: nat): (n: nat)
    ensures n - padding == newSz
  {
    newSz + padding
  }

  /** As written the new block is `padding` bytes short of the data, and a
      new size below the header size leaves the returned pointer past the
      end of the block: metadata size 2 (padding 7) and new size 5. */
  lemma ReallocSizeShort(padding: nat, newSz: nat)
    ensures ReallocSizeAsWritten(padding, newSz) + padding == ReallocSize(padding, newSz)
    ensures ReallocSizeAsWritten(7, 5) < 7
  {
  }

  /** A buffer that repeats a block's header reads as the same block. */
  lemma PrefixKeepsBlock(p: Ptr, q: Ptr)
    requires Block(p) && q.off == p.off <= q.buf.Length && q.buf[..p.off] == p.buf[..p.off]
    ensures Block(q) && GetSz(q) == GetSz(p)
  {
    var off := p.off;
    assert q.buf[off - CHKB_SZ..off] == q.buf[..off][off - CHKB_SZ..off] == p.buf[..off][off - CHKB_SZ..off] == p.buf[off - CHKB_SZ..off];
    assert q.buf[off - TAG_SZ] == q.buf[..off][off - TAG_SZ] == p.buf[..off][off - TAG_SZ] == p.buf[off - TAG_SZ];
  }

  /** anv_meta_realloc with the intended size.  The pointer must come from
      Malloc (it sits `padding` bytes into its buffer).  The common prefix
      of the old and the new block is kept; on failure NULL is returned and
      the old block stays allocated. */
  method Realloc(p: Ptr, newSz: nat, allocOk: bool) returns (q: Option<Ptr>)
    requires Block(p) && GetPadding(p) == p.off
    ensures q.None? <==> !allocOk
    ensures q.Some? ==>
      && fresh(q.value.buf) && q.value.off == p.off
      && q.value.buf.Length == ReallocSize(GetPadding(p), newSz)
      && var keep := if p.buf.Length < q.value.buf.Length then p.buf.Length else q.value.buf.Length;
         q.value.buf[..keep] == p.buf[..keep]
    ensures q.Some? ==> Block(q.value) && GetSz(q.value) == GetSz(p) && q.value.buf[..p.off] == p.buf[..p.off]
  {
    var padd := GetPadding(p);
    if !allocOk {
      return None;
    }
    var nb := new uint8[ReallocSize(padd, newSz)];
    var keep := if p.buf.Length < nb.Length then p.buf.Length else nb.Length;
    var prefix := CopyOut(p.buf, 0, keep);
    ghost var before := p.buf[..];
    label Copy:
    CopyInto(nb, 0, prefix);
    CopiedHead(nb[..], old@Copy(nb[..0]), prefix, old@Copy(nb[keep..]));
    assert p.buf[..] == before;
    PrefixSlice(before, nb[..], keep, 0, padd);
    q := Some(Ptr(nb, padd));
    PrefixKeepsBlock(p, q.value);
  }

  // ---------------------------------------------------------------------
  // anv_meta_calloc.

  /** `nitems * size` in size_t: the product wraps modulo 2^64. */
  function CallocSize(nitems: nat, size: nat): (n: nat)
    ensures n < U64
    ensures nitems * size < U64 ==> n == nitems * size
  {
    (nitems * size) % U64
  }

  /** anv_meta_calloc: Malloc of `nitems * size` data bytes (wrapped as
      size_t).  Its memset(mem - padd, mem_sz + padd, 0) has count 0 and
      writes nothing, so the whole buffer is exactly what Malloc left. */
  method Calloc(metadata: Option<seq<uint8>>, metaSz: nat, nitems: nat, size: nat, allocOk: bool) returns (p: Option<Ptr>)
    requires metaSz < 256
    requires metadata.Some? ==> |metadata.value| == metaSz
    ensures p.None? <==> !allocOk
    ensures p.Some? ==>
      && fresh(p.value.buf) && p.value.buf.Length == AllocSize(metaSz, CallocSize(nitems, size))
      && p.value.off == metaSz + TAG_SZ && p.value.buf[..p.value.off] == Header(OrZeros(metaSz, metadata))
      && Block(p.value) && GetSz(p.value) == metaSz
  {
    var memSz := CallocSize(nitems, size);
    p := Malloc(metadata, metaSz, memSz, allocOk);
    if p.None? {
      return;
    }
    var padd := GetPadding(p.value);
    ghost var b := p.value.buf[..];
    // memset(p - padd, value, 0): no byte is written.
    CopyInto(p.value.buf, p.value.off - padd, Zeros(0));
    assert p.value.buf[..] == b;
  }

  /** anv_meta_free: a valid pointer releases its whole block; anything else
      is handed to free() unchanged. */
  method Free(p: Ptr) returns (call: FreeCall)
    requires Readable(p)
    requires IsValid(p) ==> Block(p)
    ensures !IsValid(p) ==> call == FreeAt(p.buf, p.off)
    ensures IsValid(p) ==> call == FreeAt(p.buf, Get(p).off)
  {
    if !IsValid(p) {
      return FreeAt(p.buf, p.off);
    }
    call := FreeAt(p.buf, p.off - (GetSz(p) + METASZ_SZ + CHKB_SZ));
  }
}

/**
 * The metadata-prefixed allocation of include/anv_metalloc.h.
 *
 * A block is laid out as
 *
 *     [ metadata: meta_sz bytes ][ meta_sz: 1 byte ][ CHKB: 4 bytes ][ data ]
 *
 * and the user holds a pointer to the data.  Everything about a block is
 * found by looking back from that pointer: the check word right before it
 * tells a metalloc pointer from a foreign one, the size byte before that
 * gives the metadata size, and the metadata sits before the size byte.
 *
 * The byte-level reads are first stated on a sequence of bytes with the
 * user pointer's offset; the operations on real buffers (`Ptr`) follow.
 * Words are stored little-endian.
 */
module MetaAlloc {
  import opened Bytes

  const METASZ_SZ: nat := 1
  const CHKB_SZ: nat := 4
  /** Bytes between the end of the metadata and the user pointer. */
  const TAG_SZ: nat := METASZ_SZ + CHKB_SZ

  /** `(chkb_t)0x696941469`: the nine-digit literal is cut down to the 32 bits
      of chkb_t, leaving 0x96941469. */
  const CHKB: nat := 0x696941469 % U32

  lemma ChkbValue()
    ensures CHKB == 0x96941469
  {
  }

  datatype MetaResult = Ok | InvalidParams

  // ---------------------------------------------------------------------
  // Reads on a byte sequence `b` with the user pointer at offset `off`.

  /** The four check-word bytes before the pointer can be read. */
  predicate Readable(b: seq<uint8>, off: nat)
  {
    CHKB_SZ <= off <= |b|
  }

  /** anv_meta_isvalid for a non-NULL pointer: the uint32 before it is CHKB. */
  predicate ValidAt(b: seq<uint8>, off: nat)
    requires Readable(b, off)
  {
    FromLE32(b[off - CHKB_SZ..off]) == CHKB
  }

  /** A pointer that passes the check word really has its size byte and its
      metadata in front of it (what the check word stands for). */
  predicate WellFormedAt(b: seq<uint8>, off: nat)
  {
    Readable(b, off) && (ValidAt(b, off) ==> off >= TAG_SZ && off >= b[off - TAG_SZ] as nat + TAG_SZ)
  }

  /** anv_meta_getsz: the size byte, or 0 for an invalid pointer. */
  function SizeAt(b: seq<uint8>, off: nat): nat
    requires WellFormedAt(b, off)
  {
    if ValidAt(b, off) then b[off - TAG_SZ] as nat else 0
  }

  /** anv_meta_get_offset: distance from the start of the block to the pointer. */
  function OffsetAt(b: seq<uint8>, off: nat): nat
    requires WellFormedAt(b, off)
  {
    if ValidAt(b, off) then SizeAt(b, off) + TAG_SZ else 0
  }

  /** The metadata bytes anv_meta_get points at, or NULL. */
  function MetaAt(b: seq<uint8>, off: nat): Option<seq<uint8>>
    requires WellFormedAt(b, off)
  {
    if ValidAt(b, off) then Some(b[off - OffsetAt(b, off)..off - TAG_SZ]) else None
  }

  /** The header anv_meta_malloc writes in front of the data. */
  function Header(meta: seq<uint8>): (h: seq<uint8>)
    requires 0 < |meta| < 256
    ensures |h| == |meta| + TAG_SZ
  {
    meta + [|meta| as uint8] + LE32(CHKB)
  }

  /** anv_meta_set on a valid pointer: the metadata bytes become `metadata`
      (zeros for NULL); nothing else changes. */
  function SetAt(b: seq<uint8>, off: nat, metadata: Option<seq<uint8>>): seq<uint8>
    requires WellFormedAt(b, off) && ValidAt(b, off)
    requires metadata.Some? ==> |metadata.value| == SizeAt(b, off)
  {
    b[..off - OffsetAt(b, off)] + OrZeros(SizeAt(b, off), metadata) + b[off - TAG_SZ..]
  }

  /** isvalid compares a loaded uint32 with CHKB; that is the same as
      comparing the four bytes with the bytes of CHKB. */
  lemma ValidIffCheckBytes(b: seq<uint8>, off: nat)
    requires Readable(b, off)
    ensures ValidAt(b, off) <==> b[off - CHKB_SZ..off] == LE32(CHKB)
  {
    LE32RoundTrip(CHKB);
    FromLE32RoundTrip(b[off - CHKB_SZ..off]);
  }

  /** A block written by malloc reads back: it is valid, its size byte and
      offset are as written, and get yields the metadata. */
  lemma HeaderReadsBack(meta: seq<uint8>, data: seq<uint8>)
    requires 0 < |meta| < 256
    ensures var b, off := Header(meta) + data, |meta| + TAG_SZ;
      && WellFormedAt(b, off) && ValidAt(b, off)
      && SizeAt(b, off) == |meta| && OffsetAt(b, off) == |meta| + METASZ_SZ + CHKB_SZ
      && MetaAt(b, off) == Some(meta) && b[off..] == data
  {
    var b, off := Header(meta) + data, |meta| + TAG_SZ;
    assert b[off - CHKB_SZ..off] == LE32(CHKB);
    LE32RoundTrip(CHKB);
    assert b[off - TAG_SZ] == |meta| as uint8;
    assert b[..|meta|] == meta;
  }

  /** set then get: the new metadata is read back, the pointer stays valid
      with the same size, and the size byte, check word and data are
      untouched. */
  lemma SetReadsBack(b: seq<uint8>, off: nat, metadata: Option<seq<uint8>>)
    requires WellFormedAt(b, off) && ValidAt(b, off)
    requires metadata.Some? ==> |metadata.value| == SizeAt(b, off)
    ensures var b2 := SetAt(b, off, metadata);
      && |b2| == |b| && b2[off - TAG_SZ..] == b[off - TAG_SZ..]
      && b2[..off - OffsetAt(b, off)] == b[..off - OffsetAt(b, off)]
      && WellFormedAt(b2, off) && ValidAt(b2, off) && SizeAt(b2, off) == SizeAt(b, off)
      && MetaAt(b2, off) == Some(OrZeros(SizeAt(b, off), metadata))
  {
    var b2 := SetAt(b, off, metadata);
    var start := off - OffsetAt(b, off);
    var m := OrZeros(SizeAt(b, off), metadata);
    assert b2[start + |m|..] == b[off - TAG_SZ..];
    assert b2[off - CHKB_SZ..off] == b[off - CHKB_SZ..off];
    assert b2[off - TAG_SZ] == b[off - TAG_SZ];
    assert b2[start..off - TAG_SZ] == m;
  }

  /** realloc keeps a prefix of the block: when the prefix covers the
      header, validity, size, offset and metadata carry over. */
  lemma PrefixKeepsHeader(b: seq<uint8>, b2: seq<uint8>, off: nat)
    requires WellFormedAt(b, off) && ValidAt(b, off)
    requires off <= |b2| && b2[..off] == b[..off]
    ensures WellFormedAt(b2, off) && ValidAt(b2, off)
    ensures SizeAt(b2, off) == SizeAt(b, off) && OffsetAt(b2, off) == OffsetAt(b, off)
    ensures MetaAt(b2, off) == MetaAt(b, off)
  {
    PrefixSlice(b, b2, off, off - CHKB_SZ, off);
    PrefixSlice(b, b2, off, off - TAG_SZ, off - TAG_SZ + 1);
    assert b2[off - TAG_SZ] == b2[off - TAG_SZ..off - TAG_SZ + 1][0];
    assert b[off - TAG_SZ] == b[off - TAG_SZ..off - TAG_SZ + 1][0];
    var start := off - (b[off - TAG_SZ] as nat + TAG_SZ);
    PrefixSlice(b, b2, off, start, off - TAG_SZ);
  }

  // ---------------------------------------------------------------------
  // The interface, over real buffers.

  function BlockBytes(p: Option<Ptr>): seq<uint8>
    reads if p.Some? then {p.value.buf} else {}
  {
    if p.Some? then p.value.buf[..] else []
  }

  /** The pointer can be looked back from (NULL always can). */
  predicate PtrOk(p: Option<Ptr>)
    reads if p.Some? then {p.value.buf} else {}
  {
    p.None? || WellFormedAt(p.value.buf[..], p.value.off)
  }

  /** anv_meta_isvalid: 0 for NULL, otherwise the check-word comparison. */
  function IsValid(p: Option<Ptr>): (v: bool)
    reads if p.Some? then {p.value.buf} else {}
    requires PtrOk(p)
    ensures p.None? ==> !v
    ensures p.Some? ==> (v <==> p.value.buf[p.value.off - CHKB_SZ..p.value.off] == LE32(CHKB))
  {
    if p.None? then false
    else
      ValidIffCheckBytes(p.value.buf[..], p.value.off);
      ValidAt(p.value.buf[..], p.value.off)
  }

  /** anv_meta_getsz: 0 for an invalid pointer. */
  function GetSz(p: Option<Ptr>): (n: nat)
    reads if p.Some? then {p.value.buf} else {}
    requires PtrOk(p)
    ensures n < 256
    ensures !IsValid(p) ==> n == 0
    ensures IsValid(p) ==> n == p.value.buf[p.value.off - TAG_SZ] as nat
  {
    if p.None? then 0 else SizeAt(p.value.buf[..], p.value.off)
  }

  /** anv_meta_get_offset: 0 for an invalid pointer. */
  function GetOffset(p: Option<Ptr>): (n: nat)
    reads if p.Some? then {p.value.buf} else {}
    requires PtrOk(p)
    ensures !IsValid(p) ==> n == 0
    ensures IsValid(p) ==> n == GetSz(p) + METASZ_SZ + CHKB_SZ && n <= p.value.off
  {
    if p.None? then 0 else OffsetAt(p.value.buf[..], p.value.off)
  }

  /** anv_meta_get: the pointer to the metadata, or NULL for an invalid one. */
  function Get(p: Option<Ptr>): (m: Option<Ptr>)
    reads if p.Some? then {p.value.buf} else {}
    requires PtrOk(p)
    ensures m.None? <==> !IsValid(p)
    ensures m.Some? ==> m.value.buf == p.value.buf && p.value.off - m.value.off == GetOffset(p)
    ensures m.Some? ==> MetaAt(BlockBytes(p), p.value.off) == Some(p.value.buf[m.value.off..m.value.off + GetSz(p)])
  {
    if !IsValid(p) then None else Some(Ptr(p.value.buf, p.value.off - GetOffset(p)))
  }

  /** A buffer that starts with the header malloc writes reads back through
      the interface: valid, with its metadata size, offset and metadata. */
  lemma MallocReadsBack(p: Option<Ptr>, meta: seq<uint8>)
    requires 0 < |meta| < 256
    requires p.Some? && p.value.off == |meta| + TAG_SZ && p.value.off <= p.value.buf.Length
    requires p.value.buf[..p.value.off] == Header(meta)
    ensures PtrOk(p) && IsValid(p) && GetSz(p) == |meta| && GetOffset(p) == p.value.off
    ensures Get(p) == Some(Ptr(p.value.buf, 0)) && MetaAt(BlockBytes(p), p.value.off) == Some(meta)
  {
    var b := p.value.buf[..];
    assert b == Header(meta) + b[p.value.off..];
    HeaderReadsBack(meta, b[p.value.off..]);
  }

  /** anv_meta_malloc.  `allocOk` is malloc's answer; the data bytes are
      left as malloc returned them. */
  method Malloc(metadata: Option<seq<uint8>>, metaSz: nat, dataSz: nat, allocOk: bool) returns (p: Option<Ptr>)
    requires metaSz < 256
    requires metadata.Some? ==> |metadata.value| == metaSz
    ensures p.None? <==> dataSz == 0 || metaSz == 0 || !allocOk
    ensures p.Some? ==>
      && fresh(p.value.buf) && p.value.off == metaSz + METASZ_SZ + CHKB_SZ
      && p.value.buf.Length == dataSz + metaSz + METASZ_SZ + CHKB_SZ
      && p.value.buf[..p.value.off] == Header(OrZeros(metaSz, metadata))
      && PtrOk(p) && IsValid(p) && GetSz(p) == metaSz && GetOffset(p) == p.value.off
      && MetaAt(BlockBytes(p), p.value.off) == Some(OrZeros(metaSz, metadata))
  {
    if dataSz == 0 {
      return None;
    }
    if metaSz == 0 {
      return None;
    }
    if !allocOk {
      return None;
    }
    var buf := new uint8[dataSz + metaSz + METASZ_SZ + CHKB_SZ];
    CopyInto(buf, 0, OrZeros(metaSz, metadata));
    buf[metaSz] := metaSz as uint8;
    CopyInto(buf, metaSz + METASZ_SZ, LE32(CHKB));
    p := Some(Ptr(buf, metaSz + METASZ_SZ + CHKB_SZ));
    assert buf[..metaSz + METASZ_SZ + CHKB_SZ] == Header(OrZeros(metaSz, metadata));
    MallocReadsBack(p, OrZeros(metaSz, metadata));
  }

  /** anv_meta_set. */
  method Set(p: Option<Ptr>, metadata: Option<seq<uint8>>) returns (r: MetaResult)
    requires PtrOk(p)
    requires IsValid(p) && metadata.Some? ==> |metadata.value| == GetSz(p)
    modifies if p.Some? then {p.value.buf} else {}
    ensures r == (if old(IsValid(p)) then Ok else InvalidParams)
    ensures !old(IsValid(p)) ==> BlockBytes(p) == old(BlockBytes(p))
    ensures old(IsValid(p)) ==> BlockBytes(p) == SetAt(old(BlockBytes(p)), p.value.off, metadata)
  {
    if !IsValid(p) {
      return InvalidParams;
    }
    var buf, off := p.value.buf, p.value.off;
    var sz := GetSz(p);
    ghost var b := buf[..];
    CopyInto(buf, off - sz - TAG_SZ, OrZeros(sz, metadata));
    assert buf[..] == SetAt(b, off, metadata);
    r := Ok;
  }

  /** anv_meta_free: the whole block is released; an invalid pointer is left
      alone. */
  method Free(p: Option<Ptr>) returns (call: FreeCall)
    requires PtrOk(p)
    ensures !IsValid(p) ==> call == NoCall
    ensures IsValid(p) ==> call == FreeAt(p.value.buf, p.value.off - GetOffset(p))
  {
    if !IsValid(p) {
      return NoCall;
    }
    call := FreeAt(p.value.buf, p.value.off - (GetSz(p) + METASZ_SZ + CHKB_SZ));
  }

  /**
   * anv_meta_realloc.  The block is resized to hold `newSz` data bytes; the
   * common prefix of the old and new block is kept (realloc's copy).  When
   * realloc fails the old block is released and NULL returned
   * (`releasedOld`).  An invalid pointer gives NULL and nothing is released.
   */
  method Realloc(p: Option<Ptr>, newSz: nat, allocOk: bool) returns (q: Option<Ptr>, releasedOld: bool)
    requires PtrOk(p)
    requires IsValid(p) ==> GetOffset(p) == p.value.off
    ensures q.None? <==> !IsValid(p) || !allocOk
    ensures releasedOld <==> IsValid(p) && !allocOk
    ensures q.Some? ==>
      && fresh(q.value.buf) && q.value.off == p.value.off
      && q.value.buf.Length == newSz + GetOffset(p)
      && var keep := if p.value.buf.Length < q.value.buf.Length then p.value.buf.Length else q.value.buf.Length;
         q.value.buf[..keep] == p.value.buf[..keep]
  {
    if !IsValid(p) {
      return None, false;
    }
    var padd := GetOffset(p);
    var full := p.value.buf;
    var metaSz := GetSz(p);
    if !allocOk {
      return None, true;
    }
    var nb := new uint8[newSz + metaSz + METASZ_SZ + CHKB_SZ];
    var keep := if full.Length < nb.Length then full.Length else nb.Length;
    var prefix := CopyOut(full, 0, keep);
    CopyInto(nb, 0, prefix);
    assert nb[..keep] == prefix;
    q := Some(Ptr(nb, padd));
    releasedOld := false;
  }

  /** realloc keeps the metadata, size byte and check word: the new pointer
      reads like the old one. */
  lemma ReallocKeepsHeader(b: seq<uint8>, b2: seq<uint8>, off: nat, newSz: nat)
    requires WellFormedAt(b, off) && ValidAt(b, off) && OffsetAt(b, off) == off
    requires |b2| == newSz + OffsetAt(b, off)
    requires var keep := if |b| < |b2| then |b| else |b2|; b2[..keep] == b[..keep]
    ensures WellFormedAt(b2, off) && ValidAt(b2, off) && MetaAt(b2, off) == MetaAt(b, off)
    ensures OffsetAt(b2, off) == OffsetAt(b, off) && |b2| - off == newSz
  {
    var keep := if |b| < |b2| then |b| else |b2|;
    assert b2[..off] == b2[..keep][..off];
    assert b[..off] == b[..keep][..off];
    PrefixKeepsHeader(b, b2, off);
  }
}

/**
 * The hierarchical allocator of repackages/stb_alloc.h.
 *
 * Every user pointer is preceded by a header whose last word carries the
 * block's type in its two low bits:
 *   - a general block (`stb__alloc`) has a children list and a list of
 *     chunks; its last header word is the chunk-list pointer plus 2;
 *   - a leaf block (`stb__nochildren`) sits in a children list but has no
 *     children of its own; its last header word is an aligned pointer, so
 *     the tag is 0;
 *   - a chunked block (`stb__chunked`) is carved out of a chunk of its
 *     context and only records its parent, plus 1;
 *   - a raw block is carved out of a chunk and has no header at all.
 *
 * The blocks with children lists form a tree rooted at the global context.
 * The model keeps it as a `Forest` tree: a node's `kids` are its children
 * list, head first, and its `data` says whether it is a general block (with
 * its chunks) or a leaf.  Chunk-allocated blocks are recorded separately
 * with the general block that owns their chunk.  Ids stand for addresses.
 */
module StbAlloc {
  import opened Bytes
  import opened Forest

  // ---------------------------------------------------------------------
  // Configuration and layout (a 64-bit target).

  /** STB_ALLOC_ALIGNMENT */
  const ALIGNMENT: nat := 32
  /** STB_ALLOC_CHUNK_SZ */
  const CHUNK_SZ: nat := 65536
  /** sizeof(stb__chunk): a pointer and two ints. */
  const CHUNK_HDR: nat := 16
  /** sizeof(stb__alloc): four pointers. */
  const ALLOC_HDR: nat := 32
  /** sizeof(stb__nochildren): two pointers. */
  const NOCHILD_HDR: nat := 16
  /** sizeof(stb__chunked): one pointer. */
  const CHUNKED_HDR: nat := 8
  /** sizeof(stb_uintptr), the least alignment of a chunked block. */
  const UINTPTR_SZ: nat := 8

  /** The tag bits: STB__PARENT marks a chunked block's parent word,
      STB__CHUNKS a general block's chunk-list word. */
  const PARENT_TAG: nat := 1
  const CHUNKS_TAG: nat := 2

  /** stb__alloc_type. */
  datatype AllocType = NoChildren | Chunked | Alloc | ChunkRaw

  function Code(t: AllocType): nat
  {
    match t
    case NoChildren => 0
    case Chunked => PARENT_TAG
    case Alloc => CHUNKS_TAG
    case ChunkRaw => 4
  }

  // ---------------------------------------------------------------------
  // Bit arithmetic.

  function Pow2(k: nat): (p: nat)
    ensures p >= 1
  {
    if k == 0 then 1 else 2 * Pow2(k - 1)
  }

  predicate PowerOfTwo(n: nat)
  {
    n == 1 || (n >= 2 && n % 2 == 0 && PowerOfTwo(n / 2))
  }

  /** `a & b` on non-negative integers, bit by bit from the lowest. */
  function BitAnd(a: nat, b: nat): nat
  {
    if a == 0 || b == 0 then 0
    else 2 * BitAnd(a / 2, b / 2) + (if a % 2 == 1 && b % 2 == 1 then 1 else 0)
  }

  lemma DivMod(a: int, d: int)
    requires d > 0
    ensures a == d * (a / d) + a % d && 0 <= a % d < d
  {
  }

  /** Masking with `2^k - 1` keeps the remainder modulo `2^k`: this is why
      the source's `x & (align - 1)`, `n & 15` and `q[-1] & 3` are written
      here as `%`. */
  lemma {:induction false} AndLowMask(x: nat, k: nat)
    ensures BitAnd(x, Pow2(k) - 1) == x % Pow2(k)
  {
    if k == 0 {
      assert Pow2(k) - 1 == 0 && x % 1 == 0;
    } else if x == 0 {
      ZeroMod(Pow2(k));
    } else {
      AndLowMask(x / 2, k - 1);
      AndLowMaskStep(x, k);
    }
  }

  lemma ZeroMod(n: nat)
    requires n > 0
    ensures 0 % n == 0
  {
  }

  /** One bit of AndLowMask: from `x / 2` and `k - 1` to `x` and `k`. */
  lemma AndLowMaskStep(x: nat, k: nat)
    requires x > 0 && k > 0
    requires BitAnd(x / 2, Pow2(k - 1) - 1) == (x / 2) % Pow2(k - 1)
    ensures BitAnd(x, Pow2(k) - 1) == x % Pow2(k)
  {
    var p := Pow2(k - 1);
    var m := Pow2(k) - 1;
    assert Pow2(k) == 2 * p;
    assert m / 2 == p - 1 && m % 2 == 1;
    assert BitAnd(x, m) == 2 * BitAnd(x / 2, p - 1) + x % 2;
    ModDouble(x, p);
  }

  /** The remainder modulo `2p` from the remainder of `x / 2` modulo `p`. */
  lemma ModDouble(x: nat, p: nat)
    requires p > 0
    ensures x % (2 * p) == 2 * ((x / 2) % p) + x % 2
  {
    var h, q, r := x / 2, (x / 2) / p, (x / 2) % p;
    DivMod(x, 2);
    DivMod(h, p);
    assert 2 * (q * p) == q * (2 * p);
    ModUnique(x, 2 * p, q, 2 * r + x % 2);
  }

  lemma {:induction false} AndSelf(a: nat)
    ensures BitAnd(a, a) == a
  {
    if a != 0 {
      AndSelf(a / 2);
    }
  }

  /** stb_is_pow2: `(n & (n - 1)) == 0`, with `n - 1` in size_t. */
  function IsPow2(n: nat): bool
    requires n < U64
  {
    BitAnd(n, (n + SIZE_MAX) % U64) == 0
  }

  /** stb_is_pow2 holds of exactly the powers of two and of 0 (for which
      `n - 1` wraps to SIZE_MAX). */
  lemma {:induction false} IsPow2Iff(n: nat)
    requires n < U64
    ensures IsPow2(n) <==> n == 0 || PowerOfTwo(n)
  {
    if n > 0 {
      assert (n + SIZE_MAX) % U64 == n - 1;
      AndPredIff(n);
    }
  }

  lemma {:induction false} AndPredIff(n: nat)
    requires n >= 1
    ensures BitAnd(n, n - 1) == 0 <==> PowerOfTwo(n)
  {
    if n == 1 {
    } else if n % 2 == 0 {
      var m := n / 2;
      assert (n - 1) / 2 == m - 1 && (n - 1) % 2 == 1;
      AndPredIff(m);
    } else {
      var k := n / 2;
      assert (n - 1) / 2 == k && (n - 1) % 2 == 0 && k >= 1;
      AndSelf(k);
      assert BitAnd(n, n - 1) == 2 * k;
    }
  }

  lemma {:induction false} Pow2IsPowerOfTwo(k: nat)
    ensures PowerOfTwo(Pow2(k))
  {
    if k > 0 {
      Pow2IsPowerOfTwo(k - 1);
      assert Pow2(k) / 2 == Pow2(k - 1);
    }
  }

  // ---------------------------------------------------------------------
  // Tagged words.

  /** STB__ENCODE: add the tag to a pointer, in size_t. */
  function Encode(x: nat, v: nat): (w: nat)
    ensures w < U64
  {
    (x + v) % U64
  }

  /** STB__DECODE: take the tag off again, in size_t. */
  function Decode(x: nat, v: nat): (w: nat)
    ensures w < U64
  {
    (x - v) % U64
  }

  /** Decoding with the tag that was added gives the pointer back. */
  lemma DecodeEncode(x: nat, v: nat)
    requires x < U64 && v < U64
    ensures Decode(Encode(x, v), v) == x
  {
    var e := Encode(x, v);
    if x + v < U64 {
      assert e == x + v;
    } else {
      ModUnique(x + v, U64, 1, x + v - U64);
      ModUnique(x - U64, U64, -1, x);
    }
  }

  /** stb__identify: the low two bits of the word before the user pointer. */
  function Identify(word: nat): (t: nat)
    ensures t < 4
  {
    word % 4
  }

  /** The word a block of type `t` keeps just before its user pointer:
      the tagged chunk list of a general block, the tagged parent of a
      chunked block, the `prevn` link of a leaf.  `link` is that pointer. */
  function HeaderWord(t: AllocType, link: nat): nat
    requires t != ChunkRaw
  {
    match t
    case Alloc => Encode(link, CHUNKS_TAG)
    case Chunked => Encode(link, PARENT_TAG)
    case NoChildren => link
  }

  /** stb__identify recovers the type from the header word when the link
      is 4-aligned, as every pointer (and NULL) is; the link itself is the
      tagged word decoded. */
  lemma IdentifyHeader(t: AllocType, link: nat)
    requires t != ChunkRaw && link < U64 && link % 4 == 0
    ensures Identify(HeaderWord(t, link)) == Code(t)
    ensures Decode(HeaderWord(t, link), Code(t)) == link
  {
    DecodeEncode(link, Code(t));
    var w := HeaderWord(t, link);
    if t != NoChildren {
      if link + Code(t) >= U64 {
        ModUnique(link + Code(t), U64, 1, link + Code(t) - U64);
      }
      assert w == link + Code(t);
      ModUnique(w, 4, link / 4, Code(t));
    }
  }

  /** lowbit4 in stb_lowbit8. */
  const LOWBIT4: seq<int> := [-1, 0, 1, 0, 2, 0, 1, 0, 3, 0, 1, 0, 2, 0, 1, 0]

  /** stb_lowbit8 of an unsigned int `n`: the lowest set bit among the low
      eight, looked up a nibble at a time.  `n & 15` and `(n >> 4) & 15`
      are the nibbles. */
  function Lowbit8(n: nat): int
  {
    var k := LOWBIT4[n % 16];
    if k >= 0 then k
    else
      var k2 := LOWBIT4[(n / 16) % 16];
      if k2 >= 0 then k2 + 4 else k2
  }

  /** Reducing modulo a multiple first changes nothing. */
  lemma ModMod(x: nat, a: nat, b: nat)
    requires b > 0 && a > 0 && a % b == 0
    ensures (x % a) % b == x % b
  {
    var c := a / b;
    assert a == b * c;
    var q, r := (x % a) / b, (x % a) % b;
    assert x % a == q * b + r;
    assert x == (x / a) * a + x % a;
    assert x == ((x / a) * c + q) * b + r;
    ModUnique(x, b, (x / a) * c + q, r);
  }

  lemma Lowbit4Table(r: nat)
    requires r < 16
    ensures LOWBIT4[r] == -1 <==> r == 0
    ensures LOWBIT4[r] >= 0 ==> LOWBIT4[r] < 4 && r % Pow2(LOWBIT4[r]) == 0 && r % Pow2(LOWBIT4[r] + 1) != 0
  {
    assert Pow2(0) == 1 && Pow2(1) == 2 && Pow2(2) == 4 && Pow2(3) == 8 && Pow2(4) == 16;
    assert r == 0 || r == 1 || r == 2 || r == 3 || r == 4 || r == 5 || r == 6 || r == 7 || r == 8
      || r == 9 || r == 10 || r == 11 || r == 12 || r == 13 || r == 14 || r == 15;
  }

  lemma Pow2Divides(j: nat, k: nat)
    requires j <= k
    ensures Pow2(k) % Pow2(j) == 0
  {
    Pow2Add(j, k - j);
    ModUnique(Pow2(k), Pow2(j), Pow2(k - j), 0);
  }

  /** stb_lowbit8(n) is the index of the lowest set bit of `n` below bit 8:
      `2^k` divides `n` and `2^(k+1)` does not; it is -1 exactly when the
      low eight bits are all clear. */
  lemma Lowbit8Correct(n: nat)
    ensures Lowbit8(n) == -1 <==> n % 256 == 0
    ensures Lowbit8(n) >= 0 ==> Lowbit8(n) < 8 && n % Pow2(Lowbit8(n)) == 0 && n % Pow2(Lowbit8(n) + 1) != 0
  {
    var lo, hi := n % 16, (n / 16) % 16;
    Lowbit4Table(lo);
    Lowbit4Table(hi);
    LowByte(n);
    if LOWBIT4[lo] >= 0 {
      Lowbit8Low(n);
    } else if LOWBIT4[hi] >= 0 {
      Lowbit8High(n);
    }
  }

  /** The low byte is made of the two low nibbles. */
  lemma LowByte(n: nat)
    ensures n % 256 == ((n / 16) % 16) * 16 + n % 16
  {
    var q1 := n / 16;
    var q2 := q1 / 16;
    DivMod(n, 16);
    DivMod(q1, 16);
    assert n == q2 * 256 + (16 * (q1 % 16) + n % 16);
    ModUnique(n, 256, q2, 16 * (q1 % 16) + n % 16);
  }

  /** A set bit in the low nibble is the lowest set bit. */
  lemma Lowbit8Low(n: nat)
    requires LOWBIT4[n % 16] >= 0
    ensures var k := LOWBIT4[n % 16]; n % Pow2(k) == 0 && n % Pow2(k + 1) != 0
  {
    var k := LOWBIT4[n % 16];
    Lowbit4Table(n % 16);
    Pow2Divides(k, 4);
    Pow2Divides(k + 1, 4);
    Pow2Small();
    ModMod(n, 16, Pow2(k));
    ModMod(n, 16, Pow2(k + 1));
  }

  /** With the low nibble clear, the lowest set bit of the high nibble is
      the lowest set bit, four places up. */
  lemma Lowbit8High(n: nat)
    requires n % 16 == 0 && LOWBIT4[(n / 16) % 16] >= 0
    ensures var j := LOWBIT4[(n / 16) % 16]; n % Pow2(j + 4) == 0 && n % Pow2(j + 5) != 0
  {
    var m := n / 16;
    var j := LOWBIT4[m % 16];
    Lowbit4Table(m % 16);
    DivMod(n, 16);
    assert n == 16 * m;
    Pow2Divides(j, 4);
    Pow2Divides(j + 1, 4);
    Pow2Small();
    ModMod(m, 16, Pow2(j));
    ModMod(m, 16, Pow2(j + 1));
    ScaleMod(m, Pow2(j));
    ScaleMod(m, Pow2(j + 1));
    Pow2Add(j, 4);
    Pow2Add(j + 1, 4);
  }

  lemma {:induction false} Pow2Add(j: nat, k: nat)
    ensures Pow2(j + k) == Pow2(k) * Pow2(j)
    decreases k
  {
    if k > 0 {
      Pow2Add(j, k - 1);
    }
  }

  /** Multiplying by 16 scales the remainder by 16. */
  lemma ScaleMod(m: nat, p: nat)
    requires p > 0
    ensures (16 * m) % (16 * p) == 16 * (m % p)
  {
    ModUnique(16 * m, 16 * p, m / p, 16 * (m % p));
  }

  // ---------------------------------------------------------------------
  // The alignment malloc_base settles on.

  /** The alignment malloc_base uses for a request of `size` bytes.  A
      positive `align` is used as given.  Otherwise the worst-case packed
      alignment of `size` is proposed, `1 << stb_lowbit8(size)`, and a
      negative `align` caps it at `-align`.  When the low eight bits of
      `size` are clear stb_lowbit8 gives -1 and `1 << -1` is undefined in
      C: `negShift` stands for whatever the target yields there. */
  function ChooseAlign(size: nat, align: int, negShift: int): int
  {
    if align > 0 then align
    else
      var lb := Lowbit8(size % U32);
      var a0 := if lb >= 0 then Pow2(lb) else negShift;
      var a1 := if a0 < 0 then 4 else a0;
      var a2 := if a1 == 0 then (if size == 0 then 1 else 256) else a1;
      if align < 0 && a2 > -align then -align else a2
  }

  /** A leaf request whose alignment exceeds 8 is served as a general
      block, so that the two-pointer leaf header does not misalign it. */
  function Promote(t: AllocType, align: int): AllocType
  {
    if t == NoChildren && align > 8 then Alloc else t
  }

  lemma Pow2Small()
    ensures Pow2(0) == 1 && Pow2(1) == 2 && Pow2(2) == 4 && Pow2(3) == 8 && Pow2(4) == 16
    ensures Pow2(5) == 32 && Pow2(6) == 64 && Pow2(7) == 128 && Pow2(8) == 256
  {
  }

  /** With the cap every stb_malloc* entry point uses (-ALIGNMENT), the
      alignment of a size whose low byte is not zero is the largest power
      of two up to 32 that divides the size. */
  lemma ChooseAlignOfSize(size: nat, negShift: int)
    requires size % 256 != 0
    ensures var a := ChooseAlign(size, -(ALIGNMENT as int), negShift);
      a >= 1 && PowerOfTwo(a) && a <= ALIGNMENT && size % a == 0 && (a == ALIGNMENT as int || size % (2 * a) != 0)
  {
    var n := size % U32;
    Pow2Small();
    ModU32(size, 256);
    Lowbit8Correct(n);
    var lb := Lowbit8(n);
    Pow2Divides(lb, 8);
    Pow2Divides(lb + 1, 8);
    ModU32(size, Pow2(lb));
    ModU32(size, Pow2(lb + 1));
    ChooseAlignCapped(size, negShift);
    if lb >= 5 {
      Pow2Divides(5, lb);
      ModMod(size, Pow2(lb), 32);
      Pow2IsPowerOfTwo(5);
    } else {
      Pow2IsPowerOfTwo(lb);
      assert Pow2(lb + 1) == 2 * Pow2(lb);
      assert Pow2(lb) <= 16 by {
        assert lb == 0 || lb == 1 || lb == 2 || lb == 3 || lb == 4;
      }
    }
  }

  /** Under the cap of -ALIGNMENT the alignment is the lowest set bit of
      the size, at most 32. */
  lemma ChooseAlignCapped(size: nat, negShift: int)
    requires 0 <= Lowbit8(size % U32) < 8
    ensures var lb := Lowbit8(size % U32);
      ChooseAlign(size, -(ALIGNMENT as int), negShift) == if lb >= 5 then 32 else Pow2(lb)
  {
    Pow2Small();
    var lb := Lowbit8(size % U32);
    assert lb == 0 || lb == 1 || lb == 2 || lb == 3 || lb == 4 || lb == 5 || lb == 6 || lb == 7;
  }

  /** Reducing to 32 bits first keeps the remainder by a divisor of 256. */
  lemma ModU32(x: nat, p: nat)
    requires p > 0 && 256 % p == 0
    ensures (x % U32) % p == x % p
  {
    var j := 256 / p;
    DivMod(256, p);
    assert U32 == (j * 0x100_0000) * p;
    ModUnique(U32, p, j * 0x100_0000, 0);
    ModMod(x, U32, p);
  }

  /** The assertion `stb_is_pow2(align)` in malloc_base holds whenever a
      negative `align` is minus a power of two and `1 << -1` does not come
      out positive. */
  lemma ChooseAlignIsPow2(size: nat, align: int, negShift: int)
    requires align < 0 && PowerOfTwo(-align) && negShift <= 0
    ensures var a := ChooseAlign(size, align, negShift); a >= 1 && PowerOfTwo(a)
  {
    Pow2Small();
    var lb := Lowbit8(size % U32);
    if lb >= 0 {
      Pow2IsPowerOfTwo(lb);
    }
  }

  /** A leaf (stb_malloc_leaf) becomes a general block exactly when its
      size is a multiple of 16 (for sizes whose low byte is not zero). */
  lemma LeafPromotedIff(size: nat, negShift: int)
    requires size % 256 != 0
    ensures Promote(NoChildren, ChooseAlign(size, -(ALIGNMENT as int), negShift)) == Alloc <==> size % 16 == 0
  {
    var a := ChooseAlign(size, -(ALIGNMENT as int), negShift);
    ChooseAlignOfSize(size, negShift);
    Pow2Small();
    PowerOfTwoSmall(a);
    if a > 8 {
      ModMod(size, a, 16);
    } else if size % 16 == 0 {
      ModMod(size, 16, 2 * a);
    }
  }

  lemma PowerOfTwoSmall(a: nat)
    requires PowerOfTwo(a) && a <= 32
    ensures a == 1 || a == 2 || a == 4 || a == 8 || a == 16 || a == 32
  {
    if a >= 2 {
      PowerOfTwoSmall(a / 2);
    }
  }

  // ---------------------------------------------------------------------
  // Chunks.

  /** stb__chunk: the chunk header sits at `addr`, the chunk's data begins
      right after it, blocks are taken from the end of the still free
      `dataLeft` bytes, and `alloc` counts the blocks accounted to it. */
  datatype Chunk = Chunk(addr: nat, dataLeft: int, alloc: nat)

  /** `(char *)(c + 1)`: where the chunk's data begins. */
  function Memblock(c: Chunk): nat
  {
    c.addr + CHUNK_HDR
  }

  /** A block of `size` bytes with a `pre`-byte header placed at offset `s`
      of the chunk's data: it lies in the free part and the byte after the
      header is `align`-aligned. */
  predicate Fits(c: Chunk, size: nat, align: nat, pre: nat, s: int)
    requires align >= 1
  {
    s >= 0 && (Memblock(c) + s + pre) % align == 0 && s + pre + size <= c.dataLeft
  }

  /** stb__try_chunk's offset: the end of the free part less `size`,
      rounded down so that the address is aligned (`iq & (align - 1)` is
      `iq % align` for a power-of-two `align`), less `pre`. */
  function TryStart(c: Chunk, size: nat, align: nat, pre: nat): int
    requires align >= 1
  {
    var s := c.dataLeft - size;
    s - (Memblock(c) + s) % align - pre
  }

  lemma TryStartAligned(c: Chunk, size: nat, align: nat, pre: nat)
    requires align >= 1
    ensures TryStart(c, size, align, pre) >= 0 ==> Fits(c, size, align, pre, TryStart(c, size, align, pre))
  {
    var y := Memblock(c) + c.dataLeft - size;
    ModUnique(y - y % align, align, y / align, 0);
  }

  /** stb__try_chunk: on success the chunk's free part shrinks to the new
      offset and the block's address is returned; otherwise nothing
      changes. */
  function TryChunk(c: Chunk, size: nat, align: nat, pre: nat): (r: (Option<nat>, Chunk))
    requires align >= 1
    ensures r.0.Some? <==> TryStart(c, size, align, pre) >= 0
    ensures r.0.Some? ==> (r.1 == c.(dataLeft := r.1.dataLeft) && r.0.value == Memblock(c) + r.1.dataLeft
                           && Fits(c, size, align, pre, r.1.dataLeft))
    ensures r.0.None? ==> r.1 == c
  {
    TryStartAligned(c, size, align, pre);
    var s := TryStart(c, size, align, pre);
    if s >= 0 then (Some((Memblock(c) + s) as nat), c.(dataLeft := s)) else (None, c)
  }

  /** stb__try_chunk places the block as high as it can go: every aligned
      placement that fits the free part lies at or below its offset, so it
      fails only when no placement fits at all. */
  lemma TryChunkBest(c: Chunk, size: nat, align: nat, pre: nat, s: int)
    requires align >= 1 && Fits(c, size, align, pre, s)
    ensures s <= TryStart(c, size, align, pre) && TryChunk(c, size, align, pre).0.Some?
  {
    var x := Memblock(c) + s + pre;
    var y := Memblock(c) + c.dataLeft - size;
    RoundDownMono(x, y, align);
    assert TryStart(c, size, align, pre) == y - y % align - Memblock(c) - pre;
  }

  /** Rounding `y` down to a multiple of `m` stays above every multiple of
      `m` up to `y`. */
  lemma RoundDownMono(x: int, y: int, m: int)
    requires m > 0 && x <= y && x % m == 0
    ensures x <= y - y % m
  {
    DivMod(x, m);
    DivMod(y, m);
    var qx, qy := x / m, y / m;
    if qx > qy {
      MulMono(qx, qy + 1, m);
      assert false;
    }
    MulMono(qy, qx, m);
  }

  lemma MulMono(a: int, b: int, m: int)
    requires m > 0 && a >= b
    ensures a * m >= b * m
  {
    assert a * m - b * m == (a - b) * m;
  }

  /** A free part of `size + pre + align - 1` bytes always has room. */
  lemma TryRoom(c: Chunk, size: nat, align: nat, pre: nat)
    requires align >= 1
    ensures c.dataLeft >= size + pre + align - 1 ==> TryStart(c, size, align, pre) >= 0
  {
  }

  /** stb__sort_chunks: of the first two chunks, the one with more data left
      goes first; the rest of the list is untouched. */
  function SortFirstTwo(cs: seq<Chunk>): (r: seq<Chunk>)
    ensures |r| == |cs| && multiset(r) == multiset(cs)
    ensures |cs| >= 2 ==> r[2..] == cs[2..] && r[0].dataLeft >= r[1].dataLeft
    ensures r == cs || (|cs| >= 2 && cs[0].dataLeft <= cs[1].dataLeft && r == [cs[1], cs[0]] + cs[2..])
  {
    if |cs| < 2 || cs[0].dataLeft > cs[1].dataLeft then cs
    else
      assert cs == [cs[0], cs[1]] + cs[2..];
      [cs[1], cs[0]] + cs[2..]
  }

  /** The blocks accounted to a chunk list. */
  function AllocSum(cs: seq<Chunk>): nat
  {
    if cs == [] then 0 else cs[0].alloc + AllocSum(cs[1..])
  }

  lemma {:induction false} AllocSumUpdate(cs: seq<Chunk>, i: nat, c: Chunk)
    requires i < |cs|
    ensures AllocSum(cs[i := c]) + cs[i].alloc == AllocSum(cs) + c.alloc
  {
    if i > 0 {
      AllocSumUpdate(cs[1..], i - 1, c);
      assert cs[i := c][1..] == cs[1..][i - 1 := c];
    }
  }

  lemma AllocSumSort(cs: seq<Chunk>)
    ensures AllocSum(SortFirstTwo(cs)) == AllocSum(cs)
  {
    if |cs| >= 2 && cs[0].dataLeft <= cs[1].dataLeft {
      var r := SortFirstTwo(cs);
      assert r[1..][1..] == cs[1..][1..];
    }
  }

  /** The new chunk that stb__alloc_chunk's retry loop ends with, starting
      from `chunkSize` data bytes: the system allocator `sys` is asked for
      `ALIGNMENT + chunkSize` bytes, the block is tried in the fresh chunk,
      and on a miss the chunk is dropped and `chunkSize` grows by
      `ALIGNMENT + align`.  The result is the block's address, the chunk
      and its final data size; None when the system allocator fails. */
  function NewChunk(size: nat, align: nat, pre: nat, chunkSize: nat, sys: nat -> Option<nat>): (r: Option<(nat, Chunk, nat)>)
    requires align >= 1 && pre + CHUNK_HDR <= ALIGNMENT && chunkSize >= size
    ensures r.Some? ==> r.value.2 == chunkSize || r.value.2 == chunkSize + ALIGNMENT + align
    ensures r.Some? ==> (sys(ALIGNMENT + r.value.2).Some? && r.value.1.addr == sys(ALIGNMENT + r.value.2).value
                         && r.value.1.alloc == 1 && r.value.0 == Memblock(r.value.1) + r.value.1.dataLeft
                         && Fits(Chunk(r.value.1.addr, r.value.2 - CHUNK_HDR, 1), size, align, pre, r.value.1.dataLeft))
    decreases if chunkSize >= size + ALIGNMENT + align then 0 else 1
  {
    match sys(ALIGNMENT + chunkSize)
    case None => None
    case Some(a) =>
      var n := Chunk(a, chunkSize - CHUNK_HDR, 1);
      var t := TryChunk(n, size, align, pre);
      if t.0.Some? then Some((t.0.value, t.1, chunkSize))
      else
        TryRoom(n, size, align, pre);
        NewChunk(size, align, pre, chunkSize + ALIGNMENT + align, sys)
  }

  /** stb__alloc_chunk on a context's chunk list `cs`: try the first chunk,
      then the second; if both miss, sort the two and fall back to a new
      chunk of `max(CHUNK_SZ, size)` data bytes, which goes to the front
      (and behind the old first one when it was used up at once).  A
      request larger than CHUNK_SZ always gets a new chunk.  The result is
      the block's address (None when the system allocator fails) and the
      new chunk list. */
  function AllocChunkSpec(cs: seq<Chunk>, size: nat, align: nat, pre: nat, sys: nat -> Option<nat>): (Option<nat>, seq<Chunk>)
    requires align >= 1 && pre + CHUNK_HDR <= ALIGNMENT
  {
    if |cs| > 0 && size <= CHUNK_SZ then
      var t0 := TryChunk(cs[0], size, align, pre);
      if t0.0.Some? then (t0.0, cs[0 := t0.1.(alloc := t0.1.alloc + 1)])
      else if |cs| > 1 then
        var t1 := TryChunk(cs[1], size, align, pre);
        if t1.0.Some? then (t1.0, cs[1 := t1.1][0 := cs[0].(alloc := cs[0].alloc + 1)])
        else FreshChunk(SortFirstTwo(cs), size, align, pre, sys)
      else FreshChunk(cs, size, align, pre, sys)
    else FreshChunk(cs, size, align, pre, sys)
  }

  /** The fallback of stb__alloc_chunk: a new chunk in front of `cs`. */
  function FreshChunk(cs: seq<Chunk>, size: nat, align: nat, pre: nat, sys: nat -> Option<nat>): (Option<nat>, seq<Chunk>)
    requires align >= 1 && pre + CHUNK_HDR <= ALIGNMENT
  {
    var chunkSize := if size > CHUNK_SZ then size else CHUNK_SZ;
    match NewChunk(size, align, pre, chunkSize, sys)
    case None => (None, cs)
    case Some((p, n, finalSize)) => (Some(p), if size == finalSize then SortFirstTwo([n] + cs) else [n] + cs)
  }

  /** Every block stb__alloc_chunk hands out is accounted to exactly one
      chunk of the list; a failure only reorders the list. */
  lemma AllocChunkCounts(cs: seq<Chunk>, size: nat, align: nat, pre: nat, sys: nat -> Option<nat>)
    requires align >= 1 && pre + CHUNK_HDR <= ALIGNMENT
    ensures var r := AllocChunkSpec(cs, size, align, pre, sys);
      (r.0.Some? ==> AllocSum(r.1) == AllocSum(cs) + 1)
      && (r.0.None? ==> multiset(r.1) == multiset(cs) && AllocSum(r.1) == AllocSum(cs))
  {
    if |cs| > 0 && size <= CHUNK_SZ {
      var t0 := TryChunk(cs[0], size, align, pre);
      if t0.0.Some? {
        AllocSumUpdate(cs, 0, t0.1.(alloc := t0.1.alloc + 1));
      } else if |cs| > 1 {
        var t1 := TryChunk(cs[1], size, align, pre);
        if t1.0.Some? {
          AllocSumUpdate(cs, 1, t1.1);
          AllocSumUpdate(cs[1 := t1.1], 0, cs[0].(alloc := cs[0].alloc + 1));
        } else {
          AllocSumSort(cs);
          FreshChunkCounts(SortFirstTwo(cs), size, align, pre, sys);
        }
      } else {
        FreshChunkCounts(cs, size, align, pre, sys);
      }
    } else {
      FreshChunkCounts(cs, size, align, pre, sys);
    }
  }

  lemma FreshChunkCounts(cs: seq<Chunk>, size: nat, align: nat, pre: nat, sys: nat -> Option<nat>)
    requires align >= 1 && pre + CHUNK_HDR <= ALIGNMENT
    ensures var r := FreshChunk(cs, size, align, pre, sys);
      (r.0.Some? ==> AllocSum(r.1) == AllocSum(cs) + 1 && |r.1| == |cs| + 1 && multiset(cs) <= multiset(r.1))
      && (r.0.None? ==> r.1 == cs)
  {
    var chunkSize := if size > CHUNK_SZ then size else CHUNK_SZ;
    var nc := NewChunk(size, align, pre, chunkSize, sys);
    if nc.Some? {
      var l := [nc.value.1] + cs;
      assert l[1..] == cs;
      AllocSumSort(l);
    }
  }

  /** A block from stb__alloc_chunk lies at the end of some chunk's free
      part, and the byte after its `pre`-byte header is aligned. */
  lemma AllocChunkPlaced(cs: seq<Chunk>, size: nat, align: nat, pre: nat, sys: nat -> Option<nat>)
    requires align >= 1 && pre + CHUNK_HDR <= ALIGNMENT
    ensures var r := AllocChunkSpec(cs, size, align, pre, sys);
      r.0.Some? ==> ((r.0.value + pre) % align == 0
                     && exists i :: 0 <= i < |r.1| && r.1[i].dataLeft >= 0 && r.0.value == Memblock(r.1[i]) + r.1[i].dataLeft)
  {
    var r := AllocChunkSpec(cs, size, align, pre, sys);
    if |cs| > 0 && size <= CHUNK_SZ && TryChunk(cs[0], size, align, pre).0.Some? {
      assert r.1[0].dataLeft >= 0 && r.0.value == Memblock(r.1[0]) + r.1[0].dataLeft;
    } else if |cs| > 1 && size <= CHUNK_SZ && TryChunk(cs[1], size, align, pre).0.Some? {
      assert r.1[1].dataLeft >= 0 && r.0.value == Memblock(r.1[1]) + r.1[1].dataLeft;
    } else {
      var base := if |cs| > 1 && size <= CHUNK_SZ then SortFirstTwo(cs) else cs;
      FreshChunkFront(base, size, align, pre, sys);
      assert r.0.Some? ==> r.1[0].dataLeft >= 0 && r.0.value == Memblock(r.1[0]) + r.1[0].dataLeft;
    }
  }

  /** A new chunk always keeps some data left after the block, so it is
      never used up at once: stb__alloc_chunk's re-sort after a new chunk
      (for `size == chunk_size`) is never reached, and the new chunk always
      ends up first. */
  lemma FreshChunkFront(cs: seq<Chunk>, size: nat, align: nat, pre: nat, sys: nat -> Option<nat>)
    requires align >= 1 && pre + CHUNK_HDR <= ALIGNMENT
    ensures var r := FreshChunk(cs, size, align, pre, sys);
      r.0.Some? ==> (|r.1| == |cs| + 1 && r.1[1..] == cs && r.1[0].alloc == 1
                     && r.1[0].dataLeft >= 0 && r.0.value == Memblock(r.1[0]) + r.1[0].dataLeft)
  {
    var chunkSize := if size > CHUNK_SZ then size else CHUNK_SZ;
    var nc := NewChunk(size, align, pre, chunkSize, sys);
    if nc.Some? {
      assert nc.value.2 > size;
      assert ([nc.value.1] + cs)[1..] == cs;
    }
  }

  /** When the first chunk has room the block comes from it, placed as
      high as it fits, and the first chunk's count goes up. */
  lemma AllocChunkFirstFit(cs: seq<Chunk>, size: nat, align: nat, pre: nat, sys: nat -> Option<nat>, s: int)
    requires align >= 1 && pre + CHUNK_HDR <= ALIGNMENT
    requires |cs| > 0 && size <= CHUNK_SZ && Fits(cs[0], size, align, pre, s)
    ensures var t := TryStart(cs[0], size, align, pre);
      s <= t && AllocChunkSpec(cs, size, align, pre, sys)
        == (Some((Memblock(cs[0]) + t) as nat), cs[0 := cs[0].(dataLeft := t, alloc := cs[0].alloc + 1)])
  {
    TryChunkBest(cs[0], size, align, pre, s);
  }

  /** When only the second chunk has room the block comes from it, but the
      count that goes up is the first chunk's. */
  lemma AllocChunkSecondFit(cs: seq<Chunk>, size: nat, align: nat, pre: nat, sys: nat -> Option<nat>, s: int)
    requires align >= 1 && pre + CHUNK_HDR <= ALIGNMENT
    requires |cs| > 1 && size <= CHUNK_SZ && TryChunk(cs[0], size, align, pre).0.None? && Fits(cs[1], size, align, pre, s)
    ensures var t := TryStart(cs[1], size, align, pre);
      s <= t && AllocChunkSpec(cs, size, align, pre, sys)
        == (Some((Memblock(cs[1]) + t) as nat), cs[1 := cs[1].(dataLeft := t)][0 := cs[0].(alloc := cs[0].alloc + 1)])
  {
    TryChunkBest(cs[1], size, align, pre, s);
  }

  /** When neither of the first two chunks has room (or the request is
      larger than a chunk), the block comes from a new chunk and every old
      chunk is kept. */
  lemma AllocChunkFresh(cs: seq<Chunk>, size: nat, align: nat, pre: nat, sys: nat -> Option<nat>)
    requires align >= 1 && pre + CHUNK_HDR <= ALIGNMENT
    requires |cs| == 0 || size > CHUNK_SZ
      || (TryChunk(cs[0], size, align, pre).0.None? && (|cs| == 1 || TryChunk(cs[1], size, align, pre).0.None?))
    ensures var r := AllocChunkSpec(cs, size, align, pre, sys);
      r.0.Some? ==> |r.1| == |cs| + 1 && multiset(cs) <= multiset(r.1)
  {
    if |cs| > 1 && size <= CHUNK_SZ {
      FreshChunkCounts(SortFirstTwo(cs), size, align, pre, sys);
    } else {
      FreshChunkCounts(cs, size, align, pre, sys);
    }
  }

  /** A context's list of chunks (the `chunks` field of an stb__alloc),
      rewired in place by stb__sort_chunks and stb__alloc_chunk. */
  class ChunkList {
    var chunks: seq<Chunk>

    constructor (cs: seq<Chunk>)
      ensures chunks == cs
    {
      chunks := cs;
    }

    /** stb__sort_chunks */
    method SortChunks()
      modifies this
      ensures chunks == SortFirstTwo(old(chunks))
    {
      if |chunks| < 2 {
        return;
      }
      var c, d := chunks[0], chunks[1];
      if c.dataLeft > d.dataLeft {
        return;
      }
      chunks := [d, c] + chunks[2..];
    }

    /** stb__alloc_chunk */
    method AllocChunk(size: nat, align: nat, pre: nat, sys: nat -> Option<nat>) returns (p: Option<nat>)
      requires align >= 1 && pre + CHUNK_HDR <= ALIGNMENT
      modifies this
      ensures (p, chunks) == AllocChunkSpec(old(chunks), size, align, pre, sys)
    {
      if |chunks| > 0 && size <= CHUNK_SZ {
        var t0 := TryChunk(chunks[0], size, align, pre);
        if t0.0.Some? {
          chunks := chunks[0 := t0.1.(alloc := t0.1.alloc + 1)];
          return t0.0;
        }
        if |chunks| > 1 {
          var t1 := TryChunk(chunks[1], size, align, pre);
          if t1.0.Some? {
            chunks := chunks[1 := t1.1];
            chunks := chunks[0 := chunks[0].(alloc := chunks[0].alloc + 1)];
            return t1.0;
          }
          SortChunks();
        }
      }
      ghost var before := chunks;
      assert AllocChunkSpec(old(chunks), size, align, pre, sys) == FreshChunk(before, size, align, pre, sys);
      var r := NewChunkLoop(size, align, pre, sys);
      if r.None? {
        return None;
      }
      var (q, n, chunkSize) := r.value;
      chunks := [n] + chunks;
      if size == chunkSize {
        // The source re-sorts here, but the chunk header leaves the block
        // less than `chunkSize` bytes, so this is never reached.
        assert false;
      }
      return Some(q);
    }
  }

  /** The retry loop of stb__alloc_chunk: ask the system allocator for a
      chunk, try the block in it, and grow the request until it fits. */
  method NewChunkLoop(size: nat, align: nat, pre: nat, sys: nat -> Option<nat>) returns (r: Option<(nat, Chunk, nat)>)
    requires align >= 1 && pre + CHUNK_HDR <= ALIGNMENT
    ensures r == NewChunk(size, align, pre, if size > CHUNK_SZ then size else CHUNK_SZ, sys)
  {
    var chunkSize := if size > CHUNK_SZ then size else CHUNK_SZ;
    ghost var first := chunkSize;
    while true
      invariant chunkSize >= size
      invariant NewChunk(size, align, pre, chunkSize, sys) == NewChunk(size, align, pre, first, sys)
      decreases if chunkSize >= size + ALIGNMENT + align then 0 else 1
    {
      var a := sys(ALIGNMENT + chunkSize);
      if a.None? {
        return None;
      }
      var n := Chunk(a.value, chunkSize - CHUNK_HDR, 1);
      var t := TryChunk(n, size, align, pre);
      if t.0.Some? {
        return Some((t.0.value, t.1, chunkSize));
      }
      TryRoom(n, size, align, pre);
      NewChunkMiss(size, align, pre, chunkSize, sys);
      chunkSize := chunkSize + ALIGNMENT + align;
    }
  }

  /** A chunk that cannot hold the block sends the search on to a chunk
      `ALIGNMENT + align` bytes larger. */
  lemma NewChunkMiss(size: nat, align: nat, pre: nat, chunkSize: nat, sys: nat -> Option<nat>)
    requires align >= 1 && pre + CHUNK_HDR <= ALIGNMENT && chunkSize >= size
    requires sys(ALIGNMENT + chunkSize).Some?
    requires TryChunk(Chunk(sys(ALIGNMENT + chunkSize).value, chunkSize - CHUNK_HDR, 1), size, align, pre).0.None?
    ensures NewChunk(size, align, pre, chunkSize, sys) == NewChunk(size, align, pre, chunkSize + ALIGNMENT + align, sys)
  {
  }

  // ---------------------------------------------------------------------
  // The hierarchy.

  /** What a block with a children list keeps: a general block's chunk
      list, or nothing for a leaf. */
  datatype Info = GeneralBlock(chunks: seq<Chunk>) | LeafBlock

  type Block = Tree<Info>

  /** A block carved out of a chunk: the general block whose chunk list
      holds it, whether it has a chunked header (otherwise it is raw), and
      its user address. */
  datatype Piece = Piece(owner: nat, chunked: bool, addr: nat)

  /** The id of stb__alloc_global, the context of NULL. */
  const GLOBAL: nat := 0

  /** The chunk-allocated blocks accounted to a block's own chunks. */
  function ChunkAllocs(d: Info): nat
  {
    if d.GeneralBlock? then AllocSum(d.chunks) else 0
  }

  /** The allocations not yet counted as freed that belong under block
      `t`, excluding `t` itself: its chunk allocations and, for each
      child, the child and what belongs under it. */
  function OutT(t: Block): nat
    decreases t, 1
  {
    ChunkAllocs(t.data) + OutAll(t.kids)
  }

  function OutAll(ts: seq<Block>): nat
    decreases ts, 0
  {
    if ts == [] then 0 else 1 + OutT(ts[0]) + OutAll(ts[1..])
  }

  /** A leaf never has children. */
  predicate BareT(t: Block)
    decreases t, 1
  {
    (t.data.LeafBlock? ==> t.kids == []) && BareAll(t.kids)
  }

  predicate BareAll(ts: seq<Block>)
    decreases ts, 0
  {
    ts == [] || (BareT(ts[0]) && BareAll(ts[1..]))
  }

  lemma {:induction false} BareAllAt(ts: seq<Block>, i: nat)
    requires BareAll(ts) && i < |ts|
    ensures BareT(ts[i])
  {
    if i > 0 {
      BareAllAt(ts[1..], i - 1);
    }
  }

  lemma {:induction false} BareFindT(t: Block, x: nat)
    requires BareT(t) && FindT(t, x).Some?
    ensures BareT(FindT(t, x).value)
    decreases t, 1
  {
    if t.id != x {
      BareFindAll(t.kids, x);
    }
  }

  /** Every subtree of a forest without parented leaves has none either. */
  lemma {:induction false} BareFindAll(ts: seq<Block>, x: nat)
    requires BareAll(ts) && FindAll(ts, x).Some?
    ensures BareT(FindAll(ts, x).value)
    decreases ts, 0
  {
    if FindT(ts[0], x).Some? {
      BareFindT(ts[0], x);
    } else {
      BareFindAll(ts[1..], x);
    }
  }

  lemma OutAllCons(t: Block, ts: seq<Block>)
    ensures OutAll([t] + ts) == 1 + OutT(t) + OutAll(ts)
  {
    assert ([t] + ts)[1..] == ts;
  }

  lemma {:induction false} RemoveFactsT(t: Block, x: nat)
    requires UniqueT(t) && t.id != x && x in Ids(t)
    ensures FindT(t, x).Some? && OutT(RemoveT(t, x)) + 1 + OutT(FindT(t, x).value) == OutT(t)
    ensures BareT(t) ==> BareT(RemoveT(t, x))
    decreases t, 1
  {
    FindAllFacts(t.kids, x);
    RemoveFactsAll(t.kids, x);
  }

  /** Unlinking block `x` takes away exactly the block and what belongs
      under it, and keeps leaves childless. */
  lemma {:induction false} RemoveFactsAll(ts: seq<Block>, x: nat)
    requires UniqueAll(ts) && x in IdsAll(ts)
    ensures OutAll(RemoveAll(ts, x)) + 1 + OutT(Subtree(ts, x)) == OutAll(ts)
    ensures BareAll(ts) ==> BareAll(RemoveAll(ts, x))
    decreases ts, 0
  {
    FindAllFacts(ts, x);
    FindTFacts(ts[0], x);
    var rest := ts[1..];
    if ts[0].id == x {
      RemoveAllAbsent(rest, x);
    } else if x in Ids(ts[0]) {
      RemoveFactsT(ts[0], x);
      RemoveAllAbsent(rest, x);
      OutAllCons(RemoveT(ts[0], x), rest);
      assert ([RemoveT(ts[0], x)] + rest)[1..] == rest;
    } else {
      RemoveTAbsent(ts[0], x);
      RemoveFactsAll(rest, x);
      OutAllCons(ts[0], RemoveAll(rest, x));
      assert ([ts[0]] + RemoveAll(rest, x))[1..] == RemoveAll(rest, x);
    }
  }

  lemma {:induction false} AddFactsT(t: Block, p: nat, c: Block)
    requires UniqueT(t) && p in Ids(t)
    ensures FindT(t, p).Some? && OutT(AddT(t, p, c)) == OutT(t) + 1 + OutT(c)
    ensures BareT(t) && BareT(c) && FindT(t, p).value.data.GeneralBlock? ==> BareT(AddT(t, p, c))
    decreases t, 1
  {
    FindTFacts(t, p);
    if t.id == p {
      OutAllCons(c, t.kids);
      assert ([c] + t.kids)[1..] == t.kids;
    } else {
      AddFactsAll(t.kids, p, c);
    }
  }

  /** Linking `c` under `p` adds exactly `c` and what belongs under it,
      and keeps leaves childless when `p` is a general block. */
  lemma {:induction false} AddFactsAll(ts: seq<Block>, p: nat, c: Block)
    requires UniqueAll(ts) && p in IdsAll(ts)
    ensures OutAll(AddAll(ts, p, c)) == OutAll(ts) + 1 + OutT(c)
    ensures BareAll(ts) && BareT(c) && Subtree(ts, p).data.GeneralBlock? ==> BareAll(AddAll(ts, p, c))
    decreases ts, 0
  {
    FindAllFacts(ts, p);
    FindTFacts(ts[0], p);
    var rest := ts[1..];
    var r := AddAll(ts, p, c);
    assert r[1..] == AddAll(rest, p, c);
    if p in Ids(ts[0]) {
      AddFactsT(ts[0], p, c);
      AddAllAbsent(rest, p, c);
    } else {
      AddTAbsent(ts[0], p, c);
      AddFactsAll(rest, p, c);
    }
  }

  lemma {:induction false} SetDataFactsT(t: Block, x: nat, d: Info)
    requires UniqueT(t) && x in Ids(t)
    ensures FindT(t, x).Some? && OutT(SetDataT(t, x, d)) + ChunkAllocs(FindT(t, x).value.data) == OutT(t) + ChunkAllocs(d)
    ensures BareT(t) && d.GeneralBlock? ==> BareT(SetDataT(t, x, d))
    decreases t, 1
  {
    FindTFacts(t, x);
    if t.id != x {
      SetDataFactsAll(t.kids, x, d);
    }
  }

  /** Replacing a general block's chunk list changes the outstanding count
      by the change in its chunk allocations only. */
  lemma {:induction false} SetDataFactsAll(ts: seq<Block>, x: nat, d: Info)
    requires UniqueAll(ts) && x in IdsAll(ts)
    ensures OutAll(SetDataAll(ts, x, d)) + ChunkAllocs(Subtree(ts, x).data) == OutAll(ts) + ChunkAllocs(d)
    ensures BareAll(ts) && d.GeneralBlock? ==> BareAll(SetDataAll(ts, x, d))
    decreases ts, 0
  {
    FindAllFacts(ts, x);
    FindTFacts(ts[0], x);
    var rest := ts[1..];
    var r := SetDataAll(ts, x, d);
    assert r[1..] == SetDataAll(rest, x, d);
    if x in Ids(ts[0]) {
      SetDataFactsT(ts[0], x, d);
      SetDataAllAbsent(rest, x, d);
    } else {
      SetDataTAbsent(ts[0], x, d);
      SetDataFactsAll(rest, x, d);
    }
  }

  /** The forest of a heap is the global context alone at the top. */
  lemma OneRoot(g: Block)
    ensures IdsAll([g]) == Ids(g) && OutAll([g]) == 1 + OutT(g) && RootIds([g]) == {g.id}
    ensures FindAll([g], g.id) == Some(g) && (BareAll([g]) <==> BareT(g)) && (UniqueAll([g]) <==> UniqueT(g))
  {
    assert [g][1..] == [];
    OutAllCons(g, []);
  }

  /** Adding under a single root changes that root's subtree only. */
  lemma OneRootAdd(g: Block, x: nat, c: Block)
    ensures AddAll([g], x, c) == [AddT(g, x, c)] && AddT(g, x, c).id == g.id && AddT(g, x, c).data == g.data
  {
    assert [g][1..] == [];
  }

  lemma OneRootRemove(g: Block, x: nat)
    requires g.id != x
    ensures RemoveAll([g], x) == [RemoveT(g, x)] && RemoveT(g, x).id == g.id && RemoveT(g, x).data == g.data
  {
    assert [g][1..] == [];
  }

  lemma OneRootSet(g: Block, x: nat, d: Info)
    ensures SetDataAll([g], x, d) == [SetDataT(g, x, d)] && SetDataT(g, x, d).id == g.id
    ensures SetDataT(g, x, d).data == if g.id == x then d else g.data
  {
    assert [g][1..] == [];
  }

  /** The global context alone, with no chunks and no children. */
  lemma InitialForest(g: Block)
    requires g.kids == [] && ChunkAllocs(g.data) == 0
    ensures UniqueAll([g]) && BareAll([g]) && IdsAll([g]) == {g.id} && OutAll([g]) == 1
  {
    OneRoot(g);
  }

  /** The invariant of a heap: the global context alone at the top, no
      block twice, no leaf with children, ids below the next fresh one,
      every chunk-allocated block owned by a block of the tree, and the
      balance of the debug counters: every allocation not yet counted as
      freed is a block in the tree or a block in one of the tree's
      chunks. */
  predicate HeapInv(forest: seq<Block>, pieces: map<nat, Piece>, nextId: nat, countAlloc: nat, countFree: nat)
  {
    |forest| == 1 && forest[0].id == GLOBAL && forest[0].data.GeneralBlock?
    && UniqueAll(forest) && BareAll(forest)
    && (forall k :: k in IdsAll(forest) ==> k < nextId)
    && (forall k :: k in pieces ==> k < nextId && k !in IdsAll(forest) && pieces[k].owner in IdsAll(forest))
    && countAlloc + 1 == countFree + OutAll(forest)
  }

  /** Linking a fresh childless block under general block `src` keeps the
      invariant, counting one more allocation, and makes the block the
      first child of `src`. */
  lemma InsertStep(forest: seq<Block>, pieces: map<nat, Piece>, nextId: nat, countAlloc: nat, countFree: nat,
                   src: nat, info: Info)
    requires HeapInv(forest, pieces, nextId, countAlloc, countFree)
    requires src in IdsAll(forest) && Subtree(forest, src).data.GeneralBlock? && ChunkAllocs(info) == 0
    ensures var c := Node(nextId, info, []);
      var f := AddAll(forest, src, c);
      HeapInv(f, pieces, nextId + 1, countAlloc + 1, countFree)
      && FindAll(f, src) == Some(Subtree(forest, src).(kids := [c] + Subtree(forest, src).kids))
  {
    var c := Node(nextId, info, []);
    var none: seq<Block> := [];
    assert c.kids == none && OutAll(none) == 0 && IdsAll(none) == {} && UniqueAll(none) && BareAll(none);
    assert OutT(c) == 0 && Ids(c) == {nextId} && UniqueT(c) && BareT(c);
    OneRoot(forest[0]);
    OneRootAdd(forest[0], src, c);
    assert forest == [forest[0]];
    AddFactsAll(forest, src, c);
    AddAllFacts(forest, src, c);
  }

  /** Replacing the chunk list of general block `src` by one holding
      `added` more allocations keeps the invariant once those are counted,
      and keeps every id. */
  lemma ChunksStep(forest: seq<Block>, pieces: map<nat, Piece>, nextId: nat, countAlloc: nat, countFree: nat,
                   src: nat, info: Info, added: nat)
    requires HeapInv(forest, pieces, nextId, countAlloc, countFree)
    requires src in IdsAll(forest) && Subtree(forest, src).data.GeneralBlock? && info.GeneralBlock?
    requires ChunkAllocs(info) == ChunkAllocs(Subtree(forest, src).data) + added
    ensures HeapInv(SetDataAll(forest, src, info), pieces, nextId, countAlloc + added, countFree)
    ensures IdsAll(SetDataAll(forest, src, info)) == IdsAll(forest)
  {
    OneRoot(forest[0]);
    OneRootSet(forest[0], src, info);
    assert forest == [forest[0]];
    SetDataFactsAll(forest, src, info);
    SetDataAllFacts(forest, src, info);
  }

  /** Recording a fresh chunk-allocated block owned by a block of the
      tree keeps the invariant. */
  lemma PieceStep(forest: seq<Block>, pieces: map<nat, Piece>, nextId: nat, countAlloc: nat, countFree: nat, pc: Piece)
    requires HeapInv(forest, pieces, nextId, countAlloc, countFree) && pc.owner in IdsAll(forest)
    ensures HeapInv(forest, pieces[nextId := pc], nextId + 1, countAlloc, countFree)
  {
  }

  /** The chunk-allocated blocks whose owner is not among `gone`. */
  function Survivors(pieces: map<nat, Piece>, gone: set<nat>): (r: map<nat, Piece>)
    ensures forall k :: k in r <==> k in pieces && pieces[k].owner !in gone
    ensures forall k :: k in r ==> r[k] == pieces[k]
  {
    map k | k in pieces && pieces[k].owner !in gone :: pieces[k]
  }

  /** Carving a block out of the chunks of general block `src` keeps the
      invariant; a block carved out is counted and recorded under the
      next fresh id. */
  lemma ChunkStep(forest: seq<Block>, pieces: map<nat, Piece>, nextId: nat, countAlloc: nat, countFree: nat,
                  src: nat, size: nat, a: nat, pre: nat, sys: nat -> Option<nat>, chunked: bool)
    requires HeapInv(forest, pieces, nextId, countAlloc, countFree)
    requires src in IdsAll(forest) && Subtree(forest, src).data.GeneralBlock?
    requires a >= 1 && pre + CHUNK_HDR <= ALIGNMENT
    ensures var r := AllocChunkSpec(Subtree(forest, src).data.chunks, size, a, pre, sys);
      var f := SetDataAll(forest, src, GeneralBlock(r.1));
      (r.0.None? ==> HeapInv(f, pieces, nextId, countAlloc, countFree))
      && (r.0.Some? ==> HeapInv(f, pieces[nextId := Piece(src, chunked, r.0.value + pre)], nextId + 1, countAlloc + 1, countFree))
  {
    var cs := Subtree(forest, src).data.chunks;
    var r := AllocChunkSpec(cs, size, a, pre, sys);
    AllocChunkCounts(cs, size, a, pre, sys);
    var info := GeneralBlock(r.1);
    var added: nat := if r.0.Some? then 1 else 0;
    ChunksStep(forest, pieces, nextId, countAlloc, countFree, src, info, added);
    if r.0.Some? {
      PieceStep(SetDataAll(forest, src, info), pieces, nextId, countAlloc + 1, countFree, Piece(src, chunked, r.0.value + pre));
    }
  }

  /** Unlinking block `x`, dropping the chunk-allocated blocks owned in
      its subtree and counting the subtree as freed keeps the invariant. */
  lemma FreeStep(forest: seq<Block>, pieces: map<nat, Piece>, nextId: nat, countAlloc: nat, countFree: nat, x: nat)
    requires HeapInv(forest, pieces, nextId, countAlloc, countFree)
    requires x in IdsAll(forest) && x != GLOBAL
    ensures var sub := Subtree(forest, x);
      HeapInv(RemoveAll(forest, x), Survivors(pieces, Ids(sub)), nextId, countAlloc, countFree + 1 + OutT(sub))
  {
    OneRoot(forest[0]);
    OneRootRemove(forest[0], x);
    assert forest == [forest[0]];
    RemoveFactsAll(forest, x);
    RemoveAllFacts(forest, x);
  }

  /** Freeing the only child of a global context without chunks leaves
      nothing outstanding. */
  lemma FreeLast(g: Block, sub: Block, x: nat)
    requires g.id != x && sub.id == x && g.kids == [sub] && ChunkAllocs(g.data) == 0
    ensures OutAll(RemoveAll([g], x)) == 1
  {
    OneRoot(g);
    OneRootRemove(g, x);
    assert [sub][1..] == [];
    assert RemoveAll(g.kids, x) == [];
    OneRoot(RemoveT(g, x));
  }

  /** Moving block `ptr` to the head of the children of general block
      `src`, outside its own subtree, keeps the invariant and every id. */
  lemma ReassignStep(forest: seq<Block>, pieces: map<nat, Piece>, nextId: nat, countAlloc: nat, countFree: nat,
                     ptr: nat, src: nat)
    requires HeapInv(forest, pieces, nextId, countAlloc, countFree)
    requires ptr in IdsAll(forest) && ptr != GLOBAL
    requires src in IdsAll(forest) && Subtree(forest, src).data.GeneralBlock? && src !in Ids(Subtree(forest, ptr))
    ensures var sub := Subtree(forest, ptr);
      var rest := RemoveAll(forest, ptr);
      var f := AddAll(rest, src, sub);
      src in IdsAll(rest) && HeapInv(f, pieces, nextId, countAlloc, countFree) && IdsAll(f) == IdsAll(forest)
      && FindAll(f, src) == Some(Subtree(rest, src).(kids := [sub] + Subtree(rest, src).kids))
  {
    var sub := Subtree(forest, ptr);
    BareFindAll(forest, ptr);
    FindAllFacts(forest, ptr);
    OneRoot(forest[0]);
    OneRootRemove(forest[0], ptr);
    assert forest == [forest[0]];
    RemoveFactsAll(forest, ptr);
    RemoveAllFacts(forest, ptr);
    var rest := RemoveAll(forest, ptr);
    SubtreeAfterRemove(forest, ptr, src);
    FindAllFacts(rest, src);
    OneRoot(rest[0]);
    OneRootAdd(rest[0], src, sub);
    assert rest == [rest[0]];
    AddFactsAll(rest, src, sub);
    AddAllFacts(rest, src, sub);
  }

  /** The hierarchy of stb_alloc: the tree under the global context, the
      chunk-allocated blocks, a counter for fresh ids, and the debug
      counters stb_alloc_count_alloc and stb_alloc_count_free. */
  class StbHeap {
    var forest: seq<Block>
    var pieces: map<nat, Piece>
    var nextId: nat
    var countAlloc: nat
    var countFree: nat

    /** The shape, and the balance of the debug counters: every allocation
        not yet counted as freed is a block in the tree or a block in one
        of the tree's chunks. */
    predicate Valid()
      reads this
    {
      HeapInv(forest, pieces, nextId, countAlloc, countFree)
    }

    /** The counters start at zero and the global context has no chunks
        and no children. */
    constructor ()
      ensures Valid()
      ensures forest == [Node(GLOBAL, GeneralBlock([]), [])] && pieces == map[]
      ensures countAlloc == 0 && countFree == 0
    {
      var g := Node(GLOBAL, GeneralBlock([]), []);
      InitialForest(g);
      forest := [g];
      pieces := map[];
      nextId := GLOBAL + 1;
      countAlloc := 0;
      countFree := 0;
    }

    /** A pointer stb__get_context accepts: NULL, a general block, or a
        chunked block of a general block. */
    predicate ContextOk(ctx: Option<nat>)
      reads this
    {
      match ctx
      case None => true
      case Some(k) =>
        if k in pieces then
          pieces[k].chunked && pieces[k].owner in IdsAll(forest) && Subtree(forest, pieces[k].owner).data.GeneralBlock?
        else
          k in IdsAll(forest) && k != GLOBAL && Subtree(forest, k).data.GeneralBlock?
    }

    /** stb__get_context: the global context for NULL, the parent of a
        chunked block, the block itself otherwise. */
    function Context(ctx: Option<nat>): (src: nat)
      reads this
      requires Valid() && ContextOk(ctx)
      ensures src in IdsAll(forest) && Subtree(forest, src).data.GeneralBlock?
    {
      OneRoot(forest[0]);
      match ctx
      case None => GLOBAL
      case Some(k) => if k in pieces then pieces[k].owner else k
    }

    /** malloc_base: choose the alignment and type, then allocate a general
        or leaf block with its own header at the head of the context's
        children, or carve a raw or chunked block out of the context's
        chunks.  `sys` is the system allocator. */
    method MallocBase(ctx: Option<nat>, size: nat, t: AllocType, align: int, negShift: int, sys: nat -> Option<nat>)
      returns (p: Option<nat>)
      requires Valid() && ContextOk(ctx)
      requires ChooseAlign(size, align, negShift) >= 1 && PowerOfTwo(ChooseAlign(size, align, negShift))
      modifies this
      ensures Valid()
      ensures countFree == old(countFree)
      ensures p.Some? ==> p.value == old(nextId) && countAlloc == old(countAlloc) + 1 && nextId == old(nextId) + 1
      ensures p.None? ==> countAlloc == old(countAlloc) && nextId == old(nextId) && pieces == old(pieces)
      ensures var kind := Promote(t, ChooseAlign(size, align, negShift));
        var hdr := if kind == Alloc then ALLOC_HDR else NOCHILD_HDR;
        var info := if kind == Alloc then GeneralBlock([]) else LeafBlock;
        var src := old(Context(ctx));
        (kind == Alloc || kind == NoChildren) ==>
          (p.Some? <==> sys(size + hdr).Some?)
          && pieces == old(pieces)
          && (p.None? ==> forest == old(forest))
          && (p.Some? ==> forest == AddAll(old(forest), src, Node(p.value, info, []))
                          && FindAll(forest, src) == Some(old(Subtree(forest, src)).(kids := [Node(p.value, info, [])] + old(Subtree(forest, src)).kids)))
      ensures var a := ChooseAlign(size, align, negShift);
        var kind := Promote(t, a);
        var src := old(Context(ctx));
        var a2 := if kind == Chunked && a < UINTPTR_SZ as int then UINTPTR_SZ else a as nat;
        var pre := if kind == Chunked then CHUNKED_HDR else 0;
        var r := AllocChunkSpec(old(Subtree(forest, src).data.chunks), size, a2, pre, sys);
        (kind == Chunked || kind == ChunkRaw) ==>
          forest == SetDataAll(old(forest), src, GeneralBlock(r.1))
          && (p.Some? <==> r.0.Some?)
          && (p.Some? ==> pieces == old(pieces)[p.value := Piece(src, kind == Chunked, r.0.value + pre)])
    {
      var src := Context(ctx);
      var a := ChooseAlign(size, align, negShift);
      var kind := Promote(t, a);
      if kind == Alloc || kind == NoChildren {
        var hdr := if kind == Alloc then ALLOC_HDR else NOCHILD_HDR;
        var info := if kind == Alloc then GeneralBlock([]) else LeafBlock;
        var s := sys(size + hdr);
        if s.None? {
          return None;
        }
        var id := InsertBlock(src, info);
        p := Some(id);
      } else {
        var a2: nat := if kind == Chunked && a < UINTPTR_SZ as int then UINTPTR_SZ else a as nat;
        var pre := if kind == Chunked then CHUNKED_HDR else 0;
        p := ChunkBlock(src, size, a2, pre, sys, kind == Chunked);
      }
    }

    /** stb__insert_alloc / stb__insert_nochild: link a fresh block with no
        children at the head of the children of general block `src`. */
    method InsertBlock(src: nat, info: Info) returns (id: nat)
      requires Valid() && src in IdsAll(forest) && Subtree(forest, src).data.GeneralBlock?
      requires info == LeafBlock || info == GeneralBlock([])
      modifies this
      ensures Valid()
      ensures id == old(nextId) && nextId == old(nextId) + 1
      ensures countAlloc == old(countAlloc) + 1 && countFree == old(countFree) && pieces == old(pieces)
      ensures forest == AddAll(old(forest), src, Node(id, info, []))
      ensures FindAll(forest, src) == Some(old(Subtree(forest, src)).(kids := [Node(id, info, [])] + old(Subtree(forest, src)).kids))
    {
      id := nextId;
      assert ChunkAllocs(info) == 0;
      InsertStep(forest, pieces, nextId, countAlloc, countFree, src, info);
      forest := AddAll(forest, src, Node(id, info, []));
      nextId := nextId + 1;
      countAlloc := countAlloc + 1;
    }

    /** The chunk cases of malloc_base: carve a block out of the chunk list
        of general block `src` with `pre` header bytes, and record it. */
    method ChunkBlock(src: nat, size: nat, a: nat, pre: nat, sys: nat -> Option<nat>, chunked: bool)
      returns (p: Option<nat>)
      requires Valid() && src in IdsAll(forest) && Subtree(forest, src).data.GeneralBlock?
      requires a >= 1 && pre + CHUNK_HDR <= ALIGNMENT
      modifies this
      ensures Valid()
      ensures countFree == old(countFree)
      ensures var r := AllocChunkSpec(old(Subtree(forest, src).data.chunks), size, a, pre, sys);
        forest == SetDataAll(old(forest), src, GeneralBlock(r.1))
        && (p.Some? <==> r.0.Some?)
        && (p.Some? ==> p.value == old(nextId) && nextId == old(nextId) + 1 && countAlloc == old(countAlloc) + 1
                        && pieces == old(pieces)[p.value := Piece(src, chunked, r.0.value + pre)])
        && (p.None? ==> nextId == old(nextId) && countAlloc == old(countAlloc) && pieces == old(pieces))
    {
      var id := nextId;
      var r := AllocChunkSpec(Subtree(forest, src).data.chunks, size, a, pre, sys);
      ChunkStep(forest, pieces, nextId, countAlloc, countFree, src, size, a, pre, sys, chunked);
      if r.0.None? {
        forest := SetDataAll(forest, src, GeneralBlock(r.1));
        return None;
      }
      forest, pieces := SetDataAll(forest, src, GeneralBlock(r.1)), pieces[id := Piece(src, chunked, r.0.value + pre)];
      nextId, countAlloc := nextId + 1, countAlloc + 1;
      p := Some(id);
    }
    /** The frees stb_free counts for block `t`, and the blocks it hands
        back in order: a leaf is freed alone; a general block counts
        itself and every block in its chunks, then frees its children one
        after the other from the head of its list, then itself. */
    method FreeWalk(t: Block) returns (freed: nat, order: seq<nat>)
      requires BareT(t)
      ensures freed == 1 + OutT(t) && order == FreeOrderT(t)
      decreases t
    {
      freed := 1;
      if t.data.LeafBlock? {
        order := [t.id];
        assert FreeOrderAll(t.kids) == [];
        return;
      }
      var cs := t.data.chunks;
      var i := 0;
      while i < |cs|
        invariant 0 <= i <= |cs|
        invariant freed + AllocSum(cs[i..]) == 1 + AllocSum(cs)
      {
        assert cs[i..][1..] == cs[i + 1..];
        freed := freed + cs[i].alloc;
        i := i + 1;
      }
      order := [];
      var j := 0;
      assert t.kids[0..] == t.kids;
      while j < |t.kids|
        invariant 0 <= j <= |t.kids|
        invariant freed + OutAll(t.kids[j..]) == 1 + OutT(t)
        invariant order + FreeOrderAll(t.kids[j..]) == FreeOrderAll(t.kids)
      {
        BareAllAt(t.kids, j);
        var f, o := FreeWalk(t.kids[j]);
        assert t.kids[j..][1..] == t.kids[j + 1..];
        freed := freed + f;
        order := order + o;
        j := j + 1;
      }
      order := order + [t.id];
    }

    /** stb_free.  NULL and a chunked block change nothing (a chunked block
        is counted and uncounted at once).  A leaf or general block is
        unlinked from its parent's list, and it and everything under it
        is freed and counted, together with the blocks in the freed chunks. */
    method Free(h: Option<nat>) returns (released: seq<nat>)
      requires Valid()
      requires h.Some? ==> (h.value in pieces && pieces[h.value].chunked) || (h.value in IdsAll(forest) && h.value != GLOBAL)
      modifies this
      ensures Valid()
      ensures countAlloc == old(countAlloc) && nextId == old(nextId)
      ensures h.None? || h.value in old(pieces) ==>
        forest == old(forest) && pieces == old(pieces) && countFree == old(countFree) && released == []
      ensures h.Some? && h.value !in old(pieces) ==>
        var sub := old(Subtree(forest, h.value));
        forest == RemoveAll(old(forest), h.value)
        && countFree == old(countFree) + 1 + OutT(sub)
        && released == FreeOrderT(sub)
        && pieces == Survivors(old(pieces), Ids(sub))
      ensures (h.Some? && h.value !in old(pieces) && old(forest[0].kids) == [old(Subtree(forest, h.value))]
               && ChunkAllocs(old(forest[0].data)) == 0) ==> countAlloc == countFree
    {
      if h.None? || h.value in pieces {
        return [];
      }
      var x := h.value;
      var g := forest[0];
      var sub := Subtree(forest, x);
      BareFindAll(forest, x);
      var freed, order := FreeWalk(sub);
      FreeStep(forest, pieces, nextId, countAlloc, countFree, x);
      forest := RemoveAll(forest, x);
      pieces := Survivors(pieces, Ids(sub));
      countFree := countFree + freed;
      released := order;
      if g.kids == [sub] && ChunkAllocs(g.data) == 0 {
        FreeLast(g, sub, x);
      }
    }

    /** stb_reassign: unlink a general or leaf block from its parent's list
        and put it at the head of the new context's children. */
    method Reassign(newCtx: Option<nat>, ptr: nat)
      requires Valid() && ContextOk(newCtx)
      requires ptr !in pieces && ptr in IdsAll(forest) && ptr != GLOBAL
      requires Context(newCtx) !in Ids(Subtree(forest, ptr))
      modifies this
      ensures Valid()
      ensures pieces == old(pieces) && nextId == old(nextId)
      ensures countAlloc == old(countAlloc) && countFree == old(countFree)
      ensures var sub := old(Subtree(forest, ptr));
        var src := old(Context(newCtx));
        var rest := RemoveAll(old(forest), ptr);
        forest == AddAll(rest, src, sub) && IdsAll(forest) == old(IdsAll(forest))
        && src in IdsAll(rest) && FindAll(forest, src) == Some(Subtree(rest, src).(kids := [sub] + Subtree(rest, src).kids))
    {
      var src := Context(newCtx);
      var sub := Subtree(forest, ptr);
      ReassignStep(forest, pieces, nextId, countAlloc, countFree, ptr, src);
      forest := AddAll(RemoveAll(forest, ptr), src, sub);
    }
  }

  /** Unlinking one block leaves the other blocks' own data alone. */
  lemma SubtreeAfterRemove(ts: seq<Block>, x: nat, y: nat)
    requires UniqueAll(ts) && x in IdsAll(ts) && y in IdsAll(ts) && y !in Ids(Subtree(ts, x))
    ensures y in IdsAll(RemoveAll(ts, x)) && Subtree(RemoveAll(ts, x), y).data == Subtree(ts, y).data
  {
    RemoveAllKeeps(ts, x, y);
  }
}

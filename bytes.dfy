/**
 * Shared vocabulary for the C headers modelled in this project: bytes,
 * optional values, the 32-bit and 64-bit unsigned ranges, the little-endian
 * layout of a stored uint32, and the two library routines every header uses
 * on raw buffers (memcpy out of and into a buffer).
 */
module Bytes {

  /** An unsigned char. */
  newtype uint8 = x: int | 0 <= x < 256

  /** A C pointer that may be NULL, or a value that may be absent. */
  datatype Option<T> = None | Some(value: T)

  /** 2^32, the modulus of `unsigned int` / `uint32_t` arithmetic. */
  const U32: nat := 0x1_0000_0000

  /** 2^64, the modulus of `size_t` arithmetic (64-bit targets). */
  const U64: nat := 0x1_0000_0000_0000_0000

  /** `size_t` maximum, `SIZE_MAX`. */
  const SIZE_MAX: nat := U64 - 1

  /** `n` zero bytes, what `memset(p, 0, n)` leaves behind. */
  function Zeros(n: nat): (z: seq<uint8>)
    ensures |z| == n
    ensures forall i :: 0 <= i < n ==> z[i] == 0
  {
    seq(n, _ => 0)
  }

  /** What `memcpy(p, src, n)` or, for a NULL `src`, `memset(p, 0, n)` writes. */
  function OrZeros(n: nat, src: Option<seq<uint8>>): (z: seq<uint8>)
    requires src.Some? ==> |src.value| == n
    ensures |z| == n
    ensures src.None? ==> forall k :: 0 <= k < n ==> z[k] == 0
    ensures src.Some? ==> z == src.value
  {
    if src.Some? then src.value else Zeros(n)
  }

  /** A raw pointer: a heap buffer and an offset into it.  The bytes before
      `off` are the memory the pointer may look back into. */
  datatype Ptr = Ptr(buf: array<uint8>, off: nat)

  /** What a routine hands to free(): nothing, or a buffer at an offset. */
  datatype FreeCall = NoCall | FreeAt(buf: array<uint8>, at: nat)

  /** The four bytes a uint32 store leaves in memory on a little-endian target. */
  function LE32(x: nat): (b: seq<uint8>)
    requires x < U32
    ensures |b| == 4
  {
    [(x % 256) as uint8, (x / 256 % 256) as uint8, (x / 65536 % 256) as uint8, (x / 16777216) as uint8]
  }

  /** The uint32 a load of four bytes yields on a little-endian target. */
  function FromLE32(b: seq<uint8>): (x: nat)
    requires |b| == 4
    ensures x < U32
  {
    b[0] as nat + 256 * b[1] as nat + 65536 * b[2] as nat + 16777216 * b[3] as nat
  }

  /** A stored word reads back unchanged. */
  lemma LE32RoundTrip(x: nat)
    requires x < U32
    ensures FromLE32(LE32(x)) == x
  {
    var q1, q2, q3 := x / 256, x / 256 / 256, x / 256 / 256 / 256;
    var r0, r1, r2 := x % 256, q1 % 256, q2 % 256;
    assert x == 256 * q1 + r0 && q1 == 256 * q2 + r1 && q2 == 256 * q3 + r2;
    ModUnique(x, 65536, q2, r0 + 256 * r1);
    ModUnique(x, 16777216, q3, r0 + 256 * r1 + 65536 * r2);
  }

  /** Four loaded bytes, stored again, are the same four bytes: the two directions
      together make the uint32 comparison of `isvalid` a comparison of bytes. */
  lemma FromLE32RoundTrip(b: seq<uint8>)
    requires |b| == 4
    ensures LE32(FromLE32(b)) == b
  {
    var x := FromLE32(b);
    var b0, b1, b2, b3 := b[0] as nat, b[1] as nat, b[2] as nat, b[3] as nat;
    ModUnique(x, 256, b1 + 256 * b2 + 65536 * b3, b0);
    ModUnique(x / 256, 256, b2 + 256 * b3, b1);
    ModUnique(x, 65536, b2 + 256 * b3, b0 + 256 * b1);
    ModUnique(x / 65536, 256, b3, b2);
    ModUnique(x, 16777216, b3, b0 + 256 * b1 + 65536 * b2);
    assert LE32(x) == [b0 as uint8, b1 as uint8, b2 as uint8, b3 as uint8];
  }

  /** A product strictly between -cap and cap has a zero factor. */
  lemma MulZero(a: int, cap: int)
    requires cap > 0 && -cap < a * cap < cap
    ensures a == 0
  {
  }

  /** Euclidean division is unique: quotient and remainder are determined. */
  lemma ModUnique(x: int, cap: int, q: int, r: int)
    requires cap > 0 && 0 <= r < cap && x == q * cap + r
    ensures x % cap == r && x / cap == q
  {
    var q2, r2 := x / cap, x % cap;
    assert x == q2 * cap + r2;
    assert (q - q2) * cap == r2 - r;
    MulZero(q - q2, cap);
  }

  /** Adding whole multiples of 2^32 does not change an unsigned 32-bit value. */
  lemma ModPeriod(a: int, k: int)
    ensures (a + k * U32) % U32 == a % U32
  {
    ModUnique(a + k * U32, U32, a / U32 + k, a % U32);
  }

  /** Two values equal modulo 2^32 stay equal after adding the same amount. */
  lemma CongShift(a: int, b: int, k: int)
    requires a % U32 == b % U32
    ensures (a + k) % U32 == (b + k) % U32
  {
    ModPeriod(a + k, -(a / U32));
    ModPeriod(b + k, -(b / U32));
    assert a + k - (a / U32) * U32 == a % U32 + k;
    assert b + k - (b / U32) * U32 == b % U32 + k;
  }

  /** Reducing an operand modulo 2^32 first does not change a 32-bit sum. */
  lemma ModAdd(x: int, y: int)
    ensures (x % U32 + y) % U32 == (x + y) % U32
  {
    ModPeriod(x % U32 + y, x / U32);
    assert x % U32 + y + (x / U32) * U32 == x + y;
  }

  /** A size_t value truncated to 32 bits is its low 32 bits. */
  lemma ModWide(x: int)
    ensures (x % U64) % U32 == x % U32
  {
    ModPeriod(x % U64, (x / U64) * U32);
    assert x % U64 + ((x / U64) * U32) * U32 == x;
  }

  /** memcpy(dst + at, src, |src|): the bytes at [at, at + |src|) become `src`,
      every other byte of `dst` keeps its value. */
  method CopyInto(dst: array<uint8>, at: nat, src: seq<uint8>)
    requires at + |src| <= dst.Length
    modifies dst
    ensures dst[..] == old(dst[..at]) + src + old(dst[at + |src|..])
  {
    var k := 0;
    while k < |src|
      invariant 0 <= k <= |src|
      invariant forall j :: 0 <= j < dst.Length ==> dst[j] == if at <= j < at + k then src[j - at] else old(dst[j])
    {
      dst[at + k] := src[k];
      k := k + 1;
    }
    assert dst[..] == old(dst[..at]) + src + old(dst[at + |src|..]) by {
      var r := old(dst[..at]) + src + old(dst[at + |src|..]);
      assert |r| == dst.Length;
      forall j | 0 <= j < dst.Length ensures dst[j] == r[j] {
        if j < at {
        } else if j < at + |src| {
        } else {
        }
      }
    }
  }

  /** memcpy(out, src + from, n): the `n` bytes of `src` starting at `from`. */
  method CopyOut(src: array<uint8>, from: nat, n: nat) returns (out: seq<uint8>)
    requires from + n <= src.Length
    ensures out == src[from..from + n]
  {
    out := [];
    var k := 0;
    while k < n
      invariant 0 <= k <= n
      invariant out == src[from..from + k]
    {
      out := out + [src[from + k]];
      k := k + 1;
    }
  }

  /** Two buffers that agree on their first `n` bytes agree on every slice
      of them. */
  lemma PrefixSlice(b: seq<uint8>, b2: seq<uint8>, n: nat, i: nat, j: nat)
    requires i <= j <= n <= |b| && n <= |b2| && b2[..n] == b[..n]
    ensures b2[i..j] == b[i..j]
  {
    assert b2[i..j] == b2[..n][i..j];
    assert b[i..j] == b[..n][i..j];
  }

  /** A buffer laid out as an empty head, `src` and a tail begins with `src`. */
  lemma CopiedHead(x: seq<uint8>, head: seq<uint8>, src: seq<uint8>, tail: seq<uint8>)
    requires x == head + src + tail && head == []
    ensures x[..|src|] == src
  {
    assert x == src + tail;
  }
}

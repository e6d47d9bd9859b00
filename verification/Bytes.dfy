/**
 * Fixed-width integers and their little-endian byte layout.
 *
 * The codec reinterprets raw memory as packed structures on a little-endian
 * host; here every such read and write is an explicit function on bytes.
 * The C conversions between `int`, `unsigned short` (WORD) and
 * `unsigned int` (DWORD) are written out as the modular reductions they are.
 */
module Bytes {

  type byte = x: int | 0 <= x < 0x100
  /** The C `int` of the source: 32-bit two's complement. */
  type int32 = x: int | -0x8000_0000 <= x < 0x8000_0000

  const TwoTo16: int := 0x1_0000
  const TwoTo31: int := 0x8000_0000
  const TwoTo32: int := 0x1_0000_0000

  /** Conversion of any integer to WORD (`unsigned short`): the residue modulo 2^16. */
  function ToWord(x: int): (w: nat)
    ensures w < TwoTo16 && (x - w) % TwoTo16 == 0
    ensures 0 <= x < TwoTo16 ==> w == x
  {
    x % TwoTo16
  }

  /** Conversion of any integer to DWORD (`unsigned int`): the residue modulo 2^32. */
  function ToDword(x: int): (w: nat)
    ensures w < TwoTo32 && (x - w) % TwoTo32 == 0
    ensures 0 <= x < TwoTo32 ==> w == x
  {
    x % TwoTo32
  }

  /** Conversion of any integer to `int` as two's-complement hardware does it. */
  function ToInt32(x: int): (v: int32)
    ensures (x - v) % TwoTo32 == 0
    ensures -TwoTo31 <= x < TwoTo31 ==> v == x
    ensures TwoTo31 <= x < TwoTo32 ==> v < 0
  {
    var w := x % TwoTo32;
    if w < TwoTo31 then w else w - TwoTo32
  }

  /** A 16-bit little-endian field: low byte first. */
  function U16(b: seq<byte>): (v: nat)
    requires |b| == 2
    ensures v < TwoTo16
  {
    b[0] as int + 0x100 * b[1] as int
  }

  /** A 32-bit unsigned little-endian field: the low half first. */
  function U32(b: seq<byte>): (v: nat)
    requires |b| == 4
    ensures v < TwoTo32
  {
    U16(b[..2]) + TwoTo16 * U16(b[2..])
  }

  /** A 32-bit signed little-endian field: the unsigned bit pattern read as `int`. */
  function I32(b: seq<byte>): (v: int32)
    requires |b| == 4
    ensures (v - U32(b)) % TwoTo32 == 0
    ensures v < 0 <==> U32(b) >= TwoTo31
  {
    ToInt32(U32(b))
  }

  function LeU16(w: nat): (b: seq<byte>)
    requires w < TwoTo16
    ensures |b| == 2 && U16(b) == w
  {
    [w % 0x100, w / 0x100]
  }

  function LeU32(w: nat): (b: seq<byte>)
    requires w < TwoTo32
    ensures |b| == 4 && U32(b) == w
  {
    var lo, hi := LeU16(w % TwoTo16), LeU16(w / TwoTo16);
    assert (lo + hi)[..2] == lo && (lo + hi)[2..] == hi;
    lo + hi
  }

  /** An `int` stored as its two's-complement bit pattern. */
  function LeI32(v: int32): (b: seq<byte>)
    ensures |b| == 4 && I32(b) == v
  {
    LeU32(ToDword(v))
  }

  /** Two bytes are determined by the 16-bit value they encode. */
  lemma LeU16OfU16(b: seq<byte>)
    requires |b| == 2
    ensures LeU16(U16(b)) == b
  {
    var w := U16(b);
    assert w % 0x100 == b[0] && w / 0x100 == b[1];
  }

  /** Four bytes are determined by the 32-bit value they encode. */
  lemma LeU32OfU32(b: seq<byte>)
    requires |b| == 4
    ensures LeU32(U32(b)) == b
  {
    var lo, hi := U16(b[..2]), U16(b[2..]);
    var w := U32(b);
    assert w % TwoTo16 == lo && w / TwoTo16 == hi;
    LeU16OfU16(b[..2]);
    LeU16OfU16(b[2..]);
    assert b == b[..2] + b[2..];
  }

  /** Four bytes are determined by the `int` they encode. */
  lemma LeI32OfI32(b: seq<byte>)
    requires |b| == 4
    ensures LeI32(I32(b)) == b
  {
    var u := U32(b);
    assert ToDword(ToInt32(u)) == u;
    LeU32OfU32(b);
  }

  /** Comparing two 4-byte words compares their bytes. */
  lemma U32Injective(a: seq<byte>, b: seq<byte>)
    requires |a| == 4 && |b| == 4
    ensures U32(a) == U32(b) <==> a == b
  {
    LeU32OfU32(a);
    LeU32OfU32(b);
  }
}

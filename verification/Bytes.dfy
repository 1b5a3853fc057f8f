/** Bytes and the little-endian words of Go's encoding/binary. */
module Bytes {
  newtype byte = b: int | 0 <= b < 256

  type uint16 = n: int | 0 <= n < 0x1_0000
  type uint32 = n: int | 0 <= n < 0x1_0000_0000
  type int32 = n: int | -0x8000_0000 <= n < 0x8000_0000

  function PutLe16(n: uint16): (b: seq<byte>)
    ensures |b| == 2
  {
    [(n % 256) as byte, (n / 256) as byte]
  }

  function PutLe32(n: uint32): (b: seq<byte>)
    ensures |b| == 4
  {
    [(n % 256) as byte, (n / 256 % 256) as byte, (n / 256 / 256 % 256) as byte, (n / 256 / 256 / 256) as byte]
  }

  /** Lowest byte first. */
  lemma {:induction false} LowestFirst(a: byte, b: byte, c: byte, d: byte)
    ensures PutLe16(a as int + 256 * b as int) == [a, b]
    ensures PutLe32(a as int + 256 * (b as int + 256 * (c as int + 256 * d as int))) == [a, b, c, d]
  {
    var high := c as int + 256 * d as int;
    var mid := b as int + 256 * high;
    var n := a as int + 256 * mid;
    assert n / 256 == mid && mid / 256 == high && high / 256 == d as int;
  }

  /** The word at off, 0 when it does not fit, as the save check reads it. */
  function Le16(b: seq<byte>, off: nat): uint16 {
    if |b| < off + 2 then 0 else b[off] as int + 256 * b[off + 1] as int
  }

  function Le32(b: seq<byte>, off: nat): uint32 {
    if |b| < off + 4 then 0
    else b[off] as int + 256 * (b[off + 1] as int + 256 * (b[off + 2] as int + 256 * b[off + 3] as int))
  }

  lemma {:induction false} Le16RoundTrip(n: uint16, b: seq<byte>)
    ensures Le16(PutLe16(n), 0) == n
    ensures |b| == 2 ==> PutLe16(Le16(b, 0)) == b
  {
  }

  lemma {:induction false} Le32OfPut(n: uint32)
    ensures Le32(PutLe32(n), 0) == n
  {
  }

  lemma {:induction false} PutOfLe32(b: seq<byte>)
    requires |b| == 4
    ensures PutLe32(Le32(b, 0)) == b
  {
    var high := b[2] as int + 256 * b[3] as int;
    var mid := b[1] as int + 256 * high;
    assert Le32(b, 0) == b[0] as int + 256 * mid;
    assert Le32(b, 0) / 256 == mid && mid / 256 == high && high / 256 == b[3] as int;
  }

  /** The word at off is the word of the four bytes there. */
  lemma {:induction false} Le32At(b: seq<byte>, off: nat)
    requires off + 4 <= |b|
    ensures Le32(b, off) == Le32(b[off..off + 4], 0)
    ensures PutLe32(Le32(b, off)) == b[off..off + 4]
  {
    PutOfLe32(b[off..off + 4]);
  }

  /** A word written between other bytes is read back where it was put. */
  lemma {:induction false} WordIn(a: seq<byte>, n: uint32, b: seq<byte>, off: nat)
    requires off == |a|
    ensures Le32(a + PutLe32(n) + b, off) == n
  {
    Le32OfPut(n);
    hide PutLe32, Le32;
    var s := a + PutLe32(n) + b;
    assert s[off..off + 4] == PutLe32(n);
    Le32At(s, off);
  }

  function BitsOf(i: int32): uint32 { if i < 0 then i + 0x1_0000_0000 else i }

  function SignedOf(n: uint32): int32 { if n >= 0x8000_0000 then n - 0x1_0000_0000 else n }

  lemma {:induction false} BitsAndSigned(i: int32, n: uint32)
    ensures SignedOf(BitsOf(i)) == i && BitsOf(SignedOf(n)) == n
  {
  }
}

/** Machine integers, big-endian values and the CoAP status codes the datagram code returns. */
module Bytes {
  type byte = x: int | 0 <= x < 0x100
  type uint16 = x: int | 0 <= x < 0x1_0000
  type uint32 = x: int | 0 <= x < 0x1_0000_0000

  const NO_ERROR: byte := 0x00
  const BAD_REQUEST: byte := 0x80
  const BAD_OPTION: byte := 0x82
  const NOT_ACCEPTABLE: byte := 0x86
  const REQUEST_ENTITY_TOO_LARGE: byte := 0x8D
  const INTERNAL_SERVER_ERROR: byte := 0xA0

  /** The 16-bit number of two bytes, high byte first. */
  function Word(high: byte, low: byte): (v: uint16) {
    0x100 * (high as int) + low as int
  }

  /** The number a big-endian byte string stands for (section 3.2 of RFC 7252). */
  function BigEndian(b: seq<byte>): (v: nat) {
    if b == [] then 0 else 0x100 * BigEndian(b[..|b| - 1]) + b[|b| - 1]
  }

  /** The shortest big-endian byte string of a number; zero is the empty string. */
  function MinimalBytes(v: nat): (b: seq<byte>) {
    if v == 0 then [] else MinimalBytes(v / 0x100) + [v % 0x100]
  }

  predicate NoLeadingZero(b: seq<byte>) {
    b != [] ==> b[0] != 0
  }

  lemma {:induction false} MinimalBytesIsMinimal(v: nat)
    ensures NoLeadingZero(MinimalBytes(v))
    ensures BigEndian(MinimalBytes(v)) == v
  {
    if v == 0 {
    } else {
      MinimalBytesIsMinimal(v / 0x100);
      var front := MinimalBytes(v / 0x100);
      assert MinimalBytes(v)[..|front|] == front;
      assert v < 0x100 ==> front == [];
    }
  }

  lemma {:induction false} MinimalBytesLength(v: nat)
    ensures v < 0x1_0000_0000 ==> |MinimalBytes(v)| <= 4
    ensures v < 0x100_0000 ==> |MinimalBytes(v)| <= 3
    ensures v < 0x1_0000 ==> |MinimalBytes(v)| <= 2
    ensures v < 0x100 ==> |MinimalBytes(v)| <= 1
    ensures v >= 1 ==> |MinimalBytes(v)| >= 1
    ensures v >= 0x100 ==> |MinimalBytes(v)| >= 2
    ensures v >= 0x1_0000 ==> |MinimalBytes(v)| >= 3
    ensures v >= 0x100_0000 ==> |MinimalBytes(v)| >= 4
  {
    if v == 0 {
    } else {
      MinimalBytesLength(v / 0x100);
    }
  }

  lemma {:induction false} BigEndianBound(b: seq<byte>)
    ensures |b| <= 4 ==> BigEndian(b) < 0x1_0000_0000
    ensures |b| <= 3 ==> BigEndian(b) < 0x100_0000
    ensures |b| <= 2 ==> BigEndian(b) < 0x1_0000
    ensures |b| <= 1 ==> BigEndian(b) < 0x100
    ensures |b| == 0 ==> BigEndian(b) == 0
  {
    if b == [] {
    } else {
      BigEndianBound(b[..|b| - 1]);
    }
  }

  lemma {:induction false} BigEndianPositive(b: seq<byte>)
    requires b != [] && b[0] != 0
    ensures BigEndian(b) > 0
  {
    if |b| <= 1 {
    } else {
      BigEndianPositive(b[..|b| - 1]);
    }
  }

  lemma MinimalBytesAppend(v: nat, last: byte)
    ensures MinimalBytes(0x100 * v + last) == if v == 0 && last == 0 then [] else MinimalBytes(v) + [last]
  {
  }

  /** Reading a byte string and writing it back never makes it longer, and gives it
      back unchanged exactly when it has no leading zero. */
  lemma {:induction false} MinimalBytesOfBigEndian(b: seq<byte>)
    ensures NoLeadingZero(b) ==> MinimalBytes(BigEndian(b)) == b
    ensures !NoLeadingZero(b) ==> |MinimalBytes(BigEndian(b))| < |b|
  {
    if b == [] {
    } else {
      var front, last := b[..|b| - 1], b[|b| - 1];
      MinimalBytesOfBigEndian(front);
      MinimalBytesAppend(BigEndian(front), last);
      if b[0] != 0 {
        BigEndianPositive(b);
        assert b == front + [last];
      }
    }
  }

  /** One more byte at the end of a big-endian string. */
  lemma BigEndianAppend(b: seq<byte>, x: byte)
    ensures BigEndian(b + [x]) == 0x100 * BigEndian(b) + x
  {
  }
}

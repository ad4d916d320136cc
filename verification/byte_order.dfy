/** Bytes, 32-bit words and the two byte orders that meet on the NTP wire.

    `BitConverter` is modelled for a little-endian host: it reads and writes
    the least significant byte first, while NTP fields are big-endian
    (network order). */
module ByteOrder {

  type Byte = x: int | 0 <= x < 0x100
  type UInt32 = x: int | 0 <= x < 0x1_0000_0000
  type UInt64 = x: int | 0 <= x < 0x1_0000_0000_0000_0000

  const TwoTo31: int := 0x8000_0000
  const TwoTo32: int := 0x1_0000_0000

  /** Byte `k` of `x`, counting from the least significant one: `(x >> 8k) & 0xff`. */
  function ByteOf(x: nat, k: nat): Byte
    requires k < 4
  {
    match k
    case 0 => x % 0x100
    case 1 => x / 0x100 % 0x100
    case 2 => x / 0x100 / 0x100 % 0x100
    case _ => x / 0x100 / 0x100 / 0x100 % 0x100
  }

  /** The unsigned value of four bytes stored least significant first
      (`BitConverter.ToUInt32`). */
  function LeValue(b: seq<Byte>): (r: UInt32)
    requires |b| == 4
    ensures r % 0x100 == b[0]
    ensures r == BeValue([b[3], b[2], b[1], b[0]])
  {
    b[0] as int + 0x100 * b[1] as int + 0x1_0000 * b[2] as int + 0x100_0000 * b[3] as int
  }

  /** The unsigned value of four bytes in network order, most significant first. */
  function BeValue(b: seq<Byte>): UInt32
    requires |b| == 4
  {
    0x100_0000 * b[0] as int + 0x1_0000 * b[1] as int + 0x100 * b[2] as int + b[3] as int
  }

  /** The four bytes of `x`, least significant first (`BitConverter.GetBytes(uint)`). */
  function LeBytes(x: UInt32): (r: seq<Byte>)
    ensures |r| == 4
    ensures LeValue(r) == x
  {
    LemmaByteDecomposition(x);
    [ByteOf(x, 0), ByteOf(x, 1), ByteOf(x, 2), ByteOf(x, 3)]
  }

  /** The four bytes of `x` in network order. */
  function BeBytes(x: UInt32): (r: seq<Byte>)
    ensures |r| == 4
    ensures BeValue(r) == x
  {
    LemmaByteDecomposition(x);
    [ByteOf(x, 3), ByteOf(x, 2), ByteOf(x, 1), ByteOf(x, 0)]
  }

  /** The signed value of four bytes stored least significant first, read as a
      two's-complement 32-bit integer (`BitConverter.ToInt32`). */
  function SignedLeValue(b: seq<Byte>): (r: int)
    requires |b| == 4
    ensures -TwoTo31 <= r < TwoTo31
    ensures r % TwoTo32 == LeValue(b)
    ensures (r < 0) == (b[3] >= 0x80)
  {
    var v := LeValue(b);
    if v >= TwoTo31 then v - TwoTo32 else v
  }

  /** Every 32-bit word is the weighted sum of its four bytes. */
  lemma LemmaByteDecomposition(x: UInt32)
    ensures x == ByteOf(x, 0) + 0x100 * ByteOf(x, 1) + 0x1_0000 * ByteOf(x, 2) + 0x100_0000 * ByteOf(x, 3)
  {
    var q1 := x / 0x100;
    var q2 := q1 / 0x100;
    var q3 := q2 / 0x100;
    assert x == 0x100 * q1 + ByteOf(x, 0);
    assert q1 == 0x100 * q2 + ByteOf(x, 1);
    assert q2 == 0x100 * q3 + ByteOf(x, 2);
    assert q3 == ByteOf(x, 3);
  }

  /** Writing a word's bytes and reading them back in the same order are inverse:
      reading then writing gives back the same four bytes. */
  lemma LemmaLeBytesOfLeValue(b: seq<Byte>)
    requires |b| == 4
    ensures LeBytes(LeValue(b)) == b
  {
    var x := LeValue(b);
    var q2 := b[2] as int + 0x100 * b[3] as int;
    var q1 := b[1] as int + 0x100 * q2;
    assert x == b[0] as int + 0x100 * q1;
    assert x / 0x100 == q1;
    assert q1 / 0x100 == q2;
    assert q2 / 0x100 == b[3];
  }
}

/** Bytes and the 32-bit little-endian integer layout of `encoding/binary`. */
module Bytes {

  type byte = b: int | 0 <= b < 0x100

  /** One more than the largest uint32. */
  const Uint32Limit: nat := 0x1_0000_0000

  /** The uint32 that four little-endian bytes denote (`binary.LittleEndian.Uint32`). */
  function Uint32FromLittleEndian(bs: seq<byte>): (n: nat)
    requires |bs| == 4
    ensures n < Uint32Limit
  {
    var b0, b1, b2, b3: int := bs[0], bs[1], bs[2], bs[3];
    b0 + 0x100 * b1 + 0x1_0000 * b2 + 0x100_0000 * b3
  }

  /** The four bytes `binary.LittleEndian.PutUint32` stores for `n`:
      byte(n), byte(n >> 8), byte(n >> 16), byte(n >> 24). */
  function LittleEndian32(n: nat): (bs: seq<byte>)
    requires n < Uint32Limit
    ensures |bs| == 4
    ensures Uint32FromLittleEndian(bs) == n
  {
    var n8 := n / 0x100;
    var n16 := n8 / 0x100;
    var n24 := n16 / 0x100;
    [n % 0x100, n8 % 0x100, n16 % 0x100, n24 % 0x100]
  }

  /** Every four-byte sequence is the encoding of the number it denotes,
      so the 4-byte header field loses nothing. */
  lemma LittleEndian32OfDecoded(bs: seq<byte>)
    requires |bs| == 4
    ensures LittleEndian32(Uint32FromLittleEndian(bs)) == bs
  {
    var b0, b1, b2, b3: int := bs[0], bs[1], bs[2], bs[3];
    var n := Uint32FromLittleEndian(bs);
    var n8 := b1 + 0x100 * b2 + 0x1_0000 * b3;
    var n16 := b2 + 0x100 * b3;
    assert n == b0 + 0x100 * n8;
    assert n8 == b1 + 0x100 * n16;
    assert n / 0x100 == n8 && n % 0x100 == b0;
    assert n8 / 0x100 == n16 && n8 % 0x100 == b1;
    assert n16 / 0x100 == b3 && n16 % 0x100 == b2;
  }
}

/** Bytes of a session file and the little-endian 32-bit decoding that
    `struct.unpack("<I", ...)` performs on four of them. */
module Bytes {

  /** One byte of a file's content. */
  type Byte = b: int | 0 <= b < 0x100

  /** 2^32: every unsigned 32-bit value lies below it. */
  const Two32: nat := 0x1_0000_0000

  /** The unsigned 32-bit little-endian value held by data[i..i+4]. */
  function LE32(data: seq<Byte>, i: nat): (r: nat)
    requires i + 4 <= |data|
    ensures r < Two32
    ensures r % 0x100 == data[i]
  {
    var d0: int, d1: int, d2: int, d3: int := data[i], data[i + 1], data[i + 2], data[i + 3];
    d0 + 0x100 * d1 + 0x1_0000 * d2 + 0x100_0000 * d3
  }

  /** The four bytes that encode `v` in little-endian order (the inverse of LE32). */
  function EncodeLE32(v: nat): (bs: seq<Byte>)
    requires v < Two32
    ensures |bs| == 4
  {
    [v % 0x100, v / 0x100 % 0x100, v / 0x1_0000 % 0x100, v / 0x100_0000]
  }

  /** Decoding what was encoded gives the value back. */
  lemma DecodeEncode(v: nat)
    requires v < Two32
    ensures LE32(EncodeLE32(v), 0) == v
  {
    var q1 := v / 0x100;
    var q2 := q1 / 0x100;
    assert v == v % 0x100 + 0x100 * q1;
    assert q1 == q1 % 0x100 + 0x100 * q2;
    assert v / 0x1_0000 == q2;
    assert v / 0x100_0000 == q2 / 0x100;
  }

  /** Encoding a decoded window gives the window back: LE32 loses nothing. */
  lemma EncodeDecode(data: seq<Byte>, i: nat)
    requires i + 4 <= |data|
    ensures EncodeLE32(LE32(data, i)) == data[i..i + 4]
  {
    var v := LE32(data, i);
    var d0: int, d1: int, d2: int, d3: int := data[i], data[i + 1], data[i + 2], data[i + 3];
    var q1 := d1 + 0x100 * d2 + 0x1_0000 * d3;
    var q2 := d2 + 0x100 * d3;
    assert v == d0 + 0x100 * q1;
    assert v / 0x100 == q1;
    assert q1 == d1 + 0x100 * q2;
    assert q1 / 0x100 == q2;
    assert v / 0x1_0000 == q2;
    assert q2 / 0x100 == d3;
    assert v / 0x100_0000 == d3;
    assert EncodeLE32(v) == [d0, d1, d2, d3];
  }
}

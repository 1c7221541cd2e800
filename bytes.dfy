/** Bytes and the 4-byte key encoding of the tree and operation-log files.
    Keys are C `int`s, fixed here at 32 bits and written little-endian in
    two's complement. */
module Bytes {

  type byte = x: int | 0 <= x < 0x100

  type int32 = x: int | -0x8000_0000 <= x < 0x8000_0000

  /** The four bytes `fwrite(&key, sizeof(int), 1, fp)` emits. */
  function EncodeInt32(k: int32): (bs: seq<byte>)
    ensures |bs| == 4
  {
    var u := if k < 0 then k + 0x1_0000_0000 else k;
    [u % 0x100, u / 0x100 % 0x100, u / 0x1_0000 % 0x100, u / 0x100_0000]
  }

  /** The key `fread(&key, sizeof(int), 1, fp)` fills in from four bytes. */
  function DecodeInt32(bs: seq<byte>): int32
    requires |bs| == 4
  {
    var u: int := bs[0] + 0x100 * (bs[1] as int) + 0x1_0000 * (bs[2] as int) + 0x100_0000 * (bs[3] as int);
    if u >= 0x8000_0000 then u - 0x1_0000_0000 else u
  }

  lemma DigitsOf(u: int)
    requires 0 <= u < 0x1_0000_0000
    ensures u == u % 0x100 + 0x100 * (u / 0x100 % 0x100)
                 + 0x1_0000 * (u / 0x1_0000 % 0x100) + 0x100_0000 * (u / 0x100_0000)
  {
    var q1 := u / 0x100;
    var q2 := q1 / 0x100;
    var q3 := q2 / 0x100;
    assert u == u % 0x100 + 0x100 * q1;
    assert q1 == q1 % 0x100 + 0x100 * q2;
    assert q2 == q2 % 0x100 + 0x100 * q3;
    assert u / 0x1_0000 == q2;
    assert u / 0x100_0000 == q3;
  }

  /** Every key survives being written and read back. */
  lemma DecodeEncode(k: int32)
    ensures DecodeInt32(EncodeInt32(k)) == k
  {
    var u := if k < 0 then k + 0x1_0000_0000 else k;
    DigitsOf(u);
  }

  lemma ByteOf(lo: int, hi: int)
    requires 0 <= lo < 0x100 && 0 <= hi
    ensures (lo + 0x100 * hi) % 0x100 == lo && (lo + 0x100 * hi) / 0x100 == hi
  {
  }

  /** Every four bytes are the encoding of the key they decode to. */
  lemma EncodeDecode(bs: seq<byte>)
    requires |bs| == 4
    ensures EncodeInt32(DecodeInt32(bs)) == bs
  {
    var u: int := bs[0] + 0x100 * (bs[1] as int) + 0x1_0000 * (bs[2] as int) + 0x100_0000 * (bs[3] as int);
    var v: int := bs[1] + 0x100 * (bs[2] as int) + 0x1_0000 * (bs[3] as int);
    var w: int := bs[2] + 0x100 * (bs[3] as int);
    assert u == bs[0] + 0x100 * v;
    assert v == bs[1] + 0x100 * w;
    ByteOf(bs[0], v);
    ByteOf(bs[1], w);
    ByteOf(bs[2], bs[3]);
    assert u / 0x1_0000 == w;
    assert u / 0x100_0000 == bs[3];
  }
}

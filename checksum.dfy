/** The checksum envelope's data layout: the 4-byte record a 32-bit checksum
    is stored as, the 32-bit words the checksum engine is given, and calcCRC,
    which hands the engine the buffer's whole words only. Both conversions
    are the little-endian layout of the target. */
module Checksum {
  import opened Hal
  import opened Arith

  /** The 4 bytes of a 32-bit value as it lies in memory, lowest byte first. */
  function LeBytes(w: u32): (r: seq<byte>)
    ensures |r| == 4
  {
    [w % 0x100, (w / 0x100) % 0x100, (w / 0x1_0000) % 0x100, w / 0x100_0000]
  }

  /** The 32-bit value 4 bytes in memory stand for, lowest byte first. */
  function LeWord(b: seq<byte>): (r: u32)
    requires |b| == 4
  {
    b[0] as int + 0x100 * b[1] as int + 0x1_0000 * b[2] as int + 0x100_0000 * b[3] as int
  }

  /** Reading back a stored record gives the checksum that was stored. */
  lemma WordBytesRoundTrip(w: u32)
    ensures LeWord(LeBytes(w)) == w
  {
    var b := LeBytes(w);
    var q0, q1 := w / 0x100, w / 0x1_0000;
    DivMod(w, 0x100, q0, w % 0x100);
    DivMod(q0, 0x100, q0 / 0x100, b[1]);
    DivMod(w, 0x1_0000, q0 / 0x100, b[0] as int + 0x100 * b[1] as int);
    DivMod(q1, 0x100, q1 / 0x100, b[2]);
    DivMod(w, 0x100_0000, q1 / 0x100, b[0] as int + 0x100 * b[1] as int + 0x1_0000 * b[2] as int);
  }

  /** Every 4-byte record is the record of exactly the word it decodes to. */
  lemma BytesWordRoundTrip(b: seq<byte>)
    requires |b| == 4
    ensures LeBytes(LeWord(b)) == b
  {
    var w := LeWord(b);
    var lo1: int := b[0] as int + 0x100 * b[1] as int;
    var lo2: int := lo1 + 0x1_0000 * b[2] as int;
    DivMod(w, 0x100, b[1] as int + 0x100 * b[2] as int + 0x1_0000 * b[3] as int, b[0]);
    DivMod(w / 0x100, 0x100, b[2] as int + 0x100 * b[3] as int, b[1]);
    DivMod(w, 0x1_0000, b[2] as int + 0x100 * b[3] as int, lo1);
    DivMod(w / 0x1_0000, 0x100, b[3], b[2]);
    DivMod(w, 0x100_0000, b[3], lo2);
  }

  /** The first `n` 32-bit words of a byte buffer, as the engine reads them
      through a 32-bit cast of the buffer. */
  function Words(data: seq<byte>, n: nat): (r: seq<u32>)
    requires 4 * n <= |data|
  {
    seq(n, i requires 0 <= i < n => LeWord(data[4 * i..4 * i + 4]))
  }

  /** calcCRC: the engine applied to the buffer's first size / 4 words. */
  function CalcCrc(engine: seq<u32> -> u32, data: seq<byte>, size: nat): u32
    requires size <= |data|
  {
    engine(Words(data, size / 4))
  }

  /** The number of bytes the checksum covers: size rounded down to whole words. */
  function Covered(size: nat): (r: nat)
    ensures r <= size && size - r < 4 && r % 4 == 0
  {
    4 * (size / 4)
  }

  /** The checksum depends on the covered bytes only: buffers that agree on
      them have the same checksum, whatever their trailing 1 to 3 bytes. */
  lemma {:induction false} CrcIgnoresTail(engine: seq<u32> -> u32, d1: seq<byte>, d2: seq<byte>, size: nat)
    requires size <= |d1| && size <= |d2|
    requires d1[..Covered(size)] == d2[..Covered(size)]
    ensures CalcCrc(engine, d1, size) == CalcCrc(engine, d2, size)
  {
    var n := size / 4;
    forall i | 0 <= i < n
      ensures d1[4 * i..4 * i + 4] == d2[4 * i..4 * i + 4]
    {
      assert d1[4 * i..4 * i + 4] == d1[..Covered(size)][4 * i..4 * i + 4];
      assert d2[4 * i..4 * i + 4] == d2[..Covered(size)][4 * i..4 * i + 4];
    }
    assert Words(d1, n) == Words(d2, n);
  }

  /** Conversely, every covered byte matters to the words the engine sees:
      buffers with the same words agree on all the covered bytes. */
  lemma {:induction false} WordsDetermineCovered(d1: seq<byte>, d2: seq<byte>, size: nat)
    requires size <= |d1| && size <= |d2|
    requires Words(d1, size / 4) == Words(d2, size / 4)
    ensures d1[..Covered(size)] == d2[..Covered(size)]
  {
    var n := size / 4;
    forall k | 0 <= k < Covered(size)
      ensures d1[k] == d2[k]
    {
      var i := k / 4;
      assert 4 * i <= k < 4 * i + 4;
      assert Words(d1, n)[i] == Words(d2, n)[i];
      BytesWordRoundTrip(d1[4 * i..4 * i + 4]);
      BytesWordRoundTrip(d2[4 * i..4 * i + 4]);
      assert d1[4 * i..4 * i + 4] == d2[4 * i..4 * i + 4];
      assert d1[k] == d1[4 * i..4 * i + 4][k - 4 * i];
      assert d2[k] == d2[4 * i..4 * i + 4][k - 4 * i];
    }
  }
}

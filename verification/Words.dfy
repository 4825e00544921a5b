/** Bytes, 32-bit words, and the little-endian layout both ends of every link assume. */
module Words {

  datatype Option<+T> = None | Some(value: T)

  const WORD_LIMIT: int := 0x1_0000_0000

  type Byte = b: int | 0 <= b < 256

  type Word = w: int | 0 <= w < 0x1_0000_0000

  /** A digit as printed, in bases up to sixteen. */
  function DigitChar(d: nat): Byte
    requires d < 16
  {
    if d < 10 then 48 + d else 87 + d
  }

  function LittleEndian(w: Word): (bs: seq<Byte>)
    ensures |bs| == 4
  {
    [w % 256, w / 256 % 256, w / 65536 % 256, w / 16777216]
  }

  function FromLittleEndian(bs: seq<Byte>): Word
    requires |bs| == 4
  {
    bs[0] as int + 256 * (bs[1] as int) + 65536 * (bs[2] as int) + 16777216 * (bs[3] as int)
  }

  lemma LittleEndianRoundTrip(w: Word)
    ensures FromLittleEndian(LittleEndian(w)) == w
  {
    assert w / 65536 == w / 256 / 256;
    assert w / 16777216 == w / 65536 / 256;
  }

  lemma FromLittleEndianRoundTrip(bs: seq<Byte>)
    requires |bs| == 4
    ensures LittleEndian(FromLittleEndian(bs)) == bs
  {
    var w := FromLittleEndian(bs);
    assert w / 256 == bs[1] as int + 256 * (bs[2] as int) + 65536 * (bs[3] as int);
    assert w / 65536 == bs[2] as int + 256 * (bs[3] as int);
  }

  /** Four bytes, the low one first. */
  predicate LowFirst(w: int, bs: seq<Byte>)
  {
    |bs| == 4 && w == bs[0] as int + 256 * (bs[1] as int) + 65536 * (bs[2] as int) + 16777216 * (bs[3] as int)
  }

  lemma LowFirstIs(w: Word, bs: seq<Byte>)
    requires LowFirst(w, bs)
    ensures bs == LittleEndian(w)
  {
    FromLittleEndianRoundTrip(bs);
  }
}

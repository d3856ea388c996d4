/** The byte-at-a-time CRC of section 8 of RFC 1952, which gzip runs when the loader is built. */
module Gzip {
  import opened Bits
  import opened Crc

  /** Entry `n` of the table: eight shifts of `n`. */
  function TableEntry(n: Byte): Word {
    Steps(n, 8)
  }

  /** One table lookup per byte. */
  function UpdateCrc(c: Word, buf: seq<Byte>): Word
    decreases |buf|
  {
    if buf == [] then c else UpdateCrc(XorWord(TableEntry(XorWord(c, buf[0]) % 0x100), c / 0x100), buf[1..])
  }

  function TableCrc(buf: seq<Byte>): Word {
    XorWord(UpdateCrc(PRESET, buf), PRESET)
  }

  lemma {:induction false} LowByteSum(c: Word, b: Byte)
    ensures XorWord(c, b) / 0x100 == c / 0x100
  {
    assert Pow2(8) == 0x100;
    XorLow(c % 0x100, b, c / 0x100, 8);
    XorBound(c % 0x100, b, 8);
  }

  /** Eight shifts depend on the low byte through the table and move the other three bytes down. */
  lemma {:induction false} LookupIsEightSteps(c: Word, b: Byte)
    ensures FeedByte(c, b) == XorWord(TableEntry(XorWord(c, b) % 0x100), c / 0x100)
  {
    var x := XorWord(c, b);
    var low := x % 0x100;
    assert Pow2(8) == 0x100;
    LowByteSum(c, b);
    StepsSplit(0, low, x / 0x100, 8, x);
    XorZero(x);
    XorZero(low);
  }

  lemma {:induction false} UpdateIsFeed(c: Word, buf: seq<Byte>)
    ensures UpdateCrc(c, buf) == Feed(c, buf)
    decreases |buf|
  {
    if buf == [] {
    } else {
      LookupIsEightSteps(c, buf[0]);
      UpdateIsFeed(FeedByte(c, buf[0]), buf[1..]);
    }
  }

  /** The CRC gzip writes at build time is the CRC the loader computes at run time. */
  lemma {:induction false} TableCrcIsCrc32(buf: seq<Byte>)
    ensures TableCrc(buf) == Crc32(buf)
  {
    UpdateIsFeed(PRESET, buf);
    NotIsXor(Feed(PRESET, buf));
  }
}

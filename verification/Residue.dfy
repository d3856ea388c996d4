/** What a message followed by its own CRC looks like to the CRC, and how a four-byte field steers it. */
module Residue {
  import opened Bits
  import opened Crc

  /** What the empty message followed by its CRC gives. */
  function FixedResidue(): Word {
    Crc32([0, 0, 0, 0])
  }

  lemma {:induction false} FeedByteThenRest(c: Word, x: Word, n: nat)
    ensures Steps(XorWord(c, x), 8 + n) == Steps(XorWord(FeedByte(c, x % 0x100), x / 0x100), n)
  {
    Pow2Values();
    StepsSplit(c, x % 0x100, x / 0x100, 8, x);
    StepsAdd(XorWord(c, x), 8, n);
  }

  /** Feeding a word's four bytes is loading the word and shifting 32 times. */
  lemma {:induction false} FeedWord(c: Word, x: Word)
    ensures Feed(c, ToLittleEndian(x)) == Steps(XorWord(c, x), 32)
  {
    var f := ToLittleEndian(x);
    var c1 := FeedByte(c, f[0]);
    var c2 := FeedByte(c1, f[1]);
    var c3 := FeedByte(c2, f[2]);
    FeedByteThenRest(c, x, 24);
    FeedByteThenRest(c1, x / 0x100, 16);
    FeedByteThenRest(c2, x / 0x100 / 0x100, 8);
    assert f[1..][1..] == f[2..] && f[2..][1..] == f[3..] && f[3..][1..] == [];
    assert Feed(c, f) == Feed(c1, f[1..]) == Feed(c2, f[2..]) == Feed(c3, f[3..]) == FeedByte(c3, f[3]);
  }

  lemma {:induction false} ResidueIsOnesShifted()
    ensures FixedResidue() == Not(Steps(PRESET, 32))
  {
    assert ToLittleEndian(0) == [0, 0, 0, 0];
    FeedWord(PRESET, 0);
    XorZero(PRESET);
  }

  /** A field after a message holds the message's CRC exactly when the whole has the fixed residue. */
  lemma {:induction false} ResidueIffOwnCrc(m: seq<Byte>, field: seq<Byte>)
    requires |field| == 4
    ensures FromLittleEndian(field) == Crc32(m) <==> Crc32(m + field) == FixedResidue()
  {
    var r, x := Feed(PRESET, m), FromLittleEndian(field);
    LittleEndianOnto(field);
    FeedConcat(PRESET, m, field);
    FeedWord(r, x);
    ResidueIsOnesShifted();
    NotIsXor(r);
    if Crc32(m + field) == FixedResidue() {
      StepsInjective(XorWord(r, x), PRESET, 32);
      XorCommutes(r, x);
      XorCancels(x, r);
      XorCommutes(PRESET, r);
    } else {
      XorAssociates(r, r, PRESET);
      XorSelf(r);
      XorZero(PRESET);
    }
  }

  /** The only field that takes register `c` to register `d`. */
  function Field(c: Word, d: Word): (f: seq<Byte>)
    ensures |f| == 4
  {
    ToLittleEndian(XorWord(c, Unsteps(d, 32)))
  }

  lemma {:induction false} FieldIsTheOnlyOne(c: Word, d: Word, f: seq<Byte>)
    requires |f| == 4
    ensures Feed(c, f) == d <==> f == Field(c, d)
  {
    var x := FromLittleEndian(f);
    var u := Unsteps(d, 32);
    LittleEndianOnto(f);
    FeedWord(c, x);
    FeedWord(c, XorWord(c, u));
    XorAssociates(c, c, u);
    XorSelf(c);
    XorZero(u);
    StepsUnsteps(d, 32);
    if Feed(c, f) == d {
      StepsInjective(XorWord(c, x), u, 32);
      XorAssociates(c, c, x);
      XorZero(x);
    }
  }

  predicate Hits(prefix: seq<Byte>, f: seq<Byte>, suffix: seq<Byte>, target: Word) {
    |f| == 4 && Crc32(prefix + f + suffix) == target
  }

  /** Between any prefix and suffix exactly one four-byte field gives any wanted CRC. */
  lemma {:induction false} OneFieldForEveryCrc(prefix: seq<Byte>, suffix: seq<Byte>, target: Word)
    ensures exists f :: Hits(prefix, f, suffix, target) && forall g :: Hits(prefix, g, suffix, target) ==> g == f
  {
    var c, d := Feed(PRESET, prefix), Unfeed(Not(target), suffix);
    FeedUnfeed(Not(target), suffix);
    forall f: seq<Byte> | |f| == 4 ensures Hits(prefix, f, suffix, target) <==> f == Field(c, d) {
      FeedConcat(PRESET, prefix + f, suffix);
      FeedConcat(PRESET, prefix, f);
      FieldIsTheOnlyOne(c, d, f);
      if Hits(prefix, f, suffix, target) {
        FeedInjective(Feed(c, f), d, suffix);
      }
    }
    assert Hits(prefix, Field(c, d), suffix, target);
  }
}

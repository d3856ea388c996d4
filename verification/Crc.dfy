/** The bit-serial CRC-32 of `loader/crc.c`, its algebra over the 32-bit register, and the loop that computes it. */
module Crc {
  import opened Bits

  /** The reflected generator. Its bit 31 is set, which is what makes a shift step reversible. */
  const POLY: Word := 0xEDB8_8320
  const PRESET: Word := 0xFFFF_FFFF

  /** One pass of the inner loop: shift right, and fold the generator in when a one falls out. */
  function Step(c: Word): Word {
    if c % 2 == 1 then XorWord(c / 2, POLY) else c / 2
  }

  function Steps(c: Word, n: nat): Word
    decreases n, c
  {
    if n == 0 then c else Steps(Step(c), n - 1)
  }

  function FeedByte(c: Word, b: Byte): Word {
    Steps(XorWord(c, b), 8)
  }

  function Feed(c: Word, data: seq<Byte>): Word
    decreases |data|
  {
    if data == [] then c else Feed(FeedByte(c, data[0]), data[1..])
  }

  function Crc32(data: seq<Byte>): Word {
    Not(Feed(PRESET, data))
  }

  // ---------- Feeding in pieces ----------

  lemma {:induction false} FeedConcat(c: Word, s: seq<Byte>, t: seq<Byte>)
    ensures Feed(c, s + t) == Feed(Feed(c, s), t)
    decreases |s|
  {
    if s == [] {
      assert s + t == t;
    } else {
      assert (s + t)[1..] == s[1..] + t;
      FeedConcat(FeedByte(c, s[0]), s[1..], t);
    }
  }

  lemma {:induction false} FeedSnoc(c: Word, s: seq<Byte>, b: Byte)
    ensures Feed(c, s + [b]) == FeedByte(Feed(c, s), b)
  {
    FeedConcat(c, s, [b]);
    assert Feed(Feed(c, s), [b]) == Feed(FeedByte(Feed(c, s), b), []);
  }

  lemma {:induction false} StepsAdd(c: Word, m: nat, n: nat)
    ensures Steps(c, m + n) == Steps(Steps(c, m), n)
    decreases m
  {
    if m == 0 {
    } else {
      StepsAdd(Step(c), m - 1, n);
    }
  }

  // ---------- A step is linear ----------

  lemma {:induction false} StepXor(a: Word, b: Word)
    ensures Step(XorWord(a, b)) == XorWord(Step(a), Step(b))
  {
    XorParts(a, b);
    var fa, fb := if a % 2 == 1 then POLY else 0, if b % 2 == 1 then POLY else 0;
    XorSwap(a / 2, b / 2, fa, fb);
    XorSelf(POLY);
    XorZero(POLY);
    XorZero(a / 2);
    XorZero(b / 2);
    XorZero(Xor(a / 2, b / 2));
  }

  lemma {:induction false} StepsXor(a: Word, b: Word, n: nat)
    ensures Steps(XorWord(a, b), n) == XorWord(Steps(a, n), Steps(b, n))
    decreases n
  {
    if n == 0 {
    } else {
      StepXor(a, b);
      StepsXor(Step(a), Step(b), n - 1);
    }
  }

  /** Bits that have not yet reached the bottom of the register only move down. */
  lemma {:induction false} StepsShift(hi: Word, n: nat)
    requires hi * Pow2(n) < 0x1_0000_0000
    ensures Steps(hi * Pow2(n), n) == hi
    decreases n
  {
    if n == 0 {
    } else {
      HalveShifted(hi, n);
      StepsShift(hi, n - 1);
    }
  }

  /** What `n` shifts do to a register is what they do to its low part, plus the rest shifted down. */
  lemma {:induction false} StepsSplit(c: Word, lo: Word, hi: Word, n: nat, x: Word)
    requires lo < Pow2(n) && x == lo + hi * Pow2(n)
    ensures Steps(XorWord(c, x), n) == XorWord(Steps(XorWord(c, lo), n), hi)
  {
    hide *;
    var top: Word := hi * Pow2(n);
    XorDisjoint(lo, hi, n);
    XorAssociates(c, lo, top);
    assert XorWord(c, x) == XorWord(XorWord(c, lo), top);
    StepsShift(hi, n);
    StepsXor(XorWord(c, lo), top, n);
  }

  // ---------- A step is reversible ----------

  /** Undoes `Step`: bit 31 of the result tells whether the generator was folded in. */
  function Unstep(d: Word): Word {
    if d >= 0x8000_0000 then
      Pow2Values();
      XorTop(d, POLY, 31);
      2 * Xor(d, POLY) + 1
    else 2 * d
  }

  lemma StepUnstep(d: Word)
    ensures Step(Unstep(d)) == d
  {
    Pow2Values();
    if d >= 0x8000_0000 {
      XorTop(d, POLY, 31);
      XorCancels(d, POLY);
    }
  }

  lemma UnstepStep(c: Word)
    ensures Unstep(Step(c)) == c
  {
    Pow2Values();
    if c % 2 == 1 {
      XorTop(c / 2, POLY, 31);
      XorCancels(c / 2, POLY);
    }
  }

  function Unsteps(d: Word, n: nat): Word {
    if n == 0 then d else Unstep(Unsteps(d, n - 1))
  }

  lemma {:induction false} StepsUnsteps(d: Word, n: nat)
    ensures Steps(Unsteps(d, n), n) == d
  {
    if n == 0 {
    } else {
      StepUnstep(Unsteps(d, n - 1));
      StepsUnsteps(d, n - 1);
    }
  }

  lemma {:induction false} StepsInjective(a: Word, b: Word, n: nat)
    requires Steps(a, n) == Steps(b, n)
    ensures a == b
    decreases n
  {
    if n == 0 {
    } else {
      StepsInjective(Step(a), Step(b), n - 1);
      UnstepStep(a);
      UnstepStep(b);
    }
  }

  /** Feeding a fixed byte string never merges two registers. */
  lemma {:induction false} FeedInjective(a: Word, b: Word, s: seq<Byte>)
    requires Feed(a, s) == Feed(b, s)
    ensures a == b
    decreases |s|
  {
    if s == [] {
    } else {
      FeedInjective(FeedByte(a, s[0]), FeedByte(b, s[0]), s[1..]);
      StepsInjective(XorWord(a, s[0]), XorWord(b, s[0]), 8);
      XorCancels(a, s[0]);
      XorCancels(b, s[0]);
    }
  }

  /** The register from which feeding `s` arrives at `d`. */
  function Unfeed(d: Word, s: seq<Byte>): Word {
    if s == [] then d else XorWord(Unsteps(Unfeed(d, s[1..]), 8), s[0])
  }

  lemma {:induction false} FeedUnfeed(d: Word, s: seq<Byte>)
    ensures Feed(Unfeed(d, s), s) == d
  {
    if s == [] {
    } else {
      var e := Unfeed(d, s[1..]);
      XorCancels(Unsteps(e, 8), s[0]);
      StepsUnsteps(e, 8);
      FeedUnfeed(d, s[1..]);
    }
  }

  // ---------- Affinity ----------

  function XorByte(a: Byte, b: Byte): (r: Byte)
    ensures r == Xor(a, b)
  {
    Pow2Values();
    XorBound(a, b, 8);
    Xor(a, b)
  }

  function XorBytes(s: seq<Byte>, t: seq<Byte>): (r: seq<Byte>)
    requires |s| == |t|
    ensures |r| == |s| && forall i :: 0 <= i < |r| ==> r[i] == Xor(s[i], t[i])
  {
    seq(|s|, i requires 0 <= i < |s| => XorByte(s[i], t[i]))
  }

  lemma {:induction false} FeedXor(a: Word, b: Word, s: seq<Byte>, t: seq<Byte>)
    requires |s| == |t|
    ensures Feed(XorWord(a, b), XorBytes(s, t)) == XorWord(Feed(a, s), Feed(b, t))
    decreases |s|
  {
    if s == [] {
    } else {
      var x := XorBytes(s, t);
      assert x[1..] == XorBytes(s[1..], t[1..]);
      XorSwap(a, b, s[0], t[0]);
      StepsXor(XorWord(a, s[0]), XorWord(b, t[0]), 8);
      FeedXor(FeedByte(a, s[0]), FeedByte(b, t[0]), s[1..], t[1..]);
    }
  }

  /** The CRC is affine: over equal lengths the CRCs of three messages combine to the CRC of their sum. */
  lemma {:induction false} CrcAffine(a: seq<Byte>, b: seq<Byte>, c: seq<Byte>)
    requires |a| == |b| == |c|
    ensures Xor(Xor(Crc32(a), Crc32(b)), Crc32(c)) == Crc32(XorBytes(XorBytes(a, b), c))
  {
    var ab := XorBytes(a, b);
    var x, y, z := Feed(PRESET, a), Feed(PRESET, b), Feed(PRESET, c);
    var xy := XorWord(x, y);
    FeedXor(PRESET, PRESET, a, b);
    XorSelf(PRESET);
    XorZero(PRESET);
    FeedXor(0, PRESET, ab, c);
    NotIsXor(x);
    NotIsXor(y);
    NotIsXor(z);
    NotIsXor(XorWord(xy, z));
    XorSwap(x, PRESET, y, PRESET);
    XorZero(xy);
    XorAssociates(xy, z, PRESET);
  }

  // ---------- The loop ----------

  /**
   * `crc32` over `len` bytes of memory starting at `start`: the register, the byte cursor and the remaining
   * length are updated in place as the C code does.
   */
  method ComputeCrc32(memory: array<Byte>, start: nat, len: nat) returns (r: Word)
    requires start + len <= memory.Length
    ensures r == Crc32(memory[start..start + len])
  {
    var bytes := start;
    var left := len;
    var crc: Word := 0xFFFF_FFFF;
    ghost var data := memory[start..start + len];
    while left != 0
      invariant 0 <= left <= len && bytes + left == start + len
      invariant crc == Feed(PRESET, data[..bytes - start])
    {
      ghost var done := bytes - start;
      crc := XorWord(crc, memory[bytes]);
      ghost var entry := crc;
      for k := 0 to 8
        invariant Steps(crc, 8 - k) == Steps(entry, 8)
      {
        if crc % 2 == 1 {
          crc := XorWord(crc / 2, 0xEDB8_8320);
        } else {
          crc := crc / 2;
        }
      }
      assert data[..done + 1] == data[..done] + [memory[bytes]];
      FeedSnoc(PRESET, data[..done], memory[bytes]);
      bytes := bytes + 1;
      left := left - 1;
    }
    assert data[..len] == data;
    return Not(crc);
  }
}

/** The CRC as a bit stream, and exactly which differences between two messages it cannot see. */
module Burst {
  import opened Bits
  import opened Crc

  /** The bits of a message in the order the loop consumes them: byte by byte, least significant bit first. */
  function MessageBits(data: seq<Byte>): (bits: seq<bool>)
    ensures |bits| == 8 * |data|
  {
    if data == [] then [] else BitsOf(data[0], 8) + MessageBits(data[1..])
  }

  lemma {:induction false} MessageBitsIndex(data: seq<Byte>, i: nat, j: nat)
    requires i < |data| && j < 8
    ensures MessageBits(data)[8 * i + j] == Bit(data[i], j)
    decreases i
  {
    if i == 0 {
      BitsOfIndex(data[0], 8, j);
    } else {
      MessageBitsIndex(data[1..], i - 1, j);
    }
  }

  lemma {:induction false} MessageBitsInjective(a: seq<Byte>, b: seq<Byte>)
    requires MessageBits(a) == MessageBits(b)
    ensures a == b
    decreases |a|
  {
    assert |a| == |b|;
    if a == [] {
    } else {
      var u, v := MessageBits(a), MessageBits(b);
      assert BitsOf(a[0], 8) == u[..8] && BitsOf(b[0], 8) == v[..8];
      assert MessageBits(a[1..]) == u[8..] && MessageBits(b[1..]) == v[8..];
      MessageBitsInjective(a[1..], b[1..]);
      Pow2Values();
      PackBitsOf(a[0], 8);
      PackBitsOf(b[0], 8);
    }
  }

  // ---------- One bit at a time ----------

  function FeedBit(c: Word, bit: bool): Word {
    Step(XorWord(c, if bit then 1 else 0))
  }

  function FeedBits(c: Word, bits: seq<bool>): Word
    decreases |bits|
  {
    if bits == [] then c else FeedBits(FeedBit(c, bits[0]), bits[1..])
  }

  lemma {:induction false} FeedBitsConcat(c: Word, u: seq<bool>, v: seq<bool>)
    ensures FeedBits(c, u + v) == FeedBits(FeedBits(c, u), v)
    decreases |u|
  {
    if u == [] {
      assert u + v == v;
    } else {
      assert (u + v)[1..] == u[1..] + v;
      FeedBitsConcat(FeedBit(c, u[0]), u[1..], v);
    }
  }

  lemma {:induction false} AbsorbOne(c: Word, x: Word)
    ensures Step(XorWord(c, x)) == XorWord(FeedBit(c, x % 2 == 1), x / 2)
  {
    var low := x % 2;
    XorParts(c, x);
    XorParts(c, low);
    XorZero(c / 2);
    XorCommutes(x / 2, POLY);
    XorAssociates(c / 2, x / 2, POLY);
    XorAssociates(c / 2, POLY, x / 2);
  }

  /** Loading up to 32 bits into the register at once and shifting is the same as feeding them one by one. */
  lemma {:induction false} Absorb(c: Word, x: Word, n: nat)
    requires x < Pow2(n)
    ensures Steps(XorWord(c, x), n) == FeedBits(c, BitsOf(x, n))
    decreases n
  {
    if n == 0 {
      XorZero(c);
    } else {
      AbsorbOne(c, x);
      assert BitsOf(x, n)[1..] == BitsOf(x / 2, n - 1);
      Absorb(FeedBit(c, x % 2 == 1), x / 2, n - 1);
    }
  }

  lemma {:induction false} FeedIsFeedBits(c: Word, data: seq<Byte>)
    ensures Feed(c, data) == FeedBits(c, MessageBits(data))
    decreases |data|
  {
    if data == [] {
    } else {
      Pow2Values();
      Absorb(c, data[0], 8);
      FeedBitsConcat(c, BitsOf(data[0], 8), MessageBits(data[1..]));
      FeedIsFeedBits(FeedByte(c, data[0]), data[1..]);
    }
  }

  // ---------- Differences ----------

  function XorBits(u: seq<bool>, v: seq<bool>): (w: seq<bool>)
    requires |u| == |v|
    ensures |w| == |u| && forall k :: 0 <= k < |w| ==> w[k] == (u[k] != v[k])
  {
    seq(|u|, k requires 0 <= k < |u| => u[k] != v[k])
  }

  lemma {:induction false} FeedBitXor(a: Word, b: Word, u: bool, v: bool)
    ensures FeedBit(XorWord(a, b), u != v) == XorWord(FeedBit(a, u), FeedBit(b, v))
  {
    var p, q := if u then 1 else 0, if v then 1 else 0;
    XorParts(p, q);
    XorSwap(a, b, p, q);
    StepXor(XorWord(a, p), XorWord(b, q));
  }

  lemma {:induction false} FeedBitsXor(a: Word, b: Word, u: seq<bool>, v: seq<bool>)
    requires |u| == |v|
    ensures FeedBits(XorWord(a, b), XorBits(u, v)) == XorWord(FeedBits(a, u), FeedBits(b, v))
    decreases |u|
  {
    if u == [] {
    } else {
      assert XorBits(u, v)[1..] == XorBits(u[1..], v[1..]);
      FeedBitXor(a, b, u[0], v[0]);
      FeedBitsXor(FeedBit(a, u[0]), FeedBit(b, v[0]), u[1..], v[1..]);
    }
  }

  predicate AllZero(w: seq<bool>) {
    forall k :: 0 <= k < |w| ==> !w[k]
  }

  lemma {:induction false} ZeroesKeepZero(w: seq<bool>)
    requires AllZero(w)
    ensures FeedBits(0, w) == 0
  {
    if w == [] {
    } else {
      XorZero(0);
      ZeroesKeepZero(w[1..]);
    }
  }

  lemma {:induction false} FeedBitsInjective(a: Word, b: Word, w: seq<bool>)
    requires FeedBits(a, w) == FeedBits(b, w)
    ensures a == b
    decreases |w|
  {
    if w == [] {
    } else {
      var p := if w[0] then 1 else 0;
      FeedBitsInjective(FeedBit(a, w[0]), FeedBit(b, w[0]), w[1..]);
      UnstepStep(XorWord(a, p));
      UnstepStep(XorWord(b, p));
      XorCancels(a, p);
      XorCancels(b, p);
    }
  }

  /** Equal CRCs, for equal lengths, depend on the difference alone. */
  lemma {:induction false} SameCrcIffZeroSyndrome(a: seq<Byte>, b: seq<Byte>)
    requires |a| == |b|
    ensures Crc32(a) == Crc32(b) <==> FeedBits(0, XorBits(MessageBits(a), MessageBits(b))) == 0
  {
    var u, v := MessageBits(a), MessageBits(b);
    FeedIsFeedBits(PRESET, a);
    FeedIsFeedBits(PRESET, b);
    FeedBitsXor(PRESET, PRESET, u, v);
    XorSelf(PRESET);
    var x, y := FeedBits(PRESET, u), FeedBits(PRESET, v);
    XorSelf(x);
    XorCancels(x, y);
    XorZero(y);
  }

  /** Zeros around a burst change neither a zero register before it nor the verdict after it. */
  lemma {:induction false} SyndromeOfWindow(d: seq<bool>, start: nat, width: nat)
    requires start + width <= |d|
    requires AllZero(d[..start]) && AllZero(d[start + width..])
    ensures FeedBits(0, d) == 0 <==> FeedBits(0, d[start..start + width]) == 0
  {
    var w, after := d[start..start + width], d[start + width..];
    assert d == d[..start] + (w + after);
    FeedBitsConcat(0, d[..start], w + after);
    ZeroesKeepZero(d[..start]);
    FeedBitsConcat(0, w, after);
    ZeroesKeepZero(after);
    if FeedBits(0, d) == 0 {
      FeedBitsInjective(FeedBits(0, w), 0, after);
    }
  }

  lemma {:induction false} StepsZero(n: nat)
    ensures Steps(0, n) == 0
  {
    if n == 0 {
    } else {
      StepsZero(n - 1);
    }
  }

  lemma {:induction false} Pow2Monotone(m: nat, n: nat)
    requires m <= n
    ensures Pow2(m) <= Pow2(n)
    decreases n
  {
    if m < n {
      Pow2Monotone(m, n - 1);
    }
  }

  /** From a register holding `c`, at most 32 bits lead to zero only if they are the bits of `c` itself. */
  lemma {:induction false} OnlyOwnBitsReachZero(c: Word, w: seq<bool>)
    requires |w| <= 32
    ensures FeedBits(c, w) == 0 <==> Pack(w) == c
  {
    Pow2Values();
    Pow2Monotone(|w|, 32);
    var x: Word := Pack(w);
    BitsOfPack(w);
    Absorb(c, x, |w|);
    StepsZero(|w|);
    XorSelf(c);
    if FeedBits(c, w) == 0 {
      StepsInjective(XorWord(c, x), 0, |w|);
      XorCancels(c, x);
      XorZero(x);
    }
  }

  lemma {:induction false} AllZeroParts(w: seq<bool>)
    requires w != []
    ensures AllZero(w) <==> !w[0] && AllZero(w[1..])
  {
    assert w == [w[0]] + w[1..];
  }

  lemma {:induction false} PackZero(w: seq<bool>)
    ensures Pack(w) == 0 <==> AllZero(w)
  {
    if w == [] {
    } else {
      AllZeroParts(w);
      PackZero(w[1..]);
    }
  }

  /** The generator with its leading coefficient, in the order the coefficients meet the register. */
  const GENERATOR_PATTERN: nat := 0x1_DB71_0641

  lemma {:induction false} FeedFirstBit(bit: bool)
    ensures FeedBit(0, bit) == if bit then POLY else 0
  {
    XorZero(1);
    XorZero(0);
    XorZero(POLY);
  }

  lemma {:induction false} SyndromeOf33(w: seq<bool>)
    requires |w| == 33
    ensures FeedBits(0, w) == 0 <==> AllZero(w) || Pack(w) == GENERATOR_PATTERN
  {
    var c: Word := if w[0] then POLY else 0;
    FeedFirstBit(w[0]);
    assert FeedBits(0, w) == FeedBits(c, w[1..]);
    OnlyOwnBitsReachZero(c, w[1..]);
    PackZero(w);
  }

  // ---------- Burst errors ----------

  /** `a` and `b` have the same length and every bit in which they differ lies in `[start, start + width)`. */
  ghost predicate DifferWithin(a: seq<Byte>, b: seq<Byte>, start: nat, width: nat) {
    |a| == |b| &&
    forall j :: 0 <= j < 8 * |a| && !(start <= j < start + width) ==> MessageBits(a)[j] == MessageBits(b)[j]
  }

  /** Outside a window the difference string of two messages is zero. */
  lemma {:induction false} DifferenceOutsideWindow(a: seq<Byte>, b: seq<Byte>, lo: nat, hi: nat)
    requires |a| == |b| && lo <= hi <= 8 * |a|
    requires DifferWithin(a, b, lo, hi - lo)
    ensures var d := XorBits(MessageBits(a), MessageBits(b));
      && AllZero(d[..lo]) && AllZero(d[hi..])
      && (AllZero(d[lo..hi]) <==> a == b)
  {
    var u, v := MessageBits(a), MessageBits(b);
    var d := XorBits(u, v);
    assert forall j :: 0 <= j < lo ==> d[..lo][j] == d[j];
    assert forall j :: 0 <= j < |d| - hi ==> d[hi..][j] == d[hi + j];
    if AllZero(d[lo..hi]) {
      forall j | 0 <= j < |d| ensures u[j] == v[j] {
        assert lo <= j < hi ==> !d[lo..hi][j - lo];
      }
      assert u == v;
      MessageBitsInjective(a, b);
    }
  }

  lemma {:induction false} BurstInMessageDetected(a: seq<Byte>, b: seq<Byte>, lo: nat, hi: nat)
    requires lo <= hi <= lo + 32 && |a| == |b| && hi <= 8 * |a|
    requires DifferWithin(a, b, lo, hi - lo) && a != b
    ensures Crc32(a) != Crc32(b)
  {
    var d := XorBits(MessageBits(a), MessageBits(b));
    var w := d[lo..hi];
    DifferenceOutsideWindow(a, b, lo, hi);
    PackZero(w);
    OnlyOwnBitsReachZero(0, w);
    SyndromeOfWindow(d, lo, hi - lo);
    SameCrcIffZeroSyndrome(a, b);
  }

  /** Every difference confined to 32 consecutive bits changes the CRC, at any offset, straddling bytes or not. */
  lemma {:induction false} BurstDetected(a: seq<Byte>, b: seq<Byte>, start: nat)
    requires DifferWithin(a, b, start, 32) && a != b
    ensures Crc32(a) != Crc32(b)
  {
    var n := 8 * |a|;
    var lo := if start < n then start else n;
    var hi := if start + 32 < n then start + 32 else n;
    BurstInMessageDetected(a, b, lo, hi);
  }

  /**
   * The bound is sharp: of all differences confined to 33 consecutive bits, the CRC misses the generator's own
   * pattern and nothing else.
   */
  lemma {:induction false} BurstOf33Detected(a: seq<Byte>, b: seq<Byte>, start: nat)
    requires DifferWithin(a, b, start, 33) && start + 33 <= 8 * |a|
    ensures Crc32(a) == Crc32(b) <==>
            a == b || Pack(XorBits(MessageBits(a), MessageBits(b))[start..start + 33]) == GENERATOR_PATTERN
  {
    var d := XorBits(MessageBits(a), MessageBits(b));
    DifferenceOutsideWindow(a, b, start, start + 33);
    SameCrcIffZeroSyndrome(a, b);
    SyndromeOfWindow(d, start, 33);
    SyndromeOf33(d[start..start + 33]);
  }
}

/**
 * Machine words as bounded naturals: bits counted from the least significant one, exclusive or, complement, and
 * the little-endian layout of words in memory.
 */
module Bits {
  type Byte = n: nat | n < 0x100
  type Word = n: nat | n < 0x1_0000_0000

  function Pow2(n: nat): (p: nat)
    ensures p >= 1
  {
    if n == 0 then 1 else 2 * Pow2(n - 1)
  }

  lemma Pow2Values()
    ensures Pow2(8) == 0x100 && Pow2(16) == 0x1_0000 && Pow2(31) == 0x8000_0000 && Pow2(32) == 0x1_0000_0000
  {
    assert Pow2(8) == 0x100;
    assert Pow2(16) == 0x100 * Pow2(8);
    assert Pow2(24) == 0x100 * Pow2(16);
    assert Pow2(31) == 0x80 * Pow2(24);
  }

  /** Bit `j` of `n`, bit 0 being the least significant. */
  predicate Bit(n: nat, j: nat) {
    if j == 0 then n % 2 == 1 else Bit(n / 2, j - 1)
  }

  /** Exclusive or, bit by bit. */
  function Xor(a: nat, b: nat): nat {
    if a == 0 && b == 0 then 0 else 2 * Xor(a / 2, b / 2) + if a % 2 != b % 2 then 1 else 0
  }

  lemma XorParts(a: nat, b: nat)
    ensures Xor(a, b) / 2 == Xor(a / 2, b / 2)
    ensures Xor(a, b) % 2 == if a % 2 != b % 2 then 1 else 0
  {}

  lemma {:induction false} XorBit(a: nat, b: nat, j: nat)
    ensures Bit(Xor(a, b), j) <==> Bit(a, j) != Bit(b, j)
    decreases j
  {
    XorParts(a, b);
    if j == 0 {
    } else {
      XorBit(a / 2, b / 2, j - 1);
    }
  }

  lemma {:induction false} XorBound(a: nat, b: nat, n: nat)
    requires a < Pow2(n) && b < Pow2(n)
    ensures Xor(a, b) < Pow2(n)
    decreases n
  {
    if n == 0 {
    } else {
      XorParts(a, b);
      XorBound(a / 2, b / 2, n - 1);
    }
  }

  lemma {:induction false} XorZero(a: nat)
    ensures Xor(a, 0) == a && Xor(0, a) == a
  {
    if a == 0 {
    } else {
      XorZero(a / 2);
    }
  }

  lemma {:induction false} XorSelf(a: nat)
    ensures Xor(a, a) == 0
  {
    if a == 0 {
    } else {
      XorSelf(a / 2);
    }
  }

  lemma {:induction false} XorCommutes(a: nat, b: nat)
    ensures Xor(a, b) == Xor(b, a)
  {
    if a != 0 || b != 0 {
      XorCommutes(a / 2, b / 2);
    }
  }

  lemma {:induction false} XorAssociates(a: nat, b: nat, c: nat)
    ensures Xor(Xor(a, b), c) == Xor(a, Xor(b, c))
    decreases a + b + c
  {
    if a != 0 || b != 0 || c != 0 {
      XorParts(a, b);
      XorParts(b, c);
      XorParts(Xor(a, b), c);
      XorParts(a, Xor(b, c));
      XorAssociates(a / 2, b / 2, c / 2);
    }
  }

  lemma {:induction false} XorCancels(a: nat, b: nat)
    ensures Xor(Xor(a, b), b) == a
  {
    XorAssociates(a, b, b);
    XorSelf(b);
    XorZero(a);
  }

  /** Sums can be regrouped: the middle two terms trade places. */
  lemma {:induction false} XorSwap(a: nat, b: nat, c: nat, d: nat)
    ensures Xor(Xor(a, b), Xor(c, d)) == Xor(Xor(a, c), Xor(b, d))
  {
    XorAssociates(a, b, Xor(c, d));
    XorAssociates(b, c, d);
    XorCommutes(b, c);
    XorAssociates(c, b, d);
    XorAssociates(a, c, Xor(b, d));
  }

  /** The top bit of a sum is the sum of the top bits. */
  lemma {:induction false} XorTop(a: nat, b: nat, n: nat)
    requires a < 2 * Pow2(n) && b < 2 * Pow2(n)
    ensures Xor(a, b) >= Pow2(n) <==> (a >= Pow2(n)) != (b >= Pow2(n))
    decreases n
  {
    XorParts(a, b);
    if n == 0 {
      assert a / 2 == b / 2 == 0;
    } else {
      XorTop(a / 2, b / 2, n - 1);
    }
  }

  lemma {:induction false} HalveShifted(hi: nat, n: nat)
    requires n > 0
    ensures (hi * Pow2(n)) % 2 == 0 && (hi * Pow2(n)) / 2 == hi * Pow2(n - 1)
  {
    assert hi * Pow2(n) == 2 * (hi * Pow2(n - 1));
  }

  /** When the operands share no bit position, exclusive or is addition. */
  lemma {:induction false} XorDisjoint(lo: nat, hi: nat, n: nat)
    requires lo < Pow2(n)
    ensures Xor(lo, hi * Pow2(n)) == lo + hi * Pow2(n)
    decreases n
  {
    if n == 0 {
      XorZero(hi);
    } else {
      HalveShifted(hi, n);
      XorParts(lo, hi * Pow2(n));
      XorDisjoint(lo / 2, hi, n - 1);
    }
  }

  /** Adding within the low `n` bits leaves the rest alone. */
  lemma {:induction false} XorLow(lo: nat, b: nat, hi: nat, n: nat)
    requires lo < Pow2(n) && b < Pow2(n)
    ensures Xor(lo + hi * Pow2(n), b) == Xor(lo, b) + hi * Pow2(n)
  {
    hide *;
    var top := hi * Pow2(n);
    XorDisjoint(lo, hi, n);
    XorAssociates(lo, top, b);
    XorCommutes(top, b);
    XorAssociates(lo, b, top);
    XorBound(lo, b, n);
    XorDisjoint(Xor(lo, b), hi, n);
  }

  // ---------- 32-bit words ----------

  function XorWord(a: Word, b: Word): (r: Word)
    ensures r == Xor(a, b)
  {
    Pow2Values();
    XorBound(a, b, 32);
    Xor(a, b)
  }

  /** C's `~` on 32 bits. */
  function Not(a: Word): Word {
    0xFFFF_FFFF - a
  }

  lemma {:induction false} XorOnes(a: nat, n: nat)
    requires a < Pow2(n)
    ensures Xor(a, Pow2(n) - 1) == Pow2(n) - 1 - a
    decreases n
  {
    if n == 0 {
    } else {
      XorParts(a, Pow2(n) - 1);
      XorOnes(a / 2, n - 1);
    }
  }

  lemma NotIsXor(a: Word)
    ensures Not(a) == Xor(a, 0xFFFF_FFFF)
  {
    Pow2Values();
    XorOnes(a, 32);
  }

  // ---------- Words in memory ----------

  /** The four bytes of a word, least significant first. */
  function ToLittleEndian(w: Word): (b: seq<Byte>)
    ensures |b| == 4
  {
    [w % 0x100, w / 0x100 % 0x100, w / 0x100 / 0x100 % 0x100, w / 0x100 / 0x100 / 0x100]
  }

  function FromLittleEndian(b: seq<Byte>): Word
    requires |b| == 4
  {
    var b0: nat, b1: nat, b2: nat, b3: nat := b[0], b[1], b[2], b[3];
    b0 + 0x100 * b1 + 0x1_0000 * b2 + 0x100_0000 * b3
  }

  lemma LittleEndianRoundTrip(w: Word)
    ensures FromLittleEndian(ToLittleEndian(w)) == w
  {}

  lemma LittleEndianOnto(b: seq<Byte>)
    requires |b| == 4
    ensures ToLittleEndian(FromLittleEndian(b)) == b
  {
    var w := FromLittleEndian(b);
    var b0: nat, b1: nat, b2: nat, b3: nat := b[0], b[1], b[2], b[3];
    assert w % 0x100 == b0;
    assert w / 0x100 == b1 + 0x100 * b2 + 0x1_0000 * b3;
    assert w / 0x100 / 0x100 == b2 + 0x100 * b3;
  }

  // ---------- Bit strings ----------

  /** The low `n` bits of `x`, least significant first. */
  function BitsOf(x: nat, n: nat): (bits: seq<bool>)
    ensures |bits| == n
    decreases n, x
  {
    if n == 0 then [] else [x % 2 == 1] + BitsOf(x / 2, n - 1)
  }

  /** The number whose bits, least significant first, are `bits`. */
  function Pack(bits: seq<bool>): (x: nat)
    ensures x < Pow2(|bits|)
  {
    if bits == [] then 0 else (if bits[0] then 1 else 0) + 2 * Pack(bits[1..])
  }

  lemma {:induction false} BitsOfPack(bits: seq<bool>)
    ensures BitsOf(Pack(bits), |bits|) == bits
  {
    if bits == [] {
    } else {
      assert Pack(bits) / 2 == Pack(bits[1..]);
      BitsOfPack(bits[1..]);
    }
  }

  lemma {:induction false} PackBitsOf(x: nat, n: nat)
    requires x < Pow2(n)
    ensures Pack(BitsOf(x, n)) == x
    decreases n
  {
    if n == 0 {
    } else {
      PackBitsOf(x / 2, n - 1);
      assert BitsOf(x, n)[1..] == BitsOf(x / 2, n - 1);
    }
  }

  lemma {:induction false} BitsOfIndex(x: nat, n: nat, j: nat)
    requires j < n
    ensures BitsOf(x, n)[j] == Bit(x, j)
    decreases n
  {
    if j == 0 {
    } else {
      BitsOfIndex(x / 2, n - 1, j - 1);
    }
  }
}

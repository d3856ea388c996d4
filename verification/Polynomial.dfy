/**
 * The CRC as polynomial division: `crc32` is the frame check sequence of section 8.1.1.6.2 of ITU-T V.42. A
 * polynomial over GF(2) is the set of the exponents whose coefficient is one, so equality of polynomials is
 * equality of sets.
 */
module Polynomial {
  import opened Bits
  import opened Crc
  import opened Burst

  type Poly = set<nat>

  function Plus(p: Poly, q: Poly): Poly {
    (p - q) + (q - p)
  }

  /** Multiplication by x^k. */
  ghost function Scale(p: Poly, k: nat): Poly {
    set e | e in p :: e + k
  }

  lemma {:induction false} HasDegree(p: Poly)
    requires p != {}
    ensures exists d :: d in p && forall e :: e in p ==> e <= d
  {
    var x :| x in p;
    if p != {x} {
      var rest := p - {x};
      assert rest != {};
      HasDegree(rest);
      var d :| d in rest && forall e :: e in rest ==> e <= d;
      var m := if x > d then x else d;
      assert m in p && forall e :: e in p ==> e == x || e in rest;
    }
  }

  ghost function Degree(p: Poly): (d: nat)
    requires p != {}
    ensures d in p && forall e :: e in p ==> e <= d
  {
    HasDegree(p);
    var d :| d in p && forall e :: e in p ==> e <= d;
    d
  }

  /** The product: one shifted copy of `g` for every term of `q`. */
  ghost function Times(q: Poly, g: Poly): Poly {
    if q == {} then {} else Plus(Scale(g, Degree(q)), Times(q - {Degree(q)}, g))
  }

  /** `r` is a remainder of `p` divided by `g`: of smaller degree, and congruent to `p`. */
  ghost predicate IsRemainder(p: Poly, g: Poly, r: Poly)
    requires g != {}
  {
    (forall e :: e in r ==> e < Degree(g)) && exists q :: p == Plus(Times(q, g), r)
  }

  // ---------- Products ----------

  lemma ScalePlus(p: Poly, q: Poly, k: nat)
    ensures Scale(Plus(p, q), k) == Plus(Scale(p, k), Scale(q, k))
  {
    forall e | e in Plus(Scale(p, k), Scale(q, k)) ensures e in Scale(Plus(p, q), k) {
      assert e - k in Plus(p, q);
    }
  }

  lemma ScaleScale(p: Poly, j: nat, k: nat)
    ensures Scale(Scale(p, j), k) == Scale(p, j + k)
  {
    forall e | e in Scale(p, j + k) ensures e in Scale(Scale(p, j), k) {
      assert e - k in Scale(p, j);
    }
  }

  lemma ScaleDegree(p: Poly, k: nat)
    requires p != {}
    ensures Scale(p, k) != {} && Degree(Scale(p, k)) == Degree(p) + k
  {
    assert Degree(p) + k in Scale(p, k);
  }

  lemma ScaleWithout(q: Poly, d: nat, k: nat)
    ensures Scale(q - {d}, k) == Scale(q, k) - {d + k}
  {
    forall e | e in Scale(q, k) - {d + k} ensures e in Scale(q - {d}, k) {
      assert e - k in q - {d};
    }
  }

  lemma {:induction false} TimesScale(q: Poly, g: Poly)
    ensures Times(Scale(q, 1), g) == Scale(Times(q, g), 1)
  {
    if q == {} {
      assert Scale(q, 1) == {};
    } else {
      var d := Degree(q);
      ScaleDegree(q, 1);
      ScaleWithout(q, d, 1);
      assert Times(Scale(q, 1), g) == Plus(Scale(g, d + 1), Times(Scale(q - {d}, 1), g));
      TimesScale(q - {d}, g);
      ScaleScale(g, d, 1);
      ScalePlus(Scale(g, d), Times(q - {d}, g), 1);
    }
  }

  lemma {:induction false} TimesPlusOne(q: Poly, g: Poly)
    requires 0 !in q
    ensures Times(q + {0}, g) == Plus(Times(q, g), g)
  {
    var q' := q + {0};
    if q == {} {
      assert q' - {0} == {} && Degree(q') == 0;
      assert Scale(g, 0) == g;
    } else {
      var d := Degree(q);
      assert Degree(q') == d;
      assert q' - {d} == (q - {d}) + {0};
      TimesPlusOne(q - {d}, g);
    }
  }

  // ---------- Remainders are unique ----------

  lemma {:induction false} TimesDegree(q: Poly, g: Poly)
    requires q != {} && g != {}
    ensures Times(q, g) != {} && Degree(Times(q, g)) == Degree(q) + Degree(g)
  {
    var d := Degree(q);
    var rest := q - {d};
    ScaleDegree(g, d);
    if rest != {} {
      TimesDegree(rest, g);
      assert Degree(rest) < d;
    }
    assert d + Degree(g) !in Times(rest, g);
    assert d + Degree(g) in Times(q, g);
  }

  lemma CancelPlus(s: Poly, t: Poly, r: Poly)
    ensures Plus(s, Plus(Plus(s, t), r)) == Plus(t, r)
  {}

  /** A quotient of larger degree leaves a term the other side cannot have. */
  lemma TopTerm(q1: Poly, q2: Poly, g: Poly, r1: Poly, r2: Poly)
    requires g != {} && q1 != {} && (q2 != {} ==> Degree(q2) < Degree(q1))
    requires forall e :: e in r1 || e in r2 ==> e < Degree(g)
    ensures Plus(Times(q1, g), r1) != Plus(Times(q2, g), r2)
  {
    var top := Degree(q1) + Degree(g);
    TimesDegree(q1, g);
    if q2 != {} {
      TimesDegree(q2, g);
    }
    assert top in Plus(Times(q1, g), r1);
    assert top !in Plus(Times(q2, g), r2);
  }

  lemma {:induction false} QuotientUnique(q1: Poly, q2: Poly, g: Poly, r1: Poly, r2: Poly)
    requires g != {}
    requires forall e :: e in r1 || e in r2 ==> e < Degree(g)
    requires Plus(Times(q1, g), r1) == Plus(Times(q2, g), r2)
    ensures q1 == q2 && r1 == r2
    decreases |q1| + |q2|
  {
    if q1 == {} && q2 == {} {
      assert Plus({}, r1) == r1 && Plus({}, r2) == r2;
    } else if q2 == {} || (q1 != {} && Degree(q1) > Degree(q2)) {
      TopTerm(q1, q2, g, r1, r2);
    } else if q1 == {} || Degree(q2) > Degree(q1) {
      TopTerm(q2, q1, g, r2, r1);
    } else {
      var d := Degree(q1);
      var s, t1, t2 := Scale(g, d), Times(q1 - {d}, g), Times(q2 - {d}, g);
      assert q1 == (q1 - {d}) + {d} && q2 == (q2 - {d}) + {d};
      CancelPlus(s, t1, r1);
      CancelPlus(s, t2, r2);
      QuotientUnique(q1 - {d}, q2 - {d}, g, r1, r2);
    }
  }

  /** Division by `g` leaves one remainder only. */
  lemma {:induction false} RemainderUnique(p: Poly, g: Poly, r1: Poly, r2: Poly)
    requires g != {} && IsRemainder(p, g, r1) && IsRemainder(p, g, r2)
    ensures r1 == r2
  {
    var q1 :| p == Plus(Times(q1, g), r1);
    var q2 :| p == Plus(Times(q2, g), r2);
    QuotientUnique(q1, q2, g, r1, r2);
  }

  // ---------- Registers and messages as polynomials ----------

  /** x^32 + x^26 + x^23 + x^22 + x^16 + x^12 + x^11 + x^10 + x^8 + x^7 + x^5 + x^4 + x^2 + x + 1 */
  const GENERATOR: Poly := {32, 26, 23, 22, 16, 12, 11, 10, 8, 7, 5, 4, 2, 1, 0}

  lemma GeneratorDegree()
    ensures GENERATOR != {} && Degree(GENERATOR) == 32
  {
    assert 32 in GENERATOR;
  }

  predicate RegisterCoefficient(c: Word, e: nat) {
    e < 32 && Bit(c, 31 - e)
  }

  /** Bit 31 of the register is the constant term: the register is reflected. */
  function RegisterPoly(c: Word): Poly {
    set e | 0 <= e < 32 && RegisterCoefficient(c, e)
  }

  predicate MessageCoefficient(bits: seq<bool>, e: nat) {
    e < |bits| && bits[|bits| - 1 - e]
  }

  /** The first bit of a message has the highest exponent. */
  function MessagePoly(bits: seq<bool>): Poly {
    set e | 0 <= e < |bits| && MessageCoefficient(bits, e)
  }

  /** The bits of a number put together from a high part and `k` low bits. */
  lemma {:induction false} BitSplit(m: nat, d: nat, k: nat, j: nat)
    requires d < Pow2(k)
    ensures Bit(m * Pow2(k) + d, j) == if j >= k then Bit(m, j - k) else Bit(d, j)
    decreases k
  {
    if k == 0 {
    } else {
      HalveShifted(m, k);
      assert (m * Pow2(k) + d) / 2 == m * Pow2(k - 1) + d / 2;
      assert (m * Pow2(k) + d) % 2 == d % 2;
      if j != 0 {
        BitSplit(m, d / 2, k - 1, j - 1);
      }
    }
  }

  /** The bits of `hi` followed by one hexadecimal digit. */
  lemma BitsOfDigit(hi: nat, d: nat, j: nat)
    requires d < 16
    ensures Bit(16 * hi + d, j) ==
            if j >= 4 then Bit(hi, j - 4)
            else if j == 3 then d >= 8 else if j == 2 then d / 4 % 2 == 1 else if j == 1 then d / 2 % 2 == 1 else d % 2 == 1
  {
    assert Pow2(4) == 16;
    BitSplit(hi, d, 4, j);
    var d1 := d / 2;
    var d2 := d1 / 2;
    var d3 := d2 / 2;
    if j < 4 {
      assert Bit(d, 0) == (d % 2 == 1) && Bit(d, 1) == Bit(d1, 0);
      assert Bit(d, 2) == Bit(d1, 1) == Bit(d2, 0);
      assert Bit(d, 3) == Bit(d1, 2) == Bit(d2, 1) == Bit(d3, 0);
    }
  }

  lemma PolyBitsHigh(e: nat)
    requires 16 <= e < 32
    ensures e in GENERATOR <==> Bit(POLY, 31 - e)
  {
    var j := 31 - e;
    BitsOfDigit(0xEDB_8832, 0x0, j);
    if j >= 4 { BitsOfDigit(0xED_B883, 0x2, j - 4); }
    if j >= 8 { BitsOfDigit(0xE_DB88, 0x3, j - 8); }
    if j >= 12 { BitsOfDigit(0xEDB8, 0x8, j - 12); }
  }

  lemma PolyBitsLow(e: nat)
    requires e < 16
    ensures e in GENERATOR <==> Bit(0xEDB8, 15 - e)
  {
    var j := 15 - e;
    BitsOfDigit(0xEDB, 0x8, j);
    if j >= 4 { BitsOfDigit(0xED, 0xB, j - 4); }
    if j >= 8 { BitsOfDigit(0xE, 0xD, j - 8); }
    if j >= 12 { BitsOfDigit(0, 0xE, j - 12); }
  }

  /** The constant in the loop is the generator, bit 31 first, without its leading term. */
  lemma PolyBits(e: nat)
    requires e < 32
    ensures e in GENERATOR <==> Bit(POLY, 31 - e)
  {
    if e >= 16 {
      PolyBitsHigh(e);
    } else {
      PolyBitsLow(e);
      BitsOfDigit(0xEDB_8832, 0x0, 31 - e);
      BitsOfDigit(0xED_B883, 0x2, 27 - e);
      BitsOfDigit(0xE_DB88, 0x3, 23 - e);
      BitsOfDigit(0xEDB8, 0x8, 19 - e);
    }
  }

  lemma {:induction false} BitBeyond(c: nat, n: nat)
    requires c < Pow2(n)
    ensures !Bit(c, n)
    decreases n
  {
    if n == 0 {
    } else {
      BitBeyond(c / 2, n - 1);
    }
  }

  lemma {:induction false} BitOfZero(j: nat)
    ensures !Bit(0, j)
  {
    if j == 0 {
    } else {
      BitOfZero(j - 1);
    }
  }

  lemma {:induction false} BitOfOnes(n: nat, j: nat)
    requires j < n
    ensures Bit(Pow2(n) - 1, j)
    decreases n
  {
    var ones: nat := Pow2(n) - 1;
    assert ones == 2 * (Pow2(n - 1) - 1) + 1;
    if j == 0 {
    } else {
      assert ones / 2 == Pow2(n - 1) - 1;
      BitOfOnes(n - 1, j - 1);
    }
  }

  // ---------- The loop divides ----------

  ghost function Only(k: nat, present: bool): Poly {
    if present then {k} else {}
  }

  /** One coefficient of a register after a step, as long division computes it. */
  lemma {:induction false} StepCoefficient(c: Word, e: nat)
    requires e < 32
    ensures RegisterCoefficient(Step(c), e) <==>
            ((1 <= e && RegisterCoefficient(c, e - 1)) != (c % 2 == 1 && e in GENERATOR))
  {
    PolyBits(e);
    XorBit(c / 2, POLY, 31 - e);
    if e == 0 {
      Pow2Values();
      BitBeyond(c / 2, 31);
    }
  }

  /** The bit fed in reaches only the coefficient that is about to leave. */
  lemma {:induction false} FeedBitCoefficient(c: Word, bit: bool, e: nat)
    requires e < 32
    ensures RegisterCoefficient(FeedBit(c, bit), e) <==>
            ((1 <= e && RegisterCoefficient(c, e - 1)) != (RegisterCoefficient(c, 31) != bit && e in GENERATOR))
  {
    var b := if bit then 1 else 0;
    var c1 := XorWord(c, b);
    XorParts(c, b);
    XorZero(c / 2);
    StepCoefficient(c1, e);
    if e >= 1 {
      assert Bit(c1, 32 - e) == Bit(c1 / 2, 31 - e) == Bit(c / 2, 31 - e) == Bit(c, 32 - e);
    }
  }

  /** The register times x, plus the bit at x^32: what a bit makes of it before the reduction. */
  ghost function Shifted(c: Word, bit: bool): Poly {
    Plus(Scale(RegisterPoly(c), 1), Only(32, bit))
  }

  lemma {:induction false} ShiftedCoefficient(c: Word, bit: bool, e: nat)
    ensures e in Shifted(c, bit) <==>
            if e == 32 then RegisterCoefficient(c, 31) != bit else 1 <= e && e - 1 in RegisterPoly(c)
  {
    assert e in Scale(RegisterPoly(c), 1) <==> 1 <= e && e - 1 in RegisterPoly(c);
  }

  /** Feeding a bit multiplies the register by x, adds the bit at x^32 and reduces once by the generator. */
  lemma {:induction false} FeedBitDivides(c: Word, bit: bool)
    ensures RegisterPoly(FeedBit(c, bit)) ==
            Plus(Shifted(c, bit), if RegisterCoefficient(c, 31) != bit then GENERATOR else {})
  {
    var top := RegisterCoefficient(c, 31) != bit;
    var g := if top then GENERATOR else {};
    var left := RegisterPoly(FeedBit(c, bit));
    forall e: nat ensures e in left <==> e in Plus(Shifted(c, bit), g) {
      ShiftedCoefficient(c, bit, e);
      if e < 32 {
        FeedBitCoefficient(c, bit, e);
      } else {
        assert e in GENERATOR <==> e == 32;
      }
    }
  }

  lemma {:induction false} MessageSnoc(u: seq<bool>, bit: bool)
    ensures MessagePoly(u + [bit]) == Plus(Scale(MessagePoly(u), 1), Only(0, bit))
  {
    var left, right := MessagePoly(u + [bit]), Plus(Scale(MessagePoly(u), 1), Only(0, bit));
    forall e | 0 <= e <= |u| ensures e in left <==> e in right {
      assert e in Scale(MessagePoly(u), 1) <==> 1 <= e && e - 1 in MessagePoly(u);
      assert e >= 1 ==> (MessageCoefficient(u + [bit], e) <==> MessageCoefficient(u, e - 1));
      assert MessageCoefficient(u + [bit], 0) <==> bit;
    }
  }

  /** The message times x^32, preset by `c`: what the register divides. */
  ghost function Dividend(c: Word, bits: seq<bool>): Poly {
    Plus(Scale(MessagePoly(bits), 32), Scale(RegisterPoly(c), |bits|))
  }

  lemma {:induction false} DividendSnoc(c: Word, u: seq<bool>, bit: bool)
    ensures Dividend(c, u + [bit]) == Plus(Scale(Dividend(c, u), 1), Only(32, bit))
  {
    var m, r := MessagePoly(u), RegisterPoly(c);
    MessageSnoc(u, bit);
    ScalePlus(Scale(m, 1), Only(0, bit), 32);
    ScaleScale(m, 1, 32);
    ScaleScale(m, 32, 1);
    ScaleScale(r, |u|, 1);
    ScalePlus(Scale(m, 32), Scale(r, |u|), 1);
    assert Scale(Only(0, bit), 32) == Only(32, bit);
  }

  lemma PlusRegroup(a: Poly, b: Poly, c: Poly, g: Poly)
    ensures Plus(Plus(a, b), c) == Plus(Plus(a, g), Plus(Plus(b, c), g))
  {}

  /** One more quotient term, one more reduction. */
  lemma {:induction false} DivisionStep(q: Poly, r: Poly, bit: bool, top: bool)
    ensures Plus(Scale(Plus(Times(q, GENERATOR), r), 1), Only(32, bit)) ==
            Plus(Times(Scale(q, 1) + Only(0, top), GENERATOR),
                 Plus(Plus(Scale(r, 1), Only(32, bit)), if top then GENERATOR else {}))
  {
    var q' := Scale(q, 1);
    var g := if top then GENERATOR else {};
    TimesScale(q, GENERATOR);
    ScalePlus(Times(q, GENERATOR), r, 1);
    assert Times(q' + Only(0, top), GENERATOR) == Plus(Times(q', GENERATOR), g) by {
      if top {
        TimesPlusOne(q', GENERATOR);
      } else {
        assert q' + {} == q';
      }
    }
    PlusRegroup(Times(q', GENERATOR), Scale(r, 1), Only(32, bit), g);
  }

  /** The register is the remainder of everything fed so far. */
  lemma {:induction false} RegisterIsRemainder(c: Word, bits: seq<bool>)
    ensures IsRemainder(Dividend(c, bits), GENERATOR, RegisterPoly(FeedBits(c, bits)))
    decreases |bits|
  {
    GeneratorDegree();
    if bits == [] {
      assert Scale(MessagePoly(bits), 32) == {};
      assert Scale(RegisterPoly(c), 0) == RegisterPoly(c);
      assert Dividend(c, bits) == Plus(Times({}, GENERATOR), RegisterPoly(c));
    } else {
      var n := |bits| - 1;
      var u, bit := bits[..n], bits[n];
      assert bits == u + [bit];
      RegisterIsRemainder(c, u);
      var c' := FeedBits(c, u);
      var q :| Dividend(c, u) == Plus(Times(q, GENERATOR), RegisterPoly(c'));
      var top := RegisterCoefficient(c', 31) != bit;
      FeedBitsConcat(c, u, [bit]);
      assert FeedBits(c', [bit]) == FeedBits(FeedBit(c', bit), []);
      FeedBitDivides(c', bit);
      DividendSnoc(c, u, bit);
      DivisionStep(q, RegisterPoly(c'), bit, top);
    }
  }

  // ---------- The frame check sequence ----------

  lemma {:induction false} PresetIsAllOnes(e: nat)
    ensures e in RegisterPoly(PRESET) <==> e < 32
  {
    Pow2Values();
    if e < 32 {
      BitOfOnes(32, 31 - e);
    }
  }

  /** x^31 + x^30 + ... + x + 1 */
  ghost function Ones(): (p: Poly)
    ensures forall e: nat :: e in p <==> e < 32
  {
    forall e: nat ensures e in RegisterPoly(PRESET) <==> e < 32 {
      PresetIsAllOnes(e);
    }
    RegisterPoly(PRESET)
  }

  lemma {:induction false} ZeroMessage(bits: seq<bool>)
    requires AllZero(bits)
    ensures MessagePoly(bits) == {}
  {}

  lemma {:induction false} RegisterPolyXor(a: Word, b: Word)
    ensures RegisterPoly(XorWord(a, b)) == Plus(RegisterPoly(a), RegisterPoly(b))
  {
    forall e | 0 <= e < 32
      ensures RegisterCoefficient(XorWord(a, b), e) <==> (RegisterCoefficient(a, e) != RegisterCoefficient(b, e))
    {
      XorBit(a, b, 31 - e);
    }
  }

  ghost predicate IsComplement(w: Word, r: Poly) {
    forall e :: 0 <= e < 32 ==> (RegisterCoefficient(w, e) <==> e !in r)
  }

  /**
   * The frame check sequence of section 8.1.1.6.2 of ITU-T V.42 for a message of k bits: the ones complement of
   * the sum of the remainders of x^k (x^31 + ... + 1) and of x^32 M(x), with the constant term in bit 31.
   */
  ghost predicate IsFrameCheckSequence(w: Word, bits: seq<bool>)
  {
    exists r1, r2 ::
      && IsRemainder(Scale(Ones(), |bits|), GENERATOR, r1)
      && IsRemainder(Scale(MessagePoly(bits), 32), GENERATOR, r2)
      && IsComplement(w, Plus(r1, r2))
  }

  lemma {:induction false} ZeroRegister()
    ensures RegisterPoly(0) == {}
  {
    forall e | 0 <= e < 32 ensures !RegisterCoefficient(0, e) {
      BitOfZero(31 - e);
    }
  }

  lemma {:induction false} ComplementCoefficients(c: Word)
    ensures IsComplement(Not(c), RegisterPoly(c))
  {
    forall e | 0 <= e < 32 ensures RegisterCoefficient(Not(c), e) <==> e !in RegisterPoly(c) {
      Pow2Values();
      NotIsXor(c);
      XorBit(c, 0xFFFF_FFFF, 31 - e);
      BitOfOnes(32, 31 - e);
    }
  }

  lemma {:induction false} SameBits(v: nat, w: nat, n: nat)
    requires v < Pow2(n) && w < Pow2(n)
    requires forall j :: 0 <= j < n ==> Bit(v, j) == Bit(w, j)
    ensures v == w
    decreases n
  {
    if n == 0 {
    } else {
      assert Bit(v, 0) == Bit(w, 0);
      forall j | 0 <= j < n - 1 ensures Bit(v / 2, j) == Bit(w / 2, j) {
        assert Bit(v, j + 1) == Bit(w, j + 1);
      }
      SameBits(v / 2, w / 2, n - 1);
    }
  }

  lemma {:induction false} SameCoefficients(v: Word, w: Word)
    requires forall e :: 0 <= e < 32 ==> (RegisterCoefficient(v, e) <==> RegisterCoefficient(w, e))
    ensures v == w
  {
    Pow2Values();
    forall j | 0 <= j < 32 ensures Bit(v, j) == Bit(w, j) {
      assert RegisterCoefficient(v, 31 - j) <==> RegisterCoefficient(w, 31 - j);
    }
    SameBits(v, w, 32);
  }

  /** `crc32` of every byte string is its frame check sequence, and no other word is. */
  lemma {:induction false} CrcIsFrameCheckSequence(data: seq<Byte>, w: Word)
    ensures IsFrameCheckSequence(w, MessageBits(data)) <==> w == Crc32(data)
  {
    var bits := MessageBits(data);
    var zeros := seq(|bits|, _ => false);
    var c1, c2 := FeedBits(PRESET, zeros), FeedBits(0, bits);
    var r1, r2 := RegisterPoly(c1), RegisterPoly(c2);
    RegisterIsRemainder(PRESET, zeros);
    ZeroMessage(zeros);
    assert Scale(MessagePoly(zeros), 32) == {};
    assert Dividend(PRESET, zeros) == Scale(Ones(), |bits|);
    RegisterIsRemainder(0, bits);
    ZeroRegister();
    assert Scale(RegisterPoly(0), |bits|) == {};
    assert Dividend(0, bits) == Scale(MessagePoly(bits), 32);

    FeedIsFeedBits(PRESET, data);
    XorZero(PRESET);
    FeedBitsXor(PRESET, 0, zeros, bits);
    assert XorBits(zeros, bits) == bits;
    assert Feed(PRESET, data) == XorWord(c1, c2);
    RegisterPolyXor(c1, c2);
    ComplementCoefficients(XorWord(c1, c2));
    if IsFrameCheckSequence(w, bits) {
      var s1, s2 :| && IsRemainder(Scale(Ones(), |bits|), GENERATOR, s1)
                    && IsRemainder(Scale(MessagePoly(bits), 32), GENERATOR, s2)
                    && IsComplement(w, Plus(s1, s2));
      RemainderUnique(Scale(Ones(), |bits|), GENERATOR, r1, s1);
      RemainderUnique(Scale(MessagePoly(bits), 32), GENERATOR, r2, s2);
      SameCoefficients(w, Crc32(data));
    }
  }
}

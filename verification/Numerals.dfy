/** Hexadecimal digits and numerals, shared by the formatter, the configuration parser and the build scripts. */
module Numerals {

  function UpperDigit(d: nat): (c: char)
    requires d < 16
    ensures '0' <= c <= '9' || 'A' <= c <= 'F'
  {
    if d < 10 then ('0' as int + d) as char else ('A' as int + (d - 10)) as char
  }

  function LowerDigit(d: nat): (c: char)
    requires d < 16
    ensures '0' <= c <= '9' || 'a' <= c <= 'f'
  {
    if d < 10 then ('0' as int + d) as char else ('a' as int + (d - 10)) as char
  }

  const NOT_A_DIGIT: nat := 9_999_999

  /** The BIOS call `todigit` as `loader/bios.h` documents it: letters of either case, and a large value otherwise. */
  function ToDigit(c: char): nat {
    if '0' <= c <= '9' then c as int - '0' as int
    else if 'A' <= c <= 'Z' then c as int - 'A' as int + 10
    else if 'a' <= c <= 'z' then c as int - 'a' as int + 10
    else NOT_A_DIGIT
  }

  lemma ToDigitOfUpper(d: nat)
    requires d < 16
    ensures ToDigit(UpperDigit(d)) == d
  {}

  lemma ToDigitOfLower(d: nat)
    requires d < 16
    ensures ToDigit(LowerDigit(d)) == d
  {}

  /** `todigit` in character codes, and which characters count as hexadecimal digits. */
  lemma DigitCodes(c: char)
    ensures 0x30 <= c as int <= 0x39 ==> ToDigit(c) == c as int - 0x30
    ensures 0x41 <= c as int <= 0x5A ==> ToDigit(c) == c as int - 0x37
    ensures 0x61 <= c as int <= 0x7A ==> ToDigit(c) == c as int - 0x57
    ensures ToDigit(c) < 16 <==> 0x30 <= c as int <= 0x39 || 0x41 <= c as int <= 0x46 || 0x61 <= c as int <= 0x66
    ensures ToDigit(c) < 36 || ToDigit(c) == 9_999_999
  {}

  /** The last `n` hexadecimal digits of `v`, most significant first, in upper case. */
  function Hex(v: nat, n: nat): (s: string)
    ensures |s| == n
  {
    if n == 0 then "" else Hex(v / 16, n - 1) + [UpperDigit(v % 16)]
  }

  lemma HexUnfold(v: nat, n: nat)
    ensures n == 0 ==> Hex(v, n) == ""
    ensures n != 0 ==> Hex(v, n) == Hex(v / 16, n - 1) + [UpperDigit(v % 16)]
  {}

  function LowerHex(v: nat, n: nat): (s: string)
    ensures |s| == n
  {
    if n == 0 then "" else LowerHex(v / 16, n - 1) + [LowerDigit(v % 16)]
  }

  predicate AreHexDigits(ds: seq<nat>) {
    forall i :: 0 <= i < |ds| ==> ds[i] < 16
  }

  /** The hexadecimal digits among the characters of `s`, in order. */
  function DigitsIn(s: string): (ds: seq<nat>)
    ensures AreHexDigits(ds)
  {
    if s == "" then []
    else
      var n := |s| - 1;
      DigitsIn(s[..n]) + if ToDigit(s[n]) < 16 then [ToDigit(s[n])] else []
  }

  /** The number a digit string stands for in base 16, most significant digit first. */
  function Numeral(ds: seq<nat>): nat {
    if ds == [] then 0 else 16 * Numeral(ds[..|ds| - 1]) + ds[|ds| - 1]
  }

  function Pow16(n: nat): (p: nat)
    ensures p >= 1
  {
    if n == 0 then 1 else 16 * Pow16(n - 1)
  }

  lemma Pow16Of8()
    ensures Pow16(8) == 0x1_0000_0000
  {
    assert Pow16(4) == 0x1_0000;
    assert Pow16(8) == 0x1_0000 * Pow16(4);
  }

  lemma {:induction false} DigitsInConcat(s: string, t: string)
    ensures DigitsIn(s + t) == DigitsIn(s) + DigitsIn(t)
  {
    if t == "" {
      assert s + t == s;
    } else {
      var n := |t| - 1;
      assert (s + t)[..|s + t| - 1] == s + t[..n];
      DigitsInConcat(s, t[..n]);
    }
  }

  lemma TimesSixteen(m: nat, p: nat)
    ensures 16 * (m * p) == m * (16 * p)
  {}

  lemma {:induction false} NumeralConcat(a: seq<nat>, b: seq<nat>)
    ensures Numeral(a + b) == Numeral(a) * Pow16(|b|) + Numeral(b)
  {
    if b == [] {
      assert a + b == a;
    } else {
      var n := |b| - 1;
      assert (a + b)[..|a + b| - 1] == a + b[..n];
      NumeralConcat(a, b[..n]);
      TimesSixteen(Numeral(a), Pow16(n));
    }
  }

  lemma {:induction false} NumeralBound(ds: seq<nat>)
    requires AreHexDigits(ds)
    ensures Numeral(ds) < Pow16(|ds|)
  {
    if ds == [] {
    } else {
      NumeralBound(ds[..|ds| - 1]);
    }
  }

  /** A rendering in `n` digits reads back as the number, whenever the number fits. */
  lemma {:induction false} HexReadsBack(v: nat, n: nat)
    requires v < Pow16(n)
    ensures |DigitsIn(Hex(v, n))| == n && Numeral(DigitsIn(Hex(v, n))) == v
    decreases n
  {
    if n == 0 {
    } else {
      var s := Hex(v, n);
      HexReadsBack(v / 16, n - 1);
      ToDigitOfUpper(v % 16);
      assert s[..n - 1] == Hex(v / 16, n - 1);
      var ds := DigitsIn(s);
      assert ds == DigitsIn(s[..n - 1]) + [v % 16];
      assert ds[..n - 1] == DigitsIn(s[..n - 1]);
    }
  }

  lemma {:induction false} LowerHexReadsBack(v: nat, n: nat)
    requires v < Pow16(n)
    ensures |DigitsIn(LowerHex(v, n))| == n && Numeral(DigitsIn(LowerHex(v, n))) == v
    decreases n
  {
    if n == 0 {
    } else {
      var s := LowerHex(v, n);
      LowerHexReadsBack(v / 16, n - 1);
      ToDigitOfLower(v % 16);
      assert s[..n - 1] == LowerHex(v / 16, n - 1);
      var ds := DigitsIn(s);
      assert ds == DigitsIn(s[..n - 1]) + [v % 16];
      assert ds[..n - 1] == DigitsIn(s[..n - 1]);
    }
  }
}

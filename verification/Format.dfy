/** The hand-written formatter of `loader/str.c`: `mini_vsprintf` over NUL-terminated character arrays. */
module Format {
  import opened Numerals

  const NUL: char := '\0'

  /** One variadic argument: an `int` (also taken by %c and %x) or the text a `char *` points to. */
  datatype Arg = Num(value: int) | Text(text: string)

  predicate IsInt32(v: int) {
    -0x8000_0000 <= v < 0x8000_0000
  }

  predicate IsText(s: string) {
    NUL !in s
  }

  // ---------- Conversions ----------

  /** C's `/`, which truncates toward zero. */
  function TruncDiv(a: int, b: int): int
    requires b > 0
  {
    if a >= 0 then a / b else -(-a / b)
  }

  /** C's `%`: the remainder takes the sign of the dividend. */
  function TruncMod(a: int, b: int): int
    requires b > 0
  {
    a - b * TruncDiv(a, b)
  }

  /** `'0' + r`, which for a negative remainder lies below '0'. */
  function DigitChar(r: int): char
    requires -9 <= r <= 9
  {
    ('0' as int + r) as char
  }

  function Abs(v: int): nat {
    if v < 0 then -v else v
  }

  /** The digit cells of a nonzero value, most significant first, as repeated `% 10` and `/ 10` produce them. */
  function DigitCells(v: int): (s: string)
    requires v != 0
    ensures |s| >= 1
    decreases Abs(v)
  {
    var last := [DigitChar(TruncMod(v, 10))];
    if TruncDiv(v, 10) == 0 then last else DigitCells(TruncDiv(v, 10)) + last
  }

  /** What `%d` prints. */
  function Decimal(v: int): string {
    if v == 0 then "0" else (if v < 0 then "-" else "") + DigitCells(v)
  }

  /** The 32-bit pattern of an `int` as an `unsigned int`. */
  function Unsigned(v: int): nat {
    v % 0x1_0000_0000
  }

  /** An `int` stored into a `char`. */
  function LowChar(v: int): char {
    (v % 0x100) as char
  }

  // ---------- Tokens ----------

  /** A format is read as a string of tokens; the last may lack its second character. */
  datatype Token = Plain(c: char) | Escape(c: char) | Conversion(c: char) | Dangling

  function FirstToken(f: string): Token
    requires f != ""
  {
    if f[0] != '\\' && f[0] != '%' then Plain(f[0])
    else if |f| == 1 then Dangling
    else if f[0] == '\\' then Escape(f[1])
    else Conversion(f[1])
  }

  /** The number of characters a token takes. */
  function Width(t: Token): (n: nat)
    ensures n == 1 || n == 2
  {
    if t.Plain? || t.Dangling? then 1 else 2
  }

  function Tokens(f: string): seq<Token> {
    if f == "" then [] else [FirstToken(f)] + Tokens(f[Width(FirstToken(f))..])
  }

  /** The number of arguments a token takes. */
  function Arity(t: Token): nat {
    if t.Conversion? && (t.c == 'c' || t.c == 's' || t.c == 'd' || t.c == 'x') then 1 else 0
  }

  predicate TokenFits(t: Token, args: seq<Arg>) {
    Arity(t) == 1 ==>
      && |args| >= 1
      && if t.c == 's' then args[0].Text? && IsText(args[0].text) else args[0].Num? && IsInt32(args[0].value)
  }

  /** Every conversion finds an argument of its kind; C leaves anything else undefined. */
  predicate ArgsFit(ts: seq<Token>, args: seq<Arg>) {
    ts == [] || (TokenFits(ts[0], args) && ArgsFit(ts[1..], args[Arity(ts[0])..]))
  }

  function Render(t: Token, args: seq<Arg>): string
    requires TokenFits(t, args)
  {
    match t
    case Plain(c) => [c]
    case Escape(c) => if c == 'n' then "\n" else if c == 'r' then "\r" else ['\\', c]
    case Conversion(c) =>
      if c == 'c' then [LowChar(args[0].value)]
      else if c == 's' then args[0].text
      else if c == 'd' then Decimal(args[0].value)
      else if c == 'x' then Hex(Unsigned(args[0].value), 8)
      else ['%', c]
    case Dangling => "\\"
  }

  function Output(ts: seq<Token>, args: seq<Arg>): string
    requires ArgsFit(ts, args)
  {
    if ts == [] then "" else Render(ts[0], args) + Output(ts[1..], args[Arity(ts[0])..])
  }

  lemma OutputCons(t: Token, ts: seq<Token>, args: seq<Arg>)
    requires TokenFits(t, args) && ArgsFit(ts, args[Arity(t)..])
    ensures ArgsFit([t] + ts, args)
    ensures Output([t] + ts, args) == Render(t, args) + Output(ts, args[Arity(t)..])
  {
    assert ([t] + ts)[1..] == ts;
  }

  lemma NoTokens()
    ensures ArgsFit([], []) && Output([], []) == ""
  {}

  predicate FormatFits(f: string, args: seq<Arg>) {
    ArgsFit(Tokens(f), args)
  }

  /** The text a format and its arguments stand for. */
  function Formatted(f: string, args: seq<Arg>): string
    requires FormatFits(f, args)
  {
    Output(Tokens(f), args)
  }

  // ---------- Formatting in pieces ----------

  /** The last token has all its characters. */
  predicate Complete(f: string) {
    Dangling !in Tokens(f)
  }

  function ArgCount(ts: seq<Token>): nat {
    if ts == [] then 0 else Arity(ts[0]) + ArgCount(ts[1..])
  }

  lemma TokensUnfold(f: string)
    ensures f == "" ==> Tokens(f) == []
    ensures f != "" ==> Tokens(f) == [FirstToken(f)] + Tokens(f[Width(FirstToken(f))..])
  {}

  lemma TokensOfPlain(c: char, rest: string)
    requires c != '\\' && c != '%'
    ensures Tokens([c] + rest) == [Plain(c)] + Tokens(rest)
  {
    hide Tokens;
    TokensUnfold([c] + rest);
    assert ([c] + rest)[1..] == rest;
  }

  lemma TokensOfConversion(c: char, rest: string)
    ensures Tokens(['%', c] + rest) == [Conversion(c)] + Tokens(rest)
  {
    hide Tokens;
    TokensUnfold(['%', c] + rest);
    assert (['%', c] + rest)[2..] == rest;
  }

  lemma {:induction false} TokensConcat(f: string, g: string)
    requires Complete(f)
    ensures Tokens(f + g) == Tokens(f) + Tokens(g)
    decreases |f|
  {
    hide Tokens;
    TokensUnfold(f);
    if f == "" {
      assert f + g == g;
    } else {
      var t := FirstToken(f);
      assert t in Tokens(f);
      assert FirstToken(f + g) == t;
      hide FirstToken;
      var rest := f[Width(t)..];
      assert (f + g)[Width(t)..] == rest + g;
      TokensUnfold(f + g);
      TokensConcat(rest, g);
      assert [t] + (Tokens(rest) + Tokens(g)) == [t] + Tokens(rest) + Tokens(g);
    }
  }

  lemma {:induction false} ArgsFitConcat(ts: seq<Token>, us: seq<Token>, args: seq<Arg>)
    requires ArgsFit(ts + us, args)
    ensures ArgsFit(ts, args) && ArgCount(ts) <= |args| && ArgsFit(us, args[ArgCount(ts)..])
    decreases |ts|
  {
    if ts == [] {
      assert ts + us == us && args[0..] == args;
    } else {
      var rest := args[Arity(ts[0])..];
      assert (ts + us)[1..] == ts[1..] + us;
      ArgsFitConcat(ts[1..], us, rest);
      assert rest[ArgCount(ts[1..])..] == args[ArgCount(ts)..];
    }
  }

  lemma {:induction false} OutputConcat(ts: seq<Token>, us: seq<Token>, args: seq<Arg>)
    requires ArgsFit(ts + us, args)
    requires ArgsFit(ts, args) && ArgCount(ts) <= |args| && ArgsFit(us, args[ArgCount(ts)..])
    ensures Output(ts + us, args) == Output(ts, args) + Output(us, args[ArgCount(ts)..])
    decreases |ts|
  {
    hide Render, TokenFits;
    if ts == [] {
      assert ts + us == us && args[0..] == args;
    } else {
      var rest := args[Arity(ts[0])..];
      assert (ts + us)[1..] == ts[1..] + us;
      assert rest[ArgCount(ts[1..])..] == args[ArgCount(ts)..];
      OutputConcat(ts[1..], us, rest);
    }
  }

  /** A complete format followed by another prints what the two print one after the other. */
  lemma {:induction false} FormatConcat(f: string, g: string, args: seq<Arg>)
    requires Complete(f) && FormatFits(f + g, args)
    ensures FormatFits(f, args)
    ensures var k := ArgCount(Tokens(f));
      && k <= |args| && FormatFits(g, args[k..])
      && Formatted(f + g, args) == Formatted(f, args) + Formatted(g, args[k..])
  {
    TokensConcat(f, g);
    ArgsFitConcat(Tokens(f), Tokens(g), args);
    OutputConcat(Tokens(f), Tokens(g), args);
  }

  /** An incomplete format is a complete one and a last `%` or backslash, which prints as a backslash. */
  lemma {:induction false} IncompleteFormat(f: string)
    requires !Complete(f)
    ensures f != ""
    ensures var n := |f| - 1;
            (f[n] == '%' || f[n] == '\\') && Complete(f[..n]) && Tokens(f) == Tokens(f[..n]) + [Dangling]
    decreases |f|
  {
    hide Tokens;
    TokensUnfold(f);
    TokensUnfold("");
    var t := FirstToken(f);
    var g := f[Width(t)..];
    var n := |f| - 1;
    if t == Dangling {
      assert n == 0 && f[..0] == "" && g == "";
    } else {
      IncompleteFormat(g);
      assert g[|g| - 1] == f[n] && g[..|g| - 1] == f[..n][Width(t)..];
      assert FirstToken(f[..n]) == t;
      TokensUnfold(f[..n]);
    }
  }

  /** Printing `f` and then `g` with the arguments that are left is printing the two as one format. */
  predicate ComposesWith(f: string, g: string, args: seq<Arg>)
    requires FormatFits(f, args) && FormatFits(f + g, args)
  {
    var k := ArgCount(Tokens(f));
    k <= |args| && FormatFits(g, args[k..]) && Formatted(f + g, args) == Formatted(f, args) + Formatted(g, args[k..])
  }

  /** What completes a last `%` or backslash to a pair that prints differently from the two by themselves. */
  function Completion(f: string): string
    requires f != ""
  {
    if f[|f| - 1] == '%' then "%" else "n"
  }

  /** A token that takes no argument prints the same whatever arguments are left. */
  lemma RenderAlone(t: Token, args: seq<Arg>)
    requires Arity(t) == 0
    ensures TokenFits(t, args) && Render(t, args) == Render(t, [])
  {}

  lemma OnlyToken(t: Token, args: seq<Arg>)
    requires Arity(t) == 0
    ensures ArgsFit([t], args) && Output([t], args) == Render(t, [])
  {
    RenderAlone(t, args);
    hide Render, TokenFits;
    NoTokens();
    assert [t] + [] == [t] && args[0..] == args;
    OutputCons(t, [], args);
    assert Output([], args) == "" && Render(t, args) + "" == Render(t, args);
  }

  lemma {:induction false} FitsConcat(ts: seq<Token>, us: seq<Token>, args: seq<Arg>)
    requires ArgsFit(ts, args) && ArgCount(ts) <= |args| && ArgsFit(us, args[ArgCount(ts)..])
    ensures ArgsFit(ts + us, args) && ArgCount(ts + us) == ArgCount(ts) + ArgCount(us)
    decreases |ts|
  {
    if ts == [] {
      assert ts + us == us && args[0..] == args;
    } else {
      var rest := args[Arity(ts[0])..];
      assert (ts + us)[1..] == ts[1..] + us;
      assert rest[ArgCount(ts[1..])..] == args[ArgCount(ts)..];
      FitsConcat(ts[1..], us, rest);
    }
  }

  lemma LastToken(ts: seq<Token>, t: Token, args: seq<Arg>)
    requires ArgsFit(ts, args) && Arity(t) == 0
    ensures ArgCount(ts) <= |args| && ArgsFit(ts + [t], args) && ArgCount(ts + [t]) == ArgCount(ts)
    ensures Output(ts + [t], args) == Output(ts, args) + Render(t, [])
    decreases |ts|
  {
    ArgsFitConcat(ts, [], args) by { assert ts + [] == ts; }
    OnlyToken(t, args[ArgCount(ts)..]);
    FitsConcat(ts, [t], args);
    OutputConcat(ts, [t], args);
  }

  lemma OneToken(c: char, args: seq<Arg>)
    requires c != '\\'
    ensures FormatFits([c], args) && Formatted([c], args) == if c == '%' then Render(Dangling, []) else [c]
  {
    var t := if c == '%' then Dangling else Plain(c);
    assert Tokens([c]) == [t] by {
      TokensUnfold([c]);
      TokensUnfold("");
      assert [c][1..] == "";
    }
    OnlyToken(t, args);
  }

  lemma PairToken(last: char, next: char)
    requires last == '%' || last == '\\'
    ensures Tokens([last, next]) == [if last == '%' then Conversion(next) else Escape(next)]
  {
    assert [last, next][2..] == "";
  }

  lemma PairPrintsDifferently(text: string)
    ensures text + Render(Conversion('%'), []) != text + Render(Dangling, []) + Render(Dangling, [])
    ensures text + Render(Escape('n'), []) != text + Render(Dangling, []) + "n"
  {
    var n := |text|;
    assert (text + Render(Conversion('%'), []))[n] == '%';
    assert (text + Render(Escape('n'), []))[n] == '\n';
    assert (text + Render(Dangling, []) + Render(Dangling, []))[n] == '\\' && (text + Render(Dangling, []) + "n")[n] == '\\';
  }

  /** No incomplete format composes with everything: with its completion it prints something else. */
  lemma {:induction false} DanglingDoesNotCompose(f: string, args: seq<Arg>)
    requires !Complete(f) && FormatFits(f, args)
    ensures f != "" && FormatFits(f + Completion(f), args) && !ComposesWith(f, Completion(f), args)
  {
    hide Tokens, ArgsFit, Output, Render;
    IncompleteFormat(f);
    var front, last := f[..|f| - 1], f[|f| - 1];
    var g := Completion(f);
    var t := if last == '%' then Conversion('%') else Escape('n');
    ArgsFitConcat(Tokens(front), [Dangling], args);
    assert f + g == front + [last, g[0]];
    PairToken(last, g[0]);
    TokensConcat(front, [last, g[0]]);
    LastToken(Tokens(front), Dangling, args);
    LastToken(Tokens(front), t, args);
    OneToken(g[0], args[ArgCount(Tokens(f))..]);
    assert g == [g[0]];
    PairPrintsDifferently(Output(Tokens(front), args));
  }

  /** A format composes with whatever may follow it exactly when it does not end in the middle of a token. */
  lemma {:induction false} ComposesIffComplete(f: string, args: seq<Arg>)
    requires FormatFits(f, args)
    ensures Complete(f) <==> forall g: string :: FormatFits(f + g, args) ==> ComposesWith(f, g, args)
  {
    if Complete(f) {
      forall g: string | FormatFits(f + g, args) ensures ComposesWith(f, g, args) {
        FormatConcat(f, g, args);
      }
    } else {
      DanglingDoesNotCompose(f, args);
    }
  }

  /** The completion need not be a special one: `%` and then `x` is not `%x`. */
  lemma PercentThenX()
    ensures FormatFits("%", []) && FormatFits("x", []) && Formatted("%", []) + Formatted("x", []) == "\\x"
    ensures FormatFits("%x", [Num(0)]) && Formatted("%x", [Num(0)]) == Hex(0, 8) != "\\x"
  {
    assert "%x"[2..] == "" && "x"[1..] == "";
    assert Tokens("%x") == [Conversion('x')] && Tokens("%") == [Dangling] && Tokens("x") == [Plain('x')];
    assert [Conversion('x')][1..] == [] && [Dangling][1..] == [] && [Plain('x')][1..] == [];
  }

  // ---------- What each pair prints, in character codes ----------

  /** A format that is one token. */
  lemma {:induction false} OneTokenFormat(f: string, t: Token, args: seq<Arg>)
    requires Tokens(f) == [t] && TokenFits(t, args)
    ensures FormatFits(f, args) && Formatted(f, args) == Render(t, args)
  {
    hide Render, Tokens;
    NoTokens();
    assert [t] + [] == [t];
    OutputCons(t, [], args);
    assert Output([], args[Arity(t)..]) == "" && Render(t, args) + "" == Render(t, args);
  }

  lemma TokensOfPair(first: char, second: char)
    ensures first == '%' ==> Tokens([first, second]) == [Conversion(second)]
    ensures first == '\\' ==> Tokens([first, second]) == [Escape(second)]
  {
    assert [first, second][2..] == "";
  }

  /** `%c` prints the character whose code it is given; only the code modulo 256 matters. */
  lemma {:induction false} PercentC(v: int, w: int, c: char)
    requires IsInt32(v) && IsInt32(w)
    ensures FormatFits("%c", [Num(v)]) && FormatFits("%c", [Num(w)])
    ensures v == c as int < 0x100 ==> Formatted("%c", [Num(v)]) == [c]
    ensures Formatted("%c", [Num(v)]) == Formatted("%c", [Num(w)]) <==> v % 0x100 == w % 0x100
  {
    hide Tokens;
    TokensOfPair('%', 'c');
    assert "%c" == ['%', 'c'];
    OneTokenFormat("%c", Conversion('c'), [Num(v)]);
    OneTokenFormat("%c", Conversion('c'), [Num(w)]);
  }

  /** `%s`, `%d` and `%x` print the text, the decimal rendering and the eight digits of the 32-bit pattern. */
  lemma {:induction false} PercentOthers(text: string, v: int)
    requires IsText(text) && IsInt32(v)
    ensures FormatFits("%s", [Text(text)]) && Formatted("%s", [Text(text)]) == text
    ensures FormatFits("%d", [Num(v)]) && Formatted("%d", [Num(v)]) == Decimal(v)
    ensures FormatFits("%x", [Num(v)])
    ensures Formatted("%x", [Num(v)]) == Hex(if v < 0 then v + 0x1_0000_0000 else v, 8)
  {
    hide Tokens, Hex, Decimal;
    TokensOfPair('%', 's');
    TokensOfPair('%', 'd');
    TokensOfPair('%', 'x');
    assert "%s" == ['%', 's'] && "%d" == ['%', 'd'] && "%x" == ['%', 'x'];
    OneTokenFormat("%s", Conversion('s'), [Text(text)]);
    OneTokenFormat("%d", Conversion('d'), [Num(v)]);
    OneTokenFormat("%x", Conversion('x'), [Num(v)]);
    assert v < 0 ==> v % 0x1_0000_0000 == v + 0x1_0000_0000;
  }

  /**
   * A backslash with `n` or `r` prints code 0x0A or 0x0D; every other pair prints both of its characters, a percent
   * sign with none of c, s, d and x included; and a character by itself prints itself.
   */
  lemma {:induction false} PairCodes(c: char, args: seq<Arg>)
    ensures FormatFits("\\n", args) && Formatted("\\n", args) == [0x0A as char]
    ensures FormatFits("\\r", args) && Formatted("\\r", args) == [0x0D as char]
    ensures c != 'n' && c != 'r' ==> FormatFits(['\\', c], args) && Formatted(['\\', c], args) == ['\\', c]
    ensures c !in "csdx" ==> FormatFits(['%', c], args) && Formatted(['%', c], args) == ['%', c]
    ensures c as int != 0x5C && c as int != 0x25 ==> FormatFits([c], args) && Formatted([c], args) == [c]
  {
    hide Tokens, FormatFits;
    TokensOfPair('\\', 'n');
    TokensOfPair('\\', 'r');
    TokensOfPair('\\', c);
    TokensOfPair('%', c);
    assert "\\n" == ['\\', 'n'] && "\\r" == ['\\', 'r'];
    OneTokenFormat("\\n", Escape('n'), args);
    OneTokenFormat("\\r", Escape('r'), args);
    OneTokenFormat(['\\', c], Escape(c), args);
    if c !in "csdx" {
      assert c != "csdx"[0] && c != "csdx"[1] && c != "csdx"[2] && c != "csdx"[3];
      OneTokenFormat(['%', c], Conversion(c), args);
    }
    if c as int != 0x5C && c as int != 0x25 {
      OneToken(c, args);
    }
  }

  // ---------- Decimal ----------

  /** The value of a string of digit cells, each worth its distance from '0', which may be negative. */
  function CellValue(s: string): int {
    if s == "" then 0 else 10 * CellValue(s[..|s| - 1]) + (s[|s| - 1] as int - '0' as int)
  }

  /** The cells read back as the value, for negative values as well. */
  lemma {:induction false} CellsReadBack(v: int)
    requires v != 0
    ensures CellValue(DigitCells(v)) == v
    decreases Abs(v)
  {
    var q, s := TruncDiv(v, 10), DigitCells(v);
    assert CellValue("") == 0;
    if q == 0 {
      assert s == [DigitChar(TruncMod(v, 10))] && s[..0] == "";
    } else {
      assert s == DigitCells(q) + [DigitChar(TruncMod(v, 10))];
      assert s[..|s| - 1] == DigitCells(q);
      CellsReadBack(q);
    }
  }

  function Pow10(n: nat): (p: nat)
    ensures p >= 1
  {
    if n == 0 then 1 else 10 * Pow10(n - 1)
  }

  lemma {:induction false} CellCount(v: int, n: nat)
    requires v != 0 && Abs(v) < Pow10(n)
    ensures |DigitCells(v)| <= n
    decreases n
  {
    if TruncDiv(v, 10) != 0 {
      CellCount(TruncDiv(v, 10), n - 1);
    }
  }

  /** Ten cells are enough for every 32-bit value, the minimum included. */
  lemma TenCells(v: int)
    requires -2147483648 <= v <= 2147483647 && v != 0
    ensures |DigitCells(v)| <= 10
  {
    assert Pow10(5) == 100_000;
    assert Pow10(10) == 100_000 * Pow10(5);
    CellCount(v, 10);
  }

  predicate AllDigits(s: string) {
    forall i :: 0 <= i < |s| ==> '0' <= s[i] <= '9'
  }

  /** No sign, no leading zero, digits only: the one decimal numeral of a natural number. */
  predicate IsCanonicalNatural(s: string) {
    s != "" && AllDigits(s) && (s[0] == '0' ==> |s| == 1)
  }

  /** Canonical numerals in codes: at least one character, codes 48 to 57 only, no code 48 in front of others. */
  lemma CanonicalInFigures(s: string)
    ensures IsCanonicalNatural(s) <==>
      && |s| > 0 && (forall i :: 0 <= i < |s| ==> 48 <= s[i] as int <= 57) && (s[0] as int == 48 ==> |s| == 1)
  {}

  lemma {:induction false} CellsOfPositive(v: int)
    requires v > 0
    ensures AllDigits(DigitCells(v)) && DigitCells(v)[0] != '0'
    decreases v
  {
    if TruncDiv(v, 10) != 0 {
      CellsOfPositive(v / 10);
    }
  }

  /** Every cell of a negative value mirrors, around '0', the digit that belongs there. */
  lemma {:induction false} CellsOfNegative(v: int)
    requires v > 0
    ensures |DigitCells(-v)| == |DigitCells(v)|
    ensures forall i :: 0 <= i < |DigitCells(v)| ==>
              DigitCells(-v)[i] as int - '0' as int == -(DigitCells(v)[i] as int - '0' as int)
    decreases v
  {
    if v / 10 != 0 {
      CellsOfNegative(v / 10);
    }
  }

  /** The decimal notation `%d` is meant for. */
  function Standard(v: int): string {
    if v < 0 then "-" + Decimal(-v) else Decimal(v)
  }

  lemma {:induction false} DecimalSign(v: int)
    ensures Decimal(v) != "" && (Decimal(v)[0] == '-' <==> v < 0)
  {
    if v > 0 {
      CellsOfPositive(v);
    }
  }

  lemma {:induction false} NaturalIsCanonical(v: int)
    requires v >= 0
    ensures IsCanonicalNatural(Decimal(v)) && CellValue(Decimal(v)) == v
  {
    hide DigitCells;
    if v > 0 {
      CellsOfPositive(v);
      CellsReadBack(v);
      assert Decimal(v) == DigitCells(v);
    } else {
      assert "0"[..0] == "";
    }
  }

  lemma {:induction false} NegativeIsNotStandard(v: int)
    requires v < 0
    ensures Decimal(v) != Standard(v)
  {
    hide DigitCells;
    CellsOfPositive(-v);
    CellsOfNegative(-v);
    assert Decimal(v)[1] == DigitCells(v)[0] && Standard(v)[1] == DigitCells(-v)[0];
  }

  /** A value prints as standard decimal exactly when it is not negative, and then canonically, reading back. */
  lemma {:induction false} DecimalIsStandardIff(v: int)
    ensures Decimal(v) == Standard(v) <==> v >= 0
    ensures v >= 0 ==> IsCanonicalNatural(Decimal(v)) && CellValue(Decimal(v)) == v
  {
    if v >= 0 {
      NaturalIsCanonical(v);
    } else {
      NegativeIsNotStandard(v);
    }
  }

  /** No two values print alike, not even wrongly. */
  lemma {:induction false} DecimalInjective(v: int, w: int)
    requires Decimal(v) == Decimal(w)
    ensures v == w
  {
    DecimalSign(v);
    DecimalSign(w);
    if v >= 0 {
      NaturalIsCanonical(v);
      NaturalIsCanonical(w);
    } else {
      assert Decimal(v)[1..] == DigitCells(v) && Decimal(w)[1..] == DigitCells(w);
      CellsReadBack(v);
      CellsReadBack(w);
    }
  }

  // ---------- The C code ----------

  /** Where the text in `a` from `at` on ends. */
  ghost predicate TextAt(a: array<char>, at: nat, text: string)
    reads a
  {
    at + |text| < a.Length && a[at..at + |text|] == text && a[at + |text|] == NUL && IsText(text)
  }

  lemma CharsOfText(a: array<char>, at: nat, text: string)
    requires TextAt(a, at, text)
    ensures forall j {:trigger text[j]} :: 0 <= j < |text| ==> a[at + j] == text[j] && text[j] != NUL
    ensures a[at + |text|] == NUL
  {
    forall j | 0 <= j < |text| ensures a[at + j] == text[j] && text[j] != NUL {
      assert a[at..at + |text|][j] == text[j];
    }
  }

  /** A text in memory holds no code 0 and ends at one. */
  lemma {:induction false} TextInFigures(a: array<char>, at: nat, text: string)
    ensures TextAt(a, at, text) <==>
      && at + |text| < a.Length && a[at + |text|] as int == 0
      && forall j {:trigger text[j]} :: 0 <= j < |text| ==> a[at + j] == text[j] && text[j] as int != 0
  {
    if TextAt(a, at, text) {
      CharsOfText(a, at, text);
    } else if at + |text| < a.Length && (forall j {:trigger text[j]} :: 0 <= j < |text| ==> a[at + j] == text[j] && text[j] as int != 0) {
      assert a[at..at + |text|] == text;
    }
  }

  /** Only cells from `from` up to but not including `to` may differ from what they held. */
  twostate predicate OnlyWrote(str: array<char>, from: nat, to: nat)
    reads str
  {
    forall j :: 0 <= j < str.Length && !(from <= j < to) ==> str[j] == old(str[j])
  }

  /** The `%s` loop. */
  method PutText(str: array<char>, start: nat, subtext: string) returns (pos: nat)
    requires start + |subtext| <= str.Length
    modifies str
    ensures pos == start + |subtext| && str[start..pos] == subtext && OnlyWrote(str, start, pos)
  {
    pos := start;
    for k := 0 to |subtext|
      invariant pos == start + k && OnlyWrote(str, start, pos)
      invariant forall j :: 0 <= j < k ==> str[start + j] == subtext[j]
    {
      str[pos] := subtext[k];
      pos := pos + 1;
    }
  }

  /** The first half of the `%d` block: the digits go backwards into the cells of a ten-character buffer. */
  method CollectDigits(digits: array<char>, value: int) returns (digpos: nat)
    requires IsInt32(value) && value != 0 && digits.Length == 10
    modifies digits
    ensures digpos == |DigitCells(value)| <= 10
    ensures forall j :: 0 <= j < digpos ==> digits[j] == DigitCells(value)[digpos - 1 - j]
  {
    ghost var cells := DigitCells(value);
    TenCells(value);
    // do { ... } while (val != 0)
    digits[0] := DigitChar(TruncMod(value, 10));
    var val := TruncDiv(value, 10);
    digpos := 1;
    while val != 0
      invariant 1 <= digpos <= |cells|
      invariant if val == 0 then digpos == |cells| else DigitCells(val) == cells[..|cells| - digpos]
      invariant forall j :: 0 <= j < digpos ==> digits[j] == cells[|cells| - 1 - j]
      decreases Abs(val)
    {
      digits[digpos] := DigitChar(TruncMod(val, 10));
      val := TruncDiv(val, 10);
      digpos := digpos + 1;
    }
  }

  /** The second half: the collected digits are copied out backwards again. */
  method PutReversed(str: array<char>, start: nat, digits: array<char>, count: nat, ghost cells: string) returns (pos: nat)
    requires count == |cells| <= digits.Length && start + count <= str.Length && digits != str
    requires forall j :: 0 <= j < count ==> digits[j] == cells[count - 1 - j]
    modifies str
    ensures pos == start + count && str[start..pos] == cells && OnlyWrote(str, start, pos)
  {
    pos := start;
    var digpos := count;
    while digpos != 0
      invariant 0 <= digpos <= count && pos == start + (count - digpos)
      invariant forall j :: 0 <= j < count ==> digits[j] == cells[count - 1 - j]
      invariant str[start..pos] == cells[..count - digpos]
      invariant OnlyWrote(str, start, pos)
    {
      digpos := digpos - 1;
      str[pos] := digits[digpos];
      pos := pos + 1;
    }
  }

  /** The `%d` block. */
  method PutDecimal(str: array<char>, start: nat, value: int) returns (pos: nat)
    requires IsInt32(value) && start + |Decimal(value)| <= str.Length
    modifies str
    ensures pos == start + |Decimal(value)| && str[start..pos] == Decimal(value) && OnlyWrote(str, start, pos)
  {
    hide DigitCells;
    if value == 0 {
      str[start] := '0';
      return start + 1;
    }
    var digits := new char[10];
    var digpos := CollectDigits(digits, value);
    if value < 0 {
      str[start] := '-';
      pos := PutReversed(str, start + 1, digits, digpos, DigitCells(value));
      assert str[start..pos] == [str[start]] + str[start + 1..pos];
    } else {
      pos := PutReversed(str, start, digits, digpos, DigitCells(value));
    }
  }

  /** `val >> n` */
  function ShiftRight(val: nat, n: nat): nat {
    if n == 0 then val else ShiftRight(val, n - 1) / 2
  }

  lemma FourShifts(val: nat, n: nat)
    ensures ShiftRight(val, n + 4) == ShiftRight(val, n) / 16
  {
    assert ShiftRight(val, n + 2) == ShiftRight(val, n) / 4;
    assert ShiftRight(val, n + 4) == ShiftRight(val, n + 2) / 4;
  }

  /** The `%x` loop: eight digits, from the top four bits down. */
  method PutHex(str: array<char>, start: nat, val: nat) returns (pos: nat)
    requires start + 8 <= str.Length
    modifies str
    ensures pos == start + 8 && str[start..pos] == Hex(val, 8) && OnlyWrote(str, start, pos)
  {
    hide Hex;
    pos := start;
    var i := 28;
    HexUnfold(ShiftRight(val, 32), 0);
    while i >= 0
      invariant -4 <= i <= 28 && i % 4 == 0 && pos == start + (28 - i) / 4
      invariant str[start..pos] == Hex(ShiftRight(val, i + 4), (28 - i) / 4)
      invariant OnlyWrote(str, start, pos)
    {
      var c := ShiftRight(val, i) % 0x10;
      FourShifts(val, i);
      HexUnfold(ShiftRight(val, i), (32 - i) / 4);
      ghost var before := str[start..pos];
      str[pos] := if c < 10 then ('0' as int + c) as char else (c + ('A' as int - 0xA)) as char;
      pos := pos + 1;
      assert str[start..pos] == before + [UpperDigit(c)];
      i := i - 4;
    }
    assert ShiftRight(val, 0) == val;
  }

  /** The cases after a backslash, other than the end of the format. */
  method PutEscape(str: array<char>, start: nat, c: char, ghost args: seq<Arg>) returns (pos: nat)
    requires TokenFits(Escape(c), args) && start + |Render(Escape(c), args)| <= str.Length
    modifies str
    ensures pos == start + |Render(Escape(c), args)| && str[start..pos] == Render(Escape(c), args)
    ensures OnlyWrote(str, start, pos)
  {
    if c == 'n' {
      str[start] := '\n';
      pos := start + 1;
    } else if c == 'r' {
      str[start] := '\r';
      pos := start + 1;
    } else {
      str[start] := '\\';
      str[start + 1] := c;
      pos := start + 2;
    }
  }

  /** The cases after a percent sign, other than the end of the format; `args` are those not yet taken. */
  method PutConversion(str: array<char>, start: nat, c: char, args: seq<Arg>) returns (pos: nat, taken: nat)
    requires TokenFits(Conversion(c), args) && start + |Render(Conversion(c), args)| <= str.Length
    modifies str
    ensures taken == Arity(Conversion(c))
    ensures pos == start + |Render(Conversion(c), args)| && str[start..pos] == Render(Conversion(c), args)
    ensures OnlyWrote(str, start, pos)
  {
    taken := 1;
    if c == 'c' {
      str[start] := LowChar(args[0].value);
      pos := start + 1;
    } else if c == 's' {
      pos := PutText(str, start, args[0].text);
    } else if c == 'd' {
      pos := PutDecimal(str, start, args[0].value);
    } else if c == 'x' {
      pos := PutHex(str, start, Unsigned(args[0].value));
    } else {
      str[start] := '%';
      str[start + 1] := c;
      pos := start + 2;
      taken := 0;
    }
  }

  /** What the loop still has to print at position `p` of the format. */
  ghost function Remaining(f: string, p: nat, args: seq<Arg>, k: nat): string
    requires p <= |f| && k <= |args| && ArgsFit(Tokens(f[p..]), args[k..])
  {
    Output(Tokens(f[p..]), args[k..])
  }

  /** One token further. */
  lemma {:induction false} NextToken(f: string, p: nat, args: seq<Arg>, k: nat)
    requires p < |f| && k <= |args| && ArgsFit(Tokens(f[p..]), args[k..])
    ensures Tokens(f[p..]) != []
    ensures var t := Tokens(f[p..])[0];
      && t == FirstToken(f[p..])
      && TokenFits(t, args[k..])
      && var p', k' := p + Width(t), k + Arity(t);
         && k' <= |args| && ArgsFit(Tokens(f[p'..]), args[k'..])
         && Remaining(f, p, args, k) == Render(t, args[k..]) + Remaining(f, p', args, k')
  {
    var g := f[p..];
    var t := Tokens(g)[0];
    assert g[Width(t)..] == f[p + Width(t)..];
    assert args[k..][Arity(t)..] == args[k + Arity(t)..];
    assert Tokens(f[|f|..]) == [];
  }

  lemma RenderSimple(c: char, args: seq<Arg>)
    ensures Render(Plain(c), args) == [c] && Render(Dangling, args) == "\\"
  {}

  /** One pass of the outer switch: the token at `p` is printed and stepped over, its argument taken. */
  method PutToken(str: array<char>, start: nat, format: array<char>, ghost f: string, at: nat, args: seq<Arg>)
    returns (pos: nat, p: nat, taken: nat)
    requires str != format && TextAt(format, 0, f) && at < |f| && ArgsFit(Tokens(f[at..]), args)
    requires Tokens(f[at..]) != [] && TokenFits(Tokens(f[at..])[0], args)
    requires start + |Render(Tokens(f[at..])[0], args)| <= str.Length
    modifies str
    ensures var t := Tokens(f[at..])[0];
      && pos == start + |Render(t, args)| && str[start..pos] == Render(t, args) && OnlyWrote(str, start, pos)
      && p == at + Width(t) && taken == Arity(t)
  {
    hide Tokens, Output, ArgsFit, Render, Remaining;
    CharsOfText(format, 0, f);
    assert args[0..] == args;
    NextToken(f, at, args, 0);
    RenderSimple(format[at], args);
    pos, p, taken := start, at, 0;
    if format[p] == '\\' {
      p := p + 1;
      if format[p] == NUL {
        str[pos] := '\\';
        pos := pos + 1;
      } else {
        pos := PutEscape(str, pos, format[p], args);
        p := p + 1;
      }
    } else if format[p] == '%' {
      p := p + 1;
      if format[p] == NUL {
        str[pos] := '\\';
        pos := pos + 1;
      } else {
        pos, taken := PutConversion(str, pos, format[p], args);
        p := p + 1;
      }
    } else {
      str[pos] := format[p];
      pos := pos + 1;
      p := p + 1;
    }
  }

  lemma EndOfFormat(f: string, args: seq<Arg>, k: nat)
    requires k <= |args|
    ensures ArgsFit(Tokens(f[|f|..]), args[k..]) && Remaining(f, |f|, args, k) == ""
  {}

  /**
   * `mini_vsprintf`: the format is walked up to its NUL, and the text it stands for is written with a NUL after
   * it. The result is the length without that NUL.
   */
  method MiniVsprintf(str: array<char>, format: array<char>, ghost f: string, args: seq<Arg>) returns (count: nat)
    requires str != format && TextAt(format, 0, f)
    requires FormatFits(f, args) && |Formatted(f, args)| < str.Length
    modifies str
    ensures count == |Formatted(f, args)|
    ensures str[..count] == Formatted(f, args) && str[count] as int == 0 && OnlyWrote(str, 0, count + 1)
  {
    hide Render, TokenFits, Tokens, Output, ArgsFit;
    var pos: nat, p: nat, k: nat := 0, 0, 0;
    assert f[0..] == f && args[0..] == args;
    ghost var all := Formatted(f, args);
    assert all == Remaining(f, 0, args, 0);
    CharsOfText(format, 0, f);
    while format[p] != NUL
      invariant p <= |f| && k <= |args| && ArgsFit(Tokens(f[p..]), args[k..])
      invariant pos <= |all| && str[..pos] == all[..pos] && all[pos..] == Remaining(f, p, args, k)
      invariant TextAt(format, 0, f) && OnlyWrote(str, 0, pos)
      decreases |f| - p
    {
      CharsOfText(format, 0, f);
      NextToken(f, p, args, k);
      ghost var start, piece := pos, Render(Tokens(f[p..])[0], args[k..]);
      assert all[start..start + |piece|] == piece && all[start + |piece|..] == all[start..][|piece|..];
      var taken;
      pos, p, taken := PutToken(str, pos, format, f, p, args[k..]);
      k := k + taken;
      assert str[..pos] == str[..start] + str[start..pos];
      assert all[..pos] == all[..start] + piece;
    }
    CharsOfText(format, 0, f);
    EndOfFormat(f, args, k);
    str[pos] := NUL;
    return pos;
  }
}

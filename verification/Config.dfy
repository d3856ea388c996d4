/** The SYSTEM.CNF parser of `loader/cfgparse.c`, over NUL-terminated text. */
module Config {
  import opened Numerals
  import opened Format

  datatype Option<+T> = None | Some(value: T)

  // ---------- Lines and keys ----------

  ghost predicate LineStart(t: string, i: nat) {
    i <= |t| && (i == 0 || t[i - 1] == '\n')
  }

  predicate MatchesAt(t: string, i: nat, key: string) {
    i + |key| <= |t| && t[i..i + |key|] == key
  }

  /** A line starting at `i` begins with the key. */
  ghost predicate KeyAt(t: string, key: string, i: nat) {
    LineStart(t, i) && MatchesAt(t, i, key)
  }

  /** `i` is the first line start at which the key stands. */
  ghost predicate FirstKeyAt(t: string, key: string, i: nat) {
    KeyAt(t, key, i) && forall j :: 0 <= j < i ==> !KeyAt(t, key, j)
  }

  ghost predicate HasKey(t: string, key: string) {
    exists i :: KeyAt(t, key, i)
  }

  /** `strchr`: the first `c` from `from` on. */
  function FindChar(t: string, from: nat, c: char): (r: Option<nat>)
    requires from <= |t|
    ensures r.Some? ==> from <= r.value < |t| && t[r.value] == c && c !in t[from..r.value]
    ensures r.None? ==> c !in t[from..]
    decreases |t| - from
  {
    if from == |t| then None
    else if t[from] == c then Some(from)
    else FindChar(t, from + 1, c)
  }

  /** Between a position and the next line feed no line starts. */
  lemma NoLineStartBefore(t: string, from: nat, next: Option<nat>, i: nat)
    requires from <= |t| && next == FindChar(t, from, '\n')
    requires from < i && (next.Some? ==> i <= next.value)
    ensures !LineStart(t, i)
  {
    if next.Some? {
      assert t[from..next.value][i - 1 - from] == t[i - 1];
    } else if i <= |t| {
      assert t[from..][i - 1 - from] == t[i - 1];
    }
  }

  // ---------- BIOS string calls ----------

  /** `strncmp(config, wanted, strlen(wanted)) == 0` */
  method StartsWith(config: array<char>, ghost t: string, at: nat, wanted: string) returns (equal: bool)
    requires TextAt(config, 0, t) && at <= |t| && IsText(wanted)
    ensures equal <==> MatchesAt(t, at, wanted)
  {
    CharsOfText(config, 0, t);
    var k := 0;
    while k < |wanted| && config[at + k] == wanted[k]
      invariant k <= |wanted| && at + k <= |t| && t[at..at + k] == wanted[..k]
    {
      assert wanted[k] in wanted;
      k := k + 1;
    }
    assert k < |wanted| && at + |wanted| <= |t| ==> t[at..at + |wanted|][k] == t[at + k];
    return k == |wanted|;
  }

  /** `strchr(config, c)` for a `c` other than NUL. */
  method Strchr(config: array<char>, ghost t: string, at: nat, c: char) returns (r: Option<nat>)
    requires TextAt(config, 0, t) && at <= |t| && c != NUL
    ensures r == FindChar(t, at, c)
  {
    CharsOfText(config, 0, t);
    var p := at;
    while config[p] != NUL && config[p] != c
      invariant at <= p <= |t| && FindChar(t, at, c) == FindChar(t, p, c)
      decreases |t| - p
    {
      p := p + 1;
    }
    return if config[p] == NUL then None else Some(p);
  }

  // ---------- Finding a key ----------

  /** `find_wanted`: the position just after the key on the first line that starts with it. */
  method FindWanted(config: array<char>, ghost t: string, wanted: string) returns (r: Option<nat>)
    requires TextAt(config, 0, t) && IsText(wanted)
    ensures r.None? <==> !HasKey(t, wanted)
    ensures r.Some? ==> |wanted| <= r.value <= |t| && FirstKeyAt(t, wanted, r.value - |wanted|)
  {
    var at: nat := 0;
    var equal := StartsWith(config, t, at, wanted);
    while !equal
      invariant LineStart(t, at) && equal == MatchesAt(t, at, wanted)
      invariant forall j :: 0 <= j < at ==> !KeyAt(t, wanted, j)
      decreases |t| - at
    {
      var next := Strchr(config, t, at, '\n');
      forall j | at < j && (next.Some? ==> j <= next.value) ensures !LineStart(t, j) {
        NoLineStartBefore(t, at, next, j);
      }
      if next.None? {
        return None;
      }
      at := next.value + 1;
      equal := StartsWith(config, t, at, wanted);
    }
    assert KeyAt(t, wanted, at);
    return Some(at + |wanted|);
  }

  // ---------- Hexadecimal settings ----------

  /** Where the line that holds position `p` ends. */
  function LineEnd(t: string, p: nat): (e: nat)
    requires p <= |t|
    ensures p <= e <= |t| && '\n' !in t[p..e] && (e < |t| ==> t[e] == '\n')
  {
    match FindChar(t, p, '\n')
    case Some(e) => e
    case None => |t|
  }

  /** The numeral made of every hexadecimal digit from `p` to the end of the line, on 32 bits. */
  function HexOnLine(t: string, p: nat): nat
    requires p <= |t|
  {
    Numeral(DigitsIn(t[p..LineEnd(t, p)])) % 0x1_0000_0000
  }

  lemma {:induction false} NoDigits(s: string)
    requires |s| <= 1 && (|s| == 1 ==> ToDigit(s[0]) >= 16)
    ensures DigitsIn(s) == [] && Numeral(DigitsIn(s)) == 0
  {
    if s != "" {
      assert s[..0] == "";
    }
  }

  lemma {:induction false} DigitsInSnoc(s: string, c: char)
    ensures DigitsIn(s + [c]) == DigitsIn(s) + if ToDigit(c) < 16 then [ToDigit(c)] else []
    ensures ToDigit(c) >= 16 ==> DigitsIn(s + [c]) == DigitsIn(s)
    ensures ToDigit(c) < 16 ==> Numeral(DigitsIn(s + [c])) == 16 * Numeral(DigitsIn(s)) + ToDigit(c)
  {
    assert (s + [c])[..|s|] == s;
    if ToDigit(c) < 16 {
      var ds := DigitsIn(s);
      assert (ds + [ToDigit(c)])[..|ds|] == ds;
    }
  }

  lemma LowWord(a: nat, b: nat)
    requires b < 0x1_0000_0000
    ensures (a * 0x1_0000_0000 + b) % 0x1_0000_0000 == b
  {}

  lemma ShiftIn(n: nat, d: nat)
    requires d < 16
    ensures n % 0x1_0000_0000 * 0x10 % 0x1_0000_0000 + d == (16 * n + d) % 0x1_0000_0000
  {
    var m, q := n % 0x1_0000_0000, n / 0x1_0000_0000;
    var hi, lo := m / 0x1000_0000, m % 0x1000_0000;
    LowWord(hi, 16 * lo);
    assert m * 0x10 == hi * 0x1_0000_0000 + 16 * lo;
    LowWord(16 * q + hi, 16 * lo + d);
    assert 16 * n + d == (16 * q + hi) * 0x1_0000_0000 + (16 * lo + d);
  }

  /** The parsing loop of `config_get_hex`. */
  method ParseHexLine(config: array<char>, ghost t: string, start: nat) returns (parsed: nat)
    requires TextAt(config, 0, t) && start <= |t|
    ensures parsed == HexOnLine(t, start)
  {
    hide DigitsIn, Numeral, FindChar;
    CharsOfText(config, 0, t);
    ghost var line := t[start..LineEnd(t, start)];
    assert forall j :: 0 <= j < |line| ==> line[j] == t[start + j] && line[j] != '\n';
    assert line[..0] == "";
    NoDigits("");
    var p := start;
    parsed := 0;
    while config[p] != '\n' && config[p] != NUL
      invariant start <= p <= LineEnd(t, start)
      invariant parsed == Numeral(DigitsIn(line[..p - start])) % 0x1_0000_0000
      decreases |t| - p
    {
      ghost var before := line[..p - start];
      assert line[..p - start + 1] == before + [config[p]];
      DigitsInSnoc(before, config[p]);
      var digit := ToDigit(config[p]);
      if digit < 0x10 {
        ShiftIn(Numeral(DigitsIn(before)), digit);
        parsed := parsed * 0x10 % 0x1_0000_0000 + digit;
      }
      p := p + 1;
    }
    assert line[..|line|] == line;
  }

  /** `config_get_hex`; the caller's variable goes in as `value` and comes out as `value'`. */
  method ConfigGetHex(config: array<char>, ghost t: string, wanted: string, value: nat) returns (ok: bool, value': nat)
    requires TextAt(config, 0, t) && IsText(wanted)
    ensures ok <==> HasKey(t, wanted)
    ensures !ok ==> value' == value
    ensures forall i: nat :: ok && FirstKeyAt(t, wanted, i) ==> value' == HexOnLine(t, i + |wanted|)
  {
    var found := FindWanted(config, t, wanted);
    if found.None? {
      return false, value;
    }
    var parsed := ParseHexLine(config, t, found.value);
    return true, parsed;
  }

  // ---------- What a hexadecimal line means ----------

  function LastDigits(ds: seq<nat>): seq<nat> {
    if |ds| <= 8 then ds else ds[|ds| - 8..]
  }

  lemma {:induction false} ShorterIsSmaller(m: nat, n: nat)
    requires m <= n
    ensures Pow16(m) <= Pow16(n)
    decreases n
  {
    if m < n {
      ShorterIsSmaller(m, n - 1);
    }
  }

  /** Only the last eight digits survive 32 bits. */
  lemma {:induction false} LastEightDigits(ds: seq<nat>)
    requires AreHexDigits(ds)
    ensures Numeral(ds) % 0x1_0000_0000 == Numeral(LastDigits(ds))
  {
    hide Numeral;
    var n := |ds| - |LastDigits(ds)|;
    var front, last := ds[..n], LastDigits(ds);
    assert ds == front + last;
    Pow16Of8();
    NumeralConcat(front, last);
    NumeralBound(last);
    ShorterIsSmaller(|last|, 8);
    if |ds| > 8 {
      LowWord(Numeral(front), Numeral(last));
    } else {
      assert front == [];
    }
  }

  /** A line standing at position `p` of a text: `line` up to its line feed or the end of the text. */
  predicate LineAt(t: string, p: nat, line: string) {
    && '\n' !in line && p + |line| <= |t| && t[p..p + |line|] == line
    && (p + |line| == |t| || t[p + |line|] == '\n')
  }

  lemma LineAtEnds(t: string, p: nat, line: string)
    requires LineAt(t, p, line)
    ensures p <= |t| && LineEnd(t, p) == p + |line|
  {
  }

  /** Nothing but the last eight hexadecimal digits of the line matters: not the other characters, not later lines. */
  lemma {:induction false} OnlyLastDigitsMatter(t: string, p: nat, line: string, t': string, p': nat, line': string)
    requires LineAt(t, p, line) && LineAt(t', p', line')
    requires LastDigits(DigitsIn(line)) == LastDigits(DigitsIn(line'))
    ensures p <= |t| && p' <= |t'| && HexOnLine(t, p) == HexOnLine(t', p')
  {
    hide DigitsIn, Numeral, LineEnd;
    LineAtEnds(t, p, line);
    LineAtEnds(t', p', line');
    LastEightDigits(DigitsIn(line));
    LastEightDigits(DigitsIn(line'));
  }

  /** A key line written with `%x` reads back, wherever it stands and whatever follows. */
  lemma {:induction false} HexLineReadsBack(t: string, p: nat, v: nat)
    requires v < 0x1_0000_0000 && LineAt(t, p, "=" + Hex(v, 8))
    ensures p <= |t| && HexOnLine(t, p) == v
  {
    hide DigitsIn, Numeral, Hex, LineEnd;
    LineAtEnds(t, p, "=" + Hex(v, 8));
    Pow16Of8();
    HexReadsBack(v, 8);
    DigitsInConcat("=", Hex(v, 8));
    NoDigits("=");
    assert [] + DigitsIn(Hex(v, 8)) == DigitsIn(Hex(v, 8));
  }

  lemma {:induction false} NoDigitsIn(s: string)
    requires forall c :: c in s ==> ToDigit(c) >= 16
    ensures DigitsIn(s) == []
  {
    if s == "" {
    } else {
      NoDigitsIn(s[..|s| - 1]);
    }
  }

  /** In lower case it reads back just the same, after any characters that are no digits. */
  lemma {:induction false} LowerHexLineReadsBack(t: string, p: nat, blanks: string, v: nat)
    requires v < 0x1_0000_0000 && LineAt(t, p, blanks + LowerHex(v, 8)) && forall c :: c in blanks ==> ToDigit(c) >= 16
    ensures p <= |t| && HexOnLine(t, p) == v
  {
    hide DigitsIn, Numeral, LowerHex, LineEnd;
    LineAtEnds(t, p, blanks + LowerHex(v, 8));
    Pow16Of8();
    LowerHexReadsBack(v, 8);
    DigitsInConcat(blanks, LowerHex(v, 8));
    NoDigitsIn(blanks);
    assert [] + DigitsIn(LowerHex(v, 8)) == DigitsIn(LowerHex(v, 8));
  }

  /** `pre` is empty or ends a line, so what follows it starts one. */
  predicate EndsLine(pre: string) {
    pre == "" || pre[|pre| - 1] == '\n'
  }

  lemma {:induction false} HexHasNoLineFeed(v: nat, n: nat)
    ensures '\n' !in Hex(v, n) && NUL !in Hex(v, n)
    decreases n
  {
    if n == 0 {
    } else {
      HexHasNoLineFeed(v / 16, n - 1);
    }
  }

  /**
   * Print and parse: in any configuration with no earlier line starting with the key, a line with the key, "="
   * and the `%x` rendering of `v` gives `v` back.
   */
  lemma {:induction false} HexSettingRoundTrip(pre: string, key: string, v: nat, rest: string)
    requires v < 0x1_0000_0000 && EndsLine(pre) && (rest == "" || rest[0] == '\n')
    requires forall j :: 0 <= j < |pre| ==> !KeyAt(pre + key + ("=" + Hex(v, 8)) + rest, key, j)
    ensures var t := pre + key + ("=" + Hex(v, 8)) + rest;
            FirstKeyAt(t, key, |pre|) && HexOnLine(t, |pre| + |key|) == v
  {
    hide Hex, HexOnLine;
    var line := "=" + Hex(v, 8);
    var t := pre + key + line + rest;
    var p := |pre| + |key|;
    HexHasNoLineFeed(v, 8);
    assert t[|pre|..p] == key && t[p..p + |line|] == line && t[p + |line|..] == rest;
    assert rest != "" ==> t[p + |line|..][0] == t[p + |line|];
    assert pre != "" ==> t[|pre| - 1] == pre[|pre| - 1];
    HexLineReadsBack(t, p, v);
  }

  lemma SettingTokens()
    ensures Tokens("%s=%x") == [Conversion('s')] + ([Plain('=')] + ([Conversion('x')] + []))
  {
    hide Tokens;
    TokensUnfold("");
    TokensOfConversion('x', "");
    TokensOfPlain('=', "%x");
    TokensOfConversion('s', "=%x");
    assert ['%', 'x'] + "" == "%x" && ['='] + "%x" == "=%x" && ['%', 's'] + "=%x" == "%s=%x";
  }

  /** What the format "%s=%x" prints. */
  lemma {:induction false} SettingText(key: string, v: int)
    requires IsText(key) && IsInt32(v)
    ensures FormatFits("%s=%x", [Text(key), Num(v)])
    ensures Formatted("%s=%x", [Text(key), Num(v)]) == key + ("=" + Hex(Unsigned(v), 8))
  {
    hide Hex, Tokens, Output, ArgsFit;
    var s, e, x := Conversion('s'), Plain('='), Conversion('x');
    var args, tail := [Text(key), Num(v)], [Num(v)];
    SettingTokens();
    assert args[Arity(s)..] == tail && tail[Arity(e)..] == tail && tail[Arity(x)..] == [];
    NoTokens();
    OutputCons(x, [], tail);
    OutputCons(e, [x] + [], tail);
    OutputCons(s, [e] + ([x] + []), args);
  }

  /** The formatter's own output parses back to the value that was printed, on all 32 bits. */
  method PrintThenParse(buffer: array<char>, format: array<char>, key: string, v: int, value: nat)
    returns (ok: bool, value': nat)
    requires buffer != format && TextAt(format, 0, "%s=%x") && IsText(key) && IsInt32(v)
    requires |key| + 9 < buffer.Length
    modifies buffer
    ensures ok && value' == Unsigned(v)
  {
    hide Hex, HexOnLine, Formatted, FormatFits;
    SettingText(key, v);
    ghost var text := key + ("=" + Hex(Unsigned(v), 8));
    var count := MiniVsprintf(buffer, format, "%s=%x", [Text(key), Num(v)]);
    HexHasNoLineFeed(Unsigned(v), 8);
    assert buffer[0..0 + |text|] == buffer[..count] == text;
    assert text == "" + key + ("=" + Hex(Unsigned(v), 8)) + "";
    HexSettingRoundTrip("", key, Unsigned(v), "");
    ok, value' := ConfigGetHex(buffer, text, key, value);
  }

  // ---------- Text settings ----------

  /** `isspace` of `loader/str.c`. */
  predicate IsSpace(c: char) {
    c == ' ' || c == '\r' || c == '\n' || c == '\t' || c as int == 0x0B || c as int == 0x0C
  }

  predicate IsSeparator(c: char) {
    c == '=' || IsSpace(c)
  }

  /** Horizontal tab, line feed, vertical tab, form feed, carriage return and space. */
  predicate IsSpaceCode(code: int) {
    0x09 <= code <= 0x0D || code == 0x20
  }

  lemma SpaceCodes(c: char)
    ensures IsSpace(c) <==> IsSpaceCode(c as int)
    ensures IsSeparator(c) <==> IsSpaceCode(c as int) || c as int == 0x3D
  {}

  /** The value starts at `q`: everything from `p` to there separates, line feeds included, and `q` does not. */
  predicate ValueStartsAt(t: string, p: nat, q: nat) {
    p <= q <= |t| && (forall j :: p <= j < q ==> IsSeparator(t[j])) && (q < |t| ==> !IsSeparator(t[q]))
  }

  /** The value that starts at `q` ends at `e`, before a space or the end of the text. */
  predicate ValueEndsAt(t: string, q: nat, e: nat) {
    q <= e <= |t| && (forall j :: q <= j < e ==> !IsSpace(t[j])) && (e < |t| ==> IsSpace(t[e]))
  }

  /** `v` is the value of the setting whose key ends at `p`. */
  ghost predicate IsValueAfter(t: string, p: nat, v: string) {
    exists q: nat, e: nat :: ValueStartsAt(t, p, q) && ValueEndsAt(t, q, e) && v == t[q..e]
  }

  /** The copying loop of `config_get_string`. */
  method CopyWord(config: array<char>, ghost t: string, start: nat, value: array<char>) returns (ghost v: string)
    requires TextAt(config, 0, t) && start <= |t| && value != config && value.Length > |t|
    modifies value
    ensures start + |v| <= |t| && v == t[start..start + |v|] && ValueEndsAt(t, start, start + |v|)
    ensures TextAt(value, 0, v) && OnlyWrote(value, 0, |v| + 1)
  {
    CharsOfText(config, 0, t);
    var p, valuecur := start, 0;
    while config[p] != NUL && !IsSpace(config[p])
      invariant start <= p <= |t| && valuecur == p - start
      invariant forall j :: start <= j < p ==> !IsSpace(t[j])
      invariant value[..valuecur] == t[start..p] && OnlyWrote(value, 0, valuecur)
      decreases |t| - p
    {
      value[valuecur] := config[p];
      p := p + 1;
      valuecur := valuecur + 1;
    }
    value[valuecur] := NUL;
    v := t[start..p];
    assert value[0..0 + |v|] == value[..valuecur] == v;
    assert forall c :: c in v ==> c in t;
  }

  predicate IsValueAt(t: string, p: nat, q: nat, v: string) {
    && p <= q && q + |v| <= |t| && t[q..q + |v|] == v
    && (forall j :: p <= j < q ==> IsSpaceCode(t[j] as int) || t[j] as int == 0x3D)
    && (v != "" ==> v[0] as int != 0x3D) && (forall j :: 0 <= j < |v| ==> !IsSpaceCode(v[j] as int))
    && (q + |v| < |t| ==> IsSpaceCode(t[q + |v|] as int)) && (v == "" ==> q == |t|)
  }

  /**
   * The value in character codes: between the key and the value stand the six space codes and 0x3D only, the value
   * itself holds none of the six and starts with no 0x3D, and one of the six or the end of the text follows it.
   */
  ghost predicate IsValueInCodes(t: string, p: nat, v: string) {
    exists q: nat :: IsValueAt(t, p, q, v)
  }

  lemma SpacesAreCodes()
    ensures forall c {:trigger IsSpace(c)} :: IsSpace(c) <==> IsSpaceCode(c as int)
  {}

  lemma {:induction false} ValueAtFound(t: string, p: nat, q: nat, e: nat)
    requires ValueStartsAt(t, p, q) && ValueEndsAt(t, q, e)
    ensures IsValueAt(t, p, q, t[q..e])
  {
    SpacesAreCodes();
    hide IsSpace, IsSpaceCode;
    var v := t[q..e];
    assert forall j :: 0 <= j < |v| ==> v[j] == t[q + j];
    assert v == "" ==> q == e;
  }

  lemma {:induction false} FoundAtValue(t: string, p: nat, q: nat, v: string)
    requires IsValueAt(t, p, q, v)
    ensures ValueStartsAt(t, p, q) && ValueEndsAt(t, q, q + |v|)
  {
    SpacesAreCodes();
    hide IsSpace, IsSpaceCode;
    assert forall j :: q <= j < q + |v| ==> t[j] == v[j - q];
  }

  /** The value found is the one these codes describe. */
  lemma {:induction false} ValueInCodesIff(t: string, p: nat, v: string)
    ensures IsValueAfter(t, p, v) <==> IsValueInCodes(t, p, v)
  {
    hide IsSpace, IsSpaceCode, IsSeparator;
    if IsValueAfter(t, p, v) {
      var q: nat, e: nat :| ValueStartsAt(t, p, q) && ValueEndsAt(t, q, e) && v == t[q..e];
      ValueAtFound(t, p, q, e);
    }
    if IsValueInCodes(t, p, v) {
      var q: nat :| IsValueAt(t, p, q, v);
      FoundAtValue(t, p, q, v);
    }
  }

  /** `config_get_string`: the value is copied with a NUL after it, and nothing is written when the key is missing. */
  method ConfigGetString(config: array<char>, ghost t: string, wanted: string, value: array<char>) returns (ok: bool)
    requires TextAt(config, 0, t) && IsText(wanted) && value != config && value.Length > |t|
    modifies value
    ensures ok <==> HasKey(t, wanted)
    ensures !ok ==> value[..] == old(value[..])
    ensures forall i: nat :: ok && FirstKeyAt(t, wanted, i) ==>
              exists v :: IsValueAfter(t, i + |wanted|, v) && TextAt(value, 0, v) && OnlyWrote(value, 0, |v| + 1)
  {
    var found := FindWanted(config, t, wanted);
    if found.None? {
      return false;
    }
    CharsOfText(config, 0, t);
    var p := found.value;
    while config[p] == '=' || IsSpace(config[p])
      invariant found.value <= p <= |t|
      invariant forall j :: found.value <= j < p ==> IsSeparator(t[j])
      decreases |t| - p
    {
      p := p + 1;
    }
    assert ValueStartsAt(t, found.value, p);
    ghost var v := CopyWord(config, t, p, value);
    assert IsValueAfter(t, found.value, v);
    return true;
  }

  /** There is one value only. */
  lemma ValueUnique(t: string, p: nat, v: string, w: string)
    requires IsValueAfter(t, p, v) && IsValueAfter(t, p, w)
    ensures v == w
  {
    var q: nat, e: nat :| ValueStartsAt(t, p, q) && ValueEndsAt(t, q, e) && v == t[q..e];
    var q': nat, e': nat :| ValueStartsAt(t, p, q') && ValueEndsAt(t, q', e') && w == t[q'..e'];
    assert q == q';
    assert e == e';
  }

  predicate AllSeparators(s: string) {
    forall j :: 0 <= j < |s| ==> IsSeparator(s[j])
  }

  /** A word to be written as a value. */
  predicate IsWord(s: string) {
    s != "" && forall j :: 0 <= j < |s| ==> !IsSpace(s[j])
  }

  /** A word that a setting can hold: it does not start with "=". */
  predicate IsToken(s: string) {
    IsWord(s) && s[0] != '='
  }

  /**
   * Key, separators, word, space: the word reads back, also from a later line when its own line has none, exactly
   * when it does not start with "=", which would be skipped with the separators.
   */
  lemma {:induction false} StringSettingRoundTrip(pre: string, separators: string, word: string, rest: string)
    requires AllSeparators(separators) && IsWord(word) && (rest == "" || IsSpace(rest[0]))
    ensures IsValueAfter(pre + separators + word + rest, |pre|, word) <==> word[0] != '='
  {
    var t := pre + separators + word + rest;
    var q := |pre| + |separators|;
    var e := q + |word|;
    if word[0] != '=' {
      assert t[|pre|..q] == separators && t[q..e] == word && t[e..] == rest;
      assert forall j :: |pre| <= j < q ==> t[j] == separators[j - |pre|];
      assert forall j :: q <= j < e ==> t[j] == word[j - q];
      assert rest != "" ==> t[e] == rest[0];
      assert ValueStartsAt(t, |pre|, q) && ValueEndsAt(t, q, e);
    }
  }

  /** The value lies on the key's own line exactly when something other than separators follows there. */
  lemma {:induction false} ValueOnOwnLineIff(t: string, p: nat, q: nat)
    requires ValueStartsAt(t, p, q)
    ensures p <= |t|
    ensures q < LineEnd(t, p) <==> exists j :: p <= j < LineEnd(t, p) && !IsSeparator(t[j])
    ensures q >= LineEnd(t, p) ==> q > LineEnd(t, p) || q == |t|
  {
    var e := LineEnd(t, p);
    if q < e {
      assert !IsSeparator(t[q]);
    } else if q == e && e < |t| {
      assert t[e] == '\n' && IsSeparator(t[e]);
    }
  }

  lemma LineFeedSeparates()
    ensures IsSeparator('\n')
  {}

  /** An empty setting is not empty: whatever blanks end its line, the first word after them becomes its value. */
  lemma {:induction false} EmptyValueTakesNextLine(pre: string, blanks: string, more: string, token: string, rest: string)
    requires AllSeparators(blanks) && '\n' !in blanks && AllSeparators(more)
    requires IsToken(token) && (rest == "" || IsSpace(rest[0]))
    ensures var t := pre + (blanks + "\n" + more) + token + rest;
      IsValueAfter(t, |pre|, token) && LineEnd(t, |pre|) == |pre| + |blanks|
  {
    hide LineEnd, IsSpace;
    var separators := blanks + "\n" + more;
    var t := pre + separators + token + rest;
    LineFeedSeparates();
    assert forall j :: 0 <= j < |separators| ==> IsSeparator(separators[j]);
    StringSettingRoundTrip(pre, separators, token, rest);
    assert t[|pre|..|pre| + |blanks|] == blanks && t[|pre| + |blanks|] == '\n';
    LineAtEnds(t, |pre|, blanks);
  }

  /** A configuration with a setting: the key's line is the first that starts with the key. */
  ghost predicate HoldsSetting(t: string, pre: string, key: string, separators: string, token: string, rest: string) {
    && t == pre + key + separators + token + rest && FirstKeyAt(t, key, |pre|)
    && AllSeparators(separators) && IsToken(token) && (rest == "" || IsSpace(rest[0]))
  }

  /** The key opens a line and no line before it starts the same: then that is where the setting is found. */
  lemma {:induction false} SettingIsFirst(pre: string, key: string, separators: string, token: string, rest: string)
    requires EndsLine(pre) && AllSeparators(separators) && IsToken(token) && (rest == "" || IsSpace(rest[0]))
    requires forall j :: 0 <= j < |pre| ==> !KeyAt(pre + key + separators + token + rest, key, j)
    ensures HoldsSetting(pre + key + separators + token + rest, pre, key, separators, token, rest)
  {
    var t := pre + key + separators + token + rest;
    assert t[|pre|..|pre| + |key|] == key;
    assert pre != "" ==> t[|pre| - 1] == pre[|pre| - 1];
  }

  lemma {:induction false} HasSetting(t: string, pre: string, key: string, separators: string, token: string, rest: string)
    requires HoldsSetting(t, pre, key, separators, token, rest)
    ensures HasKey(t, key) && IsValueAfter(t, |pre| + |key|, token)
  {
    assert KeyAt(t, key, |pre|);
    StringSettingRoundTrip(pre + key, separators, token, rest);
  }

  /** Whatever else the configuration holds, the setting's token is what ends up in the caller's buffer. */
  method ReadSetting(config: array<char>, ghost t: string, ghost pre: string, key: string, ghost separators: string,
                     ghost token: string, ghost rest: string, value: array<char>) returns (ok: bool)
    requires TextAt(config, 0, t) && IsText(key) && HoldsSetting(t, pre, key, separators, token, rest)
    requires value != config && value.Length > |t|
    modifies value
    ensures ok && TextAt(value, 0, token) && OnlyWrote(value, 0, |token| + 1)
  {
    hide FirstKeyAt, KeyAt, IsValueAfter, AllSeparators, IsToken, IsSpace, TextAt;
    HasSetting(t, pre, key, separators, token, rest);
    ok := ConfigGetString(config, t, key, value);
    ghost var v :| IsValueAfter(t, |pre| + |key|, v) && TextAt(value, 0, v) && OnlyWrote(value, 0, |v| + 1);
    ValueUnique(t, |pre| + |key|, v, token);
  }
}

/** `decompressfont` of `loader/debugscreen.c`: the 1-bit ROM font unpacked into a 4-bit texture in video memory. */
module Font {
  import opened Bits
  import opened Video

  const GLYPHS: nat := 96
  const FONT_BYTES: nat := 1440

  /** The ROM holds 96 glyphs of 15 bytes, one byte a line, leftmost pixel in bit 7. */
  type Rom = r: seq<Byte> | |r| == FONT_BYTES witness seq(FONT_BYTES, _ => 0)

  /** Column `column` of a line: bit 7 is the leftmost, and each shift to the left brings the next one there. */
  predicate Pixel(b: Byte, column: nat)
    decreases column
  {
    if column == 0 then b >= 0x80 else Pixel(b * 2 % 0x100, column - 1)
  }

  predicate RomPixel(rom: Rom, glyph: nat, line: nat, column: nat) {
    glyph < GLYPHS && line < 15 && column < 8 && Pixel(rom[15 * glyph + line], column)
  }

  lemma TopBit(b: Byte)
    ensures Bit(b, 7) <==> b >= 0x80
  {
    var n: nat := b;
    assert Bit(n, 7) == Bit(n / 2, 6) == Bit(n / 2 / 2, 5) == Bit(n / 2 / 2 / 2, 4);
    assert Bit(n / 2 / 2 / 2, 4) == Bit(n / 0x10, 3) == Bit(n / 0x20, 2) == Bit(n / 0x40, 1) == Bit(n / 0x80, 0);
  }

  lemma {:induction false} BitOfLow(high: nat, low: nat, j: nat, n: nat)
    requires j < n && low < Pow2(n)
    ensures Bit(high * Pow2(n) + low, j) == Bit(low, j)
    decreases j
  {
    HalveShifted(high, n);
    assert (high * Pow2(n) + low) / 2 == high * Pow2(n - 1) + low / 2;
    assert (high * Pow2(n) + low) % 2 == low % 2;
    if j == 0 {
    } else {
      BitOfLow(high, low / 2, j - 1, n - 1);
    }
  }

  lemma DoubledByte(b: Byte)
    ensures b as int * 2 % 0x100 == 2 * (b as int % 0x80)
  {}

  lemma BitOfDouble(n: nat, j: nat)
    ensures Bit(2 * n, j + 1) == Bit(n, j)
  {}

  /** A shift to the left within a byte moves every bit but the top one up. */
  lemma {:induction false} BitAfterShift(b: Byte, j: nat)
    requires j < 7
    ensures Bit(b as int * 2 % 0x100, j + 1) == Bit(b, j)
  {
    var high: nat, low: nat := b / 0x80, b % 0x80;
    assert Pow2(7) == 0x80;
    BitOfLow(high, low, j, 7);
    hide Pow2;
    BitOfDouble(low, j);
    DoubledByte(b);
  }

  /** The leftmost column is bit 7 of the line's byte and the rightmost bit 0. */
  lemma {:induction false} PixelIsBit(b: Byte, column: nat)
    requires column < 8
    ensures Pixel(b, column) <==> Bit(b, 7 - column)
    decreases column
  {
    if column == 0 {
      TopBit(b);
    } else {
      var next: Byte := b as int * 2 % 0x100;
      PixelIsBit(next, column - 1);
      BitAfterShift(b, 7 - column);
    }
  }

  /** Two pixels of a line as a byte of the 4-bit texture, the left one in the low half. */
  function PixelPair(b: Byte, k: nat): Byte
    requires k < 4
  {
    (if Pixel(b, 2 * k) then 0x0F else 0) + (if Pixel(b, 2 * k + 1) then 0xF0 else 0)
  }

  /** The line of four pixel pairs a ROM byte unpacks to. */
  function UnpackedLine(b: Byte): (s: seq<Byte>)
    ensures |s| == 4
  {
    [PixelPair(b, 0), PixelPair(b, 1), PixelPair(b, 2), PixelPair(b, 3)]
  }

  /** Cell `h` of line `line` of a glyph is where it belongs in video memory. */
  predicate CellInPlace(v: Vram, rom: Rom, glyphX: nat, glyphY: nat, line: nat, h: nat)
    requires glyphX < 16 && glyphY < 6 && line < 15 && h < 2
  {
    var b := rom[15 * (16 * glyphY + glyphX) + line];
    v(FONT_X + 2 * glyphX + h, CHAR_HEIGHT * glyphY + line) ==
      PixelPair(b, 2 * h) as int + 0x100 * PixelPair(b, 2 * h + 1) as int
  }

  ghost predicate GlyphInPlace(v: Vram, rom: Rom, glyphX: nat, glyphY: nat)
    requires glyphX < 16 && glyphY < 6
  {
    forall line, h | 0 <= line < 15 && 0 <= h < 2 :: CellInPlace(v, rom, glyphX, glyphY, line, h)
  }

  /** Every glyph of the ROM is in place. */
  ghost predicate FontInPlace(v: Vram, rom: Rom) {
    forall glyphX, glyphY | 0 <= glyphX < 16 && 0 <= glyphY < 6 :: GlyphInPlace(v, rom, glyphX, glyphY)
  }

  predicate InFontArea(a: int, b: int) {
    FONT_X <= a < FONT_X + 32 && 0 <= b < 90
  }

  /** A ROM byte after `k` double shifts. */
  function DoubleShifted(b: Byte, k: nat): Byte {
    if k == 0 then b else DoubleShifted(b, k - 1) * 4 % 0x100
  }

  lemma LowByte(a: int, w: int, t: int)
    requires a == 0x100 * w + t && 0 <= t < 0x100
    ensures a % 0x100 == t
  {}

  lemma TwoShifts(c: Byte)
    ensures c as int * 2 % 0x100 * 2 % 0x100 == c as int * 4 % 0x100
  {
    var n: int := c;
    var q, r := n * 2 / 0x100, n * 2 % 0x100;
    var u, t := r * 2 / 0x100, r * 2 % 0x100;
    LowByte(n * 4, 2 * q + u, t);
  }

  lemma DoubleShiftPixel(c: Byte, column: nat)
    ensures Pixel(c * 4 % 0x100, column) == Pixel(c, column + 2)
  {
    var c2: Byte := c * 2 % 0x100;
    TwoShifts(c);
    assert Pixel(c, column + 2) == Pixel(c2, column + 1) == Pixel(c2 * 2 % 0x100, column);
  }

  /** Shifting brings a later column to the front. */
  lemma {:induction false} ShiftedPixel(b: Byte, k: nat, column: nat)
    ensures Pixel(DoubleShifted(b, k), column) == Pixel(b, column + 2 * k)
    decreases k
  {
    if k == 0 {
    } else {
      DoubleShiftPixel(DoubleShifted(b, k - 1), column);
      ShiftedPixel(b, k - 1, column + 2);
    }
  }

  lemma TestedBits(c: Byte)
    ensures c / 0x80 % 2 == 1 <==> c >= 0x80
    ensures c / 0x40 % 2 == 1 <==> c * 2 % 0x100 >= 0x80
  {
    var d: nat := c / 0x40;
    assert d < 4 && c as int * 2 == d * 0x80 + c % 0x40 * 2;
  }

  lemma UnpackedAt(b: Byte, k: nat)
    requires k < 4
    ensures UnpackedLine(b)[k] == PixelPair(b, k)
  {
    assert k == 0 || k == 1 || k == 2 || k == 3;
  }

  /** What the loop tests and writes after `k` passes. */
  lemma {:induction false} PairOfShifted(b: Byte, k: nat)
    requires k < 4
    ensures var c := DoubleShifted(b, k);
            PixelPair(b, k) == (if c / 0x80 % 2 == 1 then 0x0F else 0) + (if c / 0x40 % 2 == 1 then 0xF0 else 0)
  {
    var c := DoubleShifted(b, k);
    TestedBits(c);
    var next: Byte := c as int * 2 % 0x100;
    assert Pixel(c, 0) == (c >= 0x80) && Pixel(c, 1) == Pixel(next, 0) == (next >= 0x80);
    hide Pixel, DoubleShifted;
    ShiftedPixel(b, k, 0);
    ShiftedPixel(b, k, 1);
  }

  /** The cell the GPU writes for a pair of bytes. */
  lemma UploadedCell(v: Vram, x: int, y: int, data: seq<Byte>, line: nat, h: nat)
    requires |data| == 60 && line < 15 && h < 2
    ensures Upload(v, x, y, 2, 15, data)(x + h, y + line) ==
            data[4 * line..4 * line + 4][2 * h] as int + 0x100 * data[4 * line..4 * line + 4][2 * h + 1] as int
  {
    var k := 2 * line + h;
    assert (y + line - y) * 2 + (x + h - x) == k;
    assert Upload(v, x, y, 2, 15, data)(x + h, y + line) == CellAt(data, k);
    assert data[4 * line..4 * line + 4][2 * h] == data[2 * k];
    assert data[4 * line..4 * line + 4][2 * h + 1] == data[2 * k + 1];
  }

  /** Writing one glyph's rectangle puts that glyph in place and leaves every other glyph and every other cell alone. */
  lemma {:induction false} UploadGlyph(v: Vram, rom: Rom, glyphX: nat, glyphY: nat, data: seq<Byte>)
    requires glyphX < 16 && glyphY < 6 && |data| == 60
    requires forall line | 0 <= line < 15 :: data[4 * line..4 * line + 4] == UnpackedLine(rom[15 * (16 * glyphY + glyphX) + line])
    ensures var v' := Upload(v, FONT_X + 2 * glyphX, CHAR_HEIGHT * glyphY, 2, 15, data);
      && GlyphInPlace(v', rom, glyphX, glyphY)
      && (forall x, y | 0 <= x < 16 && 0 <= y < 6 && (x, y) != (glyphX, glyphY) && GlyphInPlace(v, rom, x, y) ::
            GlyphInPlace(v', rom, x, y))
      && (forall a, b | !InFontArea(a, b) :: v'(a, b) == v(a, b))
  {
    var v' := Upload(v, FONT_X + 2 * glyphX, CHAR_HEIGHT * glyphY, 2, 15, data);
    forall line, h | 0 <= line < 15 && 0 <= h < 2 ensures CellInPlace(v', rom, glyphX, glyphY, line, h) {
      UploadedCell(v, FONT_X + 2 * glyphX, CHAR_HEIGHT * glyphY, data, line, h);
      var s := data[4 * line..4 * line + 4];
      assert s == UnpackedLine(rom[15 * (16 * glyphY + glyphX) + line]);
      assert h == 0 || h == 1;
    }
    forall x, y | 0 <= x < 16 && 0 <= y < 6 && (x, y) != (glyphX, glyphY) && GlyphInPlace(v, rom, x, y)
      ensures GlyphInPlace(v', rom, x, y)
    {
      forall line, h | 0 <= line < 15 && 0 <= h < 2 ensures CellInPlace(v', rom, x, y, line, h) {
        assert CellInPlace(v, rom, x, y, line, h);
      }
    }
  }

  /** Unpacks the ROM byte of one line: four pairs of pixels, two columns a pass. */
  method UnpackLine(line: Byte, charbuf: array<Byte>, bufferpos: nat)
    requires bufferpos + 4 <= charbuf.Length
    modifies charbuf
    ensures charbuf[bufferpos..bufferpos + 4] == UnpackedLine(line)
    ensures forall i | 0 <= i < charbuf.Length && !(bufferpos <= i < bufferpos + 4) :: charbuf[i] == old(charbuf[i])
  {
    hide PixelPair, Pixel, UnpackedLine;
    var char1bpp := line;
    var pos, bpos := bufferpos, 0;
    ghost var k := 0;
    while bpos < 8
      invariant bpos == 2 * k && 0 <= k <= 4 && pos == bufferpos + k && char1bpp == DoubleShifted(line, k)
      invariant charbuf[bufferpos..pos] == UnpackedLine(line)[..k]
      invariant forall i | 0 <= i < charbuf.Length && !(bufferpos <= i < pos) :: charbuf[i] == old(charbuf[i])
    {
      var char4bpp: Byte := 0;
      PairOfShifted(line, k);
      UnpackedAt(line, k);
      ghost var before := charbuf[bufferpos..pos];
      if char1bpp / 0x80 % 2 == 1 {
        char4bpp := char4bpp + 0x0F;
      }
      bpos := bpos + 1;
      if char1bpp / 0x40 % 2 == 1 {
        char4bpp := char4bpp + 0xF0;
      }
      bpos := bpos + 1;
      charbuf[pos] := char4bpp;
      pos := pos + 1;
      assert charbuf[bufferpos..pos] == before + [char4bpp];
      char1bpp := char1bpp as int * 4 % 0x100;
      k := k + 1;
    }
  }

  /** Unpacks the fifteen lines of one character into the buffer. */
  method UnpackCharacter(rom: Rom, start: nat, charbuf: array<Byte>)
    requires start + 15 <= FONT_BYTES && charbuf.Length == 60
    modifies charbuf
    ensures forall line | 0 <= line < 15 :: charbuf[4 * line..4 * line + 4] == UnpackedLine(rom[start + line])
  {
    hide UnpackedLine;
    for chary := 0 to 15
      invariant forall line | 0 <= line < chary :: charbuf[4 * line..4 * line + 4] == UnpackedLine(rom[start + line])
    {
      UnpackLine(rom[start + chary], charbuf, 4 * chary);
    }
  }

  /** `decompressfont`: each glyph lands in its cell of the 16 by 6 table, and nothing outside the table changes. */
  method DecompressFont(rom: Rom, before: Vram) returns (vram: Vram)
    ensures FontInPlace(vram, rom)
    ensures forall a, b | !(640 <= a < 672 && 0 <= b < 90) :: vram(a, b) == before(a, b)
  {
    hide Upload, GlyphInPlace;
    vram := before;
    var charbuf := new Byte[60];
    var romCharset := 0;
    for tabley := 0 to 6
      invariant romCharset == 240 * tabley
      invariant forall x, y | 0 <= x < 16 && 0 <= y < tabley :: GlyphInPlace(vram, rom, x, y)
      invariant forall a, b | !InFontArea(a, b) :: vram(a, b) == before(a, b)
    {
      for tablex := 0 to 16
        invariant romCharset == 240 * tabley + 15 * tablex
        invariant forall x, y | 0 <= x < 16 && 0 <= y < tabley :: GlyphInPlace(vram, rom, x, y)
        invariant forall x | 0 <= x < tablex :: GlyphInPlace(vram, rom, x, tabley)
        invariant forall a, b | !InFontArea(a, b) :: vram(a, b) == before(a, b)
      {
        UnpackCharacter(rom, romCharset, charbuf);
        romCharset := romCharset + 15;
        UploadGlyph(vram, rom, tablex, tabley, charbuf[..]);
        vram := Upload(vram, FONT_X + tablex * CHAR_VRAM_WIDTH * 4 / 16, tabley * CHAR_HEIGHT, 2, 15, charbuf[..]);
      }
    }
  }

  // ---------- Looking a glyph up ----------

  /** A character as the `char` it is: signed on this machine. */
  function SignedChar(c: char): int {
    var b := c as int % 0x100;
    if b < 0x80 then b else b - 0x100
  }

  const NO_GLYPH: nat := 96

  /** The table index `debug_text_at` draws for a character; the backslash is in the last place. */
  function GlyphOf(c: char): nat {
    var texIdx := SignedChar(c) - '!' as int;
    if 0 <= texIdx < 96 then (if texIdx == '\\' as int - '!' as int then 95 else texIdx) else NO_GLYPH
  }

  /** The drawn characters in codes: 0x21 to 0x7F in table order, but the backslash, 0x5C, in the last place, 95. */
  lemma GlyphInFigures(c: char)
    requires c as int < 0x100
    ensures GlyphOf(c) == if c as int == 0x5C then 95
                          else if 0x21 <= c as int <= 0x7F then c as int - 0x21 else NO_GLYPH
    ensures NO_GLYPH >= GLYPHS == 96
  {}

  /** The texture coordinates `debug_text_at` computes for a glyph. */
  function GlyphU(glyph: nat): int {
    glyph % 16 * CHAR_VRAM_WIDTH
  }

  function GlyphV(glyph: nat): int {
    glyph / 16 * CHAR_HEIGHT
  }

  lemma NibblesOfCell(a: nat, b: nat, c: nat, d: nat)
    requires a < 0x10 && b < 0x10 && c < 0x10 && d < 0x10
    ensures var cell := a + 0x10 * b + 0x100 * (c + 0x10 * d);
            Nibble(cell, 0) == a && Nibble(cell, 1) == b && Nibble(cell, 2) == c && Nibble(cell, 3) == d
  {
    var cell := a + 0x10 * b + 0x100 * (c + 0x10 * d);
    assert cell / 0x10 == b + 0x10 * (c + 0x10 * d);
    assert cell / 0x100 == c + 0x10 * d;
    assert cell / 0x1000 == d;
  }

  /** The texel of a pixel. */
  function Shade(b: Byte, column: nat): nat {
    if Pixel(b, column) then 0xF else 0
  }

  lemma PairIsShades(b: Byte, k: nat)
    requires k < 4
    ensures PixelPair(b, k) == Shade(b, 2 * k) + 0x10 * Shade(b, 2 * k + 1)
    ensures Shade(b, 2 * k) < 0x10 && Shade(b, 2 * k + 1) < 0x10
  {
    hide Pixel;
  }

  lemma NibblesOfPairs(b: Byte, column: nat)
    requires column < 8
    ensures var h := column / 4;
            Nibble(PixelPair(b, 2 * h) as int + 0x100 * PixelPair(b, 2 * h + 1) as int, column % 4) == Shade(b, column)
  {
    hide Pixel, Nibble, PixelPair, Shade;
    var h := column / 4;
    PairIsShades(b, 2 * h);
    PairIsShades(b, 2 * h + 1);
    NibblesOfCell(Shade(b, 4 * h), Shade(b, 4 * h + 1), Shade(b, 4 * h + 2), Shade(b, 4 * h + 3));
    var n := column % 4;
    assert column == 4 * h + n && (n == 0 || n == 1 || n == 2 || n == 3);
  }

  /** Every pixel of every ROM glyph is found, as 0xF or 0x0, at the texel `debug_text_at` addresses for it. */
  lemma {:induction false} TexelIsRomPixel(v: Vram, rom: Rom, glyph: nat, line: nat, column: nat)
    requires FontInPlace(v, rom) && glyph < GLYPHS && line < 15 && column < 8
    ensures Texel(v, GlyphU(glyph) + column, GlyphV(glyph) + line) ==
            if RomPixel(rom, glyph, line, column) then 0xF else 0
  {
    var x, y, h := glyph % 16, glyph / 16, column / 4;
    assert glyph == 16 * y + x;
    assert GlyphInPlace(v, rom, x, y);
    assert CellInPlace(v, rom, x, y, line, h);
    var tx := GlyphU(glyph) + column;
    assert tx / 4 == 2 * x + h && tx % 4 == column % 4;
    NibblesOfPairs(rom[15 * glyph + line], column);
  }

  /** The font in figures: glyph `g` takes two cells of fifteen lines, sixteen glyphs to a row from column 640 on. */
  lemma {:induction false} FontInFigures(v: Vram, rom: Rom, g: nat, line: nat, column: nat)
    requires FontInPlace(v, rom) && g < 96 && line < 15 && column < 8
    ensures |rom| == 1440
    ensures Nibble(v(640 + 2 * (g % 16) + column / 4, 15 * (g / 16) + line), column % 4) ==
            if Bit(rom[15 * g + line], 7 - column) then 0xF else 0
  {
    hide FontInPlace, Nibble, Pixel, Bit;
    TexelIsRomPixel(v, rom, g, line, column);
    PixelIsBit(rom[15 * g + line], column);
    var tx := GlyphU(g) + column;
    assert tx / 4 == 2 * (g % 16) + column / 4 && tx % 4 == column % 4;
  }
}

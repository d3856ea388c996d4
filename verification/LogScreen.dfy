/** The log of `loader/debugscreen.c`: text drawn glyph by glyph, repeated lines counted, new lines scrolled in. */
module LogScreen {
  import opened Bits
  import opened Video
  import opened Font
  import opened Format

  const CHAR_DRAW_WIDTH: int := 10
  const LOG_LINES: int := 22
  const LOG_MARGIN: int := 32
  const LOG_LINE_HEIGHT: int := 16
  const WHITE: int := 0x7FFF

  // ---------- Text as pixels ----------

  /** A pixel of a glyph drawn twice, the second time one column to the right. */
  predicate StruckPixel(rom: Rom, glyph: nat, line: int, column: int) {
    0 <= line && 0 <= column &&
    (RomPixel(rom, glyph, line, column) || (1 <= column && RomPixel(rom, glyph, line, column - 1)))
  }

  /** Whether a pixel `dx` to the right of and `dy` below the start of a text is lit: only its own character decides. */
  predicate TextPixel(rom: Rom, text: string, dx: int, dy: int) {
    && 0 <= dx / CHAR_DRAW_WIDTH < |text|
    && StruckPixel(rom, GlyphOf(text[dx / CHAR_DRAW_WIDTH]), dy, dx % CHAR_DRAW_WIDTH)
  }

  /** The two palette entries the font uses, as `debug_init` loads them. */
  predicate PaletteInPlace(v: Vram) {
    Colour(v, 0) == 0 && Colour(v, 0xF) == WHITE
  }

  ghost predicate ReadyToDraw(v: Vram, rom: Rom) {
    FontInPlace(v, rom) && PaletteInPlace(v)
  }

  /** Nothing drawn on the screen reaches the font or the palette. */
  lemma {:induction false} StaysReady(v: Vram, v': Vram, rom: Rom)
    requires ReadyToDraw(v, rom) && forall a, b :: !OnScreen(a, b) ==> v'(a, b) == v(a, b)
    ensures ReadyToDraw(v', rom)
  {
    forall x, y | 0 <= x < 16 && 0 <= y < 6 ensures GlyphInPlace(v', rom, x, y) {
      assert GlyphInPlace(v, rom, x, y);
      forall line, h | 0 <= line < 15 && 0 <= h < 2 ensures CellInPlace(v', rom, x, y, line, h) {
        assert CellInPlace(v, rom, x, y, line, h);
      }
    }
  }

  /** One character: a lit ROM pixel turns white, everything else stays. */
  lemma {:induction false} DrawnCharacter(v: Vram, rom: Rom, x: int, y: int, glyph: nat, a: int, b: int)
    requires ReadyToDraw(v, rom) && glyph < GLYPHS
    ensures DrawCharacter(v, x, y, GlyphU(glyph), GlyphV(glyph))(a, b) ==
            if OnScreen(a, b) && a - x >= 0 && b - y >= 0 && RomPixel(rom, glyph, b - y, a - x) then WHITE else v(a, b)
  {
    if x <= a < x + CHAR_VRAM_WIDTH && y <= b < y + CHAR_HEIGHT {
      TexelIsRomPixel(v, rom, glyph, b - y, a - x);
    }
  }

  /** A character and its overstrike. */
  lemma {:induction false} StruckCharacter(v: Vram, rom: Rom, x: int, y: int, glyph: nat)
    requires ReadyToDraw(v, rom) && glyph < GLYPHS
    ensures var u, w := GlyphU(glyph), GlyphV(glyph);
            var v' := DrawCharacter(DrawCharacter(v, x, y, u, w), x + 1, y, u, w);
            forall a, b :: v'(a, b) == if OnScreen(a, b) && StruckPixel(rom, glyph, b - y, a - x) then WHITE else v(a, b)
  {
    var u, w := GlyphU(glyph), GlyphV(glyph);
    var v1 := DrawCharacter(v, x, y, u, w);
    var v2 := DrawCharacter(v1, x + 1, y, u, w);
    StaysReady(v, v1, rom);
    forall a, b ensures v2(a, b) == if OnScreen(a, b) && StruckPixel(rom, glyph, b - y, a - x) then WHITE else v(a, b) {
      DrawnCharacter(v, rom, x, y, glyph, a, b);
      DrawnCharacter(v1, rom, x + 1, y, glyph, a, b);
    }
  }

  /** `v` is `before` with the text drawn at (x, y). */
  ghost predicate HasText(v: Vram, before: Vram, rom: Rom, x: int, y: int, text: string) {
    forall a, b :: v(a, b) == if OnScreen(a, b) && TextPixel(rom, text, a - x, b - y) then WHITE else before(a, b)
  }

  /** Appending a character lights that character's own cell only. */
  lemma {:induction false} TextPixelSnoc(rom: Rom, text: string, c: char, dx: int, dy: int)
    ensures TextPixel(rom, text + [c], dx, dy) <==>
            TextPixel(rom, text, dx, dy) || StruckPixel(rom, GlyphOf(c), dy, dx - CHAR_DRAW_WIDTH * |text|)
  {
    var k, p := dx / CHAR_DRAW_WIDTH, dx % CHAR_DRAW_WIDTH;
    assert dx == CHAR_DRAW_WIDTH * k + p;
    if k == |text| {
      assert dx - CHAR_DRAW_WIDTH * |text| == p;
    } else if k < |text| {
      assert dx - CHAR_DRAW_WIDTH * |text| < 0;
    } else {
      assert dx - CHAR_DRAW_WIDTH * |text| >= CHAR_DRAW_WIDTH;
    }
  }

  lemma {:induction false} HasTextSnoc(v: Vram, v': Vram, before: Vram, rom: Rom, x: int, y: int, text: string, c: char)
    requires HasText(v, before, rom, x, y, text)
    requires forall a, b :: v'(a, b) ==
               if OnScreen(a, b) && StruckPixel(rom, GlyphOf(c), b - y, a - (x + CHAR_DRAW_WIDTH * |text|)) then WHITE else v(a, b)
    ensures HasText(v', before, rom, x, y, text + [c])
  {
    forall a, b
      ensures v'(a, b) == if OnScreen(a, b) && TextPixel(rom, text + [c], a - x, b - y) then WHITE else before(a, b)
    {
      TextPixelSnoc(rom, text, c, a - x, b - y);
    }
  }

  lemma GlyphCases(c: char)
    ensures var texIdx := SignedChar(c) - '!' as int;
            GlyphOf(c) == if texIdx < 0 || texIdx >= 96 then NO_GLYPH
                          else if texIdx == '\\' as int - '!' as int then 95 else texIdx
  {}

  lemma NothingStruck(rom: Rom)
    ensures forall line, column :: !StruckPixel(rom, NO_GLYPH, line, column)
  {}

  lemma NoText(v: Vram, rom: Rom, x: int, y: int)
    ensures HasText(v, v, rom, x, y, "")
  {}

  /** `debug_text_at` */
  method DebugTextAt(rom: Rom, before: Vram, x: int, y: int, text: string) returns (vram: Vram)
    requires ReadyToDraw(before, rom)
    ensures HasText(vram, before, rom, x, y, text) && ReadyToDraw(vram, rom)
  {
    hide DrawCharacter, FontInPlace, PaletteInPlace, TextPixel, StruckPixel, GlyphOf;
    vram := before;
    var xPos := x;
    assert HasText(vram, before, rom, x, y, text[..0]) by { NoText(before, rom, x, y); }
    for i := 0 to |text|
      invariant xPos == x + CHAR_DRAW_WIDTH * i
      invariant HasText(vram, before, rom, x, y, text[..i]) && ReadyToDraw(vram, rom)
    {
      ghost var drawn := vram;
      GlyphCases(text[i]);
      var texIdx := SignedChar(text[i]) - '!' as int;
      if texIdx >= 0 && texIdx < 96 {
        if texIdx == '\\' as int - '!' as int {
          texIdx := 95;
        }
        StruckCharacter(vram, rom, xPos, y, texIdx);
        vram := DrawCharacter(vram, xPos, y, texIdx % 16 * CHAR_VRAM_WIDTH, texIdx / 16 * CHAR_HEIGHT);
        vram := DrawCharacter(vram, xPos + 1, y, texIdx % 16 * CHAR_VRAM_WIDTH, texIdx / 16 * CHAR_HEIGHT);
        StaysReady(drawn, vram, rom);
      } else {
        NothingStruck(rom);
      }
      HasTextSnoc(drawn, vram, before, rom, x, y, text[..i], text[i]);
      assert text[..i + 1] == text[..i] + [text[i]];
      xPos := xPos + CHAR_DRAW_WIDTH;
    }
    assert text[..|text|] == text;
  }

  // ---------- What the log holds ----------

  /** An `unsigned int` handed to `%d`. */
  function AsInt(n: nat): (v: int)
    ensures IsInt32(v)
  {
    var w := n % 0x1_0000_0000;
    if w < 0x8000_0000 then w else w - 0x1_0000_0000
  }

  /** What a line repeated `n` times shows: the format "%s (x%d)" filled in. */
  function Repeated(text: string, n: nat): string {
    text + " (x" + Decimal(AsInt(n)) + ")"
  }

  lemma RepeatTokens()
    ensures Tokens("%s (x%d)") ==
            [Conversion('s')] + ([Plain(' ')] + ([Plain('(')] + ([Plain('x')] + ([Conversion('d')] + ([Plain(')')] + [])))))
  {
    hide Tokens;
    TokensUnfold("");
    TokensOfPlain(')', "");
    TokensOfConversion('d', ")");
    TokensOfPlain('x', "%d)");
    TokensOfPlain('(', "x%d)");
    TokensOfPlain(' ', "(x%d)");
    TokensOfConversion('s', " (x%d)");
    assert [')'] + "" == ")" && ['%', 'd'] + ")" == "%d)" && ['x'] + "%d)" == "x%d)" && ['('] + "x%d)" == "(x%d)";
    assert [' '] + "(x%d)" == " (x%d)" && ['%', 's'] + " (x%d)" == "%s (x%d)";
  }

  /** The repeat line is what `mini_sprintf` makes of the format in the source. */
  lemma {:induction false} RepeatedIsFormatted(text: string, n: nat)
    requires IsText(text)
    ensures FormatFits("%s (x%d)", [Text(text), Num(AsInt(n))])
    ensures Formatted("%s (x%d)", [Text(text), Num(AsInt(n))]) == Repeated(text, n)
  {
    hide Tokens, Output, ArgsFit, Decimal, AsInt;
    var args, tail, none := [Text(text), Num(AsInt(n))], [Num(AsInt(n))], [];
    var s, d := Conversion('s'), Conversion('d');
    RepeatTokens();
    NoTokens();
    assert args[Arity(s)..] == tail && tail[0..] == tail && tail[Arity(d)..] == none && none[0..] == none;
    OutputCons(Plain(')'), [], none);
    OutputCons(d, [Plain(')')] + [], tail);
    OutputCons(Plain('x'), [d] + ([Plain(')')] + []), tail);
    OutputCons(Plain('('), [Plain('x')] + ([d] + ([Plain(')')] + [])), tail);
    OutputCons(Plain(' '), [Plain('(')] + ([Plain('x')] + ([d] + ([Plain(')')] + []))), tail);
    OutputCons(s, [Plain(' ')] + ([Plain('(')] + ([Plain('x')] + ([d] + ([Plain(')')] + [])))), args);
  }

  /** The rows on screen, oldest on top, with the text and the count the next line is compared with. */
  datatype Log = Log(rows: seq<string>, last: string, count: nat)

  predicate LogOk(log: Log) {
    |log.rows| == LOG_LINES && log.count < 0x1_0000_0000 && IsText(log.last)
  }

  /** One line written. */
  function Written(log: Log, line: string): (r: Log)
    requires LogOk(log) && IsText(line)
    ensures LogOk(r)
  {
    if line != log.last then Log(log.rows[1..] + [line], line, 1)
    else
      var n := (log.count + 1) % 0x1_0000_0000;
      Log(log.rows[..LOG_LINES - 1] + [Repeated(line, n)], line, n)
  }

  /** The log when the loader starts: nothing on screen, and an empty last line from the cleared BSS. */
  function StartLog(): (log: Log)
    ensures LogOk(log)
  {
    Log(seq(LOG_LINES, _ => ""), "", 0)
  }

  predicate AreLines(lines: seq<string>) {
    forall k :: 0 <= k < |lines| ==> IsText(lines[k])
  }

  function LogAfter(lines: seq<string>): (log: Log)
    requires AreLines(lines)
    ensures LogOk(log)
  {
    if lines == [] then StartLog() else Written(LogAfter(lines[..|lines| - 1]), lines[|lines| - 1])
  }

  /** A log left by a history becomes, with one more line, the log left by the longer history. */
  lemma LogAfterOneMore(lines: seq<string>, line: string)
    requires AreLines(lines) && IsText(line)
    ensures AreLines(lines + [line]) && LogAfter(lines + [line]) == Written(LogAfter(lines), line)
  {
    assert (lines + [line])[..|lines|] == lines;
  }

  // ---------- Run-length encoding ----------

  datatype Run = Run(text: string, count: nat)

  function AddToRuns(runs: seq<Run>, line: string): seq<Run> {
    var n := |runs|;
    if n > 0 && runs[n - 1].text == line then runs[..n - 1] + [Run(line, runs[n - 1].count + 1)]
    else runs + [Run(line, 1)]
  }

  /** The history with equal consecutive lines counted. */
  function Runs(lines: seq<string>): seq<Run> {
    if lines == [] then [] else AddToRuns(Runs(lines[..|lines| - 1]), lines[|lines| - 1])
  }

  /** A line and how often it came, the number in figures. */
  function Counted(text: string, n: nat): string {
    text + " (x" + Decimal(n) + ")"
  }

  /** How a run is meant to be shown: with its count once the line has been repeated. */
  function Shown(run: Run): string {
    if run.count == 1 then run.text else Counted(run.text, run.count)
  }

  lemma SameAround(a: string, s: string, t: string, b: string)
    requires a + s + b == a + t + b
    ensures s == t
  {
    assert |s| == |t|;
    assert (a + s + b)[|a|..|a| + |s|] == s && (a + t + b)[|a|..|a| + |t|] == t;
  }

  /** The code shows the number itself exactly as long as it fits an `int`; the counter wraps only after that. */
  lemma {:induction false} RepeatedIsCountedIff(text: string, n: nat)
    ensures Repeated(text, n) == Counted(text, n) <==> n < 0x8000_0000
  {
    hide Decimal;
    if Repeated(text, n) == Counted(text, n) {
      SameAround(text + " (x", Decimal(AsInt(n)), Decimal(n), ")");
      DecimalInjective(AsInt(n), n);
    }
  }

  /** The last 22 runs, newest at the bottom, blank rows above when there are fewer. */
  function LastRuns(runs: seq<Run>): (rows: seq<string>)
    ensures |rows| == LOG_LINES
  {
    seq(LOG_LINES, r requires 0 <= r < LOG_LINES =>
      var k := |runs| - LOG_LINES + r;
      if k < 0 then "" else Shown(runs[k]))
  }

  /** How the code shows a run: a single empty line at the very start counts as repeated. */
  function ShownAt(runs: seq<Run>, k: nat): string
    requires k < |runs|
  {
    if runs[k].count == 1 && !(k == 0 && runs[0] == Run("", 1)) then runs[k].text
    else Repeated(runs[k].text, runs[k].count)
  }

  /** How the code shows row `r`: blank as long as there are fewer runs than rows. */
  function RowAt(runs: seq<Run>, r: nat): string
    requires r < LOG_LINES
  {
    var k := |runs| - LOG_LINES + r;
    if k < 0 then "" else ShownAt(runs, k)
  }

  /** `log` is what the history left behind. */
  ghost predicate Mirrors(log: Log, runs: seq<Run>) {
    && LogOk(log)
    && (if runs == [] then log == StartLog()
        else log.last == runs[|runs| - 1].text && log.count == runs[|runs| - 1].count % 0x1_0000_0000)
    && forall r :: 0 <= r < LOG_LINES ==> log.rows[r] == RowAt(runs, r)
  }

  lemma RepeatedModulo(text: string, n: nat)
    ensures Repeated(text, n) == Repeated(text, n % 0x1_0000_0000)
  {
    hide Decimal;
    assert AsInt(n) == AsInt(n % 0x1_0000_0000);
  }

  function Copies(text: string, n: nat): seq<string> {
    seq(n, _ => text)
  }

  /** The lines a run-length encoding stands for. */
  function Expanded(runs: seq<Run>): seq<string> {
    if runs == [] then []
    else Expanded(runs[..|runs| - 1]) + Copies(runs[|runs| - 1].text, runs[|runs| - 1].count)
  }

  /** No run could be joined with the next, and none is empty. */
  predicate IsRunLength(runs: seq<Run>) {
    && (forall k :: 0 <= k < |runs| ==> runs[k].count >= 1)
    && forall k :: 0 < k < |runs| ==> runs[k - 1].text != runs[k].text
  }

  lemma {:induction false} ExpandedSnoc(runs: seq<Run>, run: Run)
    ensures Expanded(runs + [run]) == Expanded(runs) + Copies(run.text, run.count)
  {
    assert (runs + [run])[..|runs|] == runs;
  }

  lemma CopiesSnoc(text: string, n: nat)
    ensures Copies(text, n + 1) == Copies(text, n) + [text] && Copies(text, 0) == []
  {}

  lemma SameFront<T>(a: seq<T>, b: seq<T>, c: seq<T>)
    ensures a + (b + c) == (a + b) + c
  {}

  /** One more line lengthens what the runs stand for by that line. */
  lemma {:induction false} ExpandedAdd(runs: seq<Run>, line: string)
    ensures Expanded(AddToRuns(runs, line)) == Expanded(runs) + [line]
  {
    hide Expanded, Copies;
    var n := |runs|;
    if n > 0 && runs[n - 1].text == line {
      var front, k := runs[..n - 1], runs[n - 1].count;
      assert runs == front + [Run(line, k)];
      ExpandedSnoc(front, Run(line, k));
      ExpandedSnoc(front, Run(line, k + 1));
      CopiesSnoc(line, k);
      SameFront(Expanded(front), Copies(line, k), [line]);
    } else {
      ExpandedSnoc(runs, Run(line, 1));
      CopiesSnoc(line, 0);
      assert [] + [line] == [line];
    }
  }

  lemma {:induction false} RunLengthAdd(runs: seq<Run>, line: string)
    requires IsRunLength(runs)
    ensures IsRunLength(AddToRuns(runs, line))
  {}

  lemma NothingExpanded()
    ensures Expanded([]) == [] && Runs([]) == [] && IsRunLength([])
  {}

  /** The runs of a history are its run-length encoding: they expand to it, and are as long as they can be. */
  lemma {:induction false} RunsExpand(lines: seq<string>)
    ensures Expanded(Runs(lines)) == lines && IsRunLength(Runs(lines))
  {
    hide Expanded, IsRunLength, AddToRuns;
    if lines == [] {
      NothingExpanded();
    } else {
      var n := |lines| - 1;
      RunsExpand(lines[..n]);
      ExpandedAdd(Runs(lines[..n]), lines[n]);
      RunLengthAdd(Runs(lines[..n]), lines[n]);
      assert lines == lines[..n] + [lines[n]];
    }
  }

  predicate RunsOk(runs: seq<Run>) {
    forall k :: 0 <= k < |runs| ==> runs[k].count >= 1
  }

  lemma {:induction false} RunsPositive(lines: seq<string>)
    ensures RunsOk(Runs(lines)) && (lines != [] ==> Runs(lines) != [])
  {
    if lines == [] {
    } else {
      RunsPositive(lines[..|lines| - 1]);
    }
  }

  /** Another line moves every row up; the new one shows below. */
  lemma {:induction false} MirrorsNewLine(log: Log, runs: seq<Run>, line: string)
    requires Mirrors(log, runs) && IsText(line) && line != log.last
    ensures Mirrors(Written(log, line), AddToRuns(runs, line))
  {
    hide Repeated;
    var log', runs' := Written(log, line), AddToRuns(runs, line);
    assert runs' == runs + [Run(line, 1)];
    forall r | 0 <= r < LOG_LINES ensures log'.rows[r] == RowAt(runs', r) {
      if r < LOG_LINES - 1 {
        assert log'.rows[r] == log.rows[r + 1] == RowAt(runs, r + 1);
      }
    }
  }

  /** The same line again changes the last row only. */
  lemma {:induction false} MirrorsSameLine(log: Log, runs: seq<Run>, line: string)
    requires Mirrors(log, runs) && RunsOk(runs) && IsText(line) && line == log.last
    ensures Mirrors(Written(log, line), AddToRuns(runs, line))
  {
    hide Repeated;
    var log', runs' := Written(log, line), AddToRuns(runs, line);
    var count := if runs == [] then 0 else runs[|runs| - 1].count;
    RepeatedModulo(line, count + 1);
    assert (count + 1) % 0x1_0000_0000 == (log.count + 1) % 0x1_0000_0000;
    forall r | 0 <= r < LOG_LINES ensures log'.rows[r] == RowAt(runs', r) {
      if r < LOG_LINES - 1 {
        assert log'.rows[r] == log.rows[r] == RowAt(runs, r);
      }
    }
  }

  /** One more line keeps log and runs in step. */
  lemma {:induction false} MirrorsStep(log: Log, runs: seq<Run>, line: string)
    requires Mirrors(log, runs) && RunsOk(runs) && IsText(line)
    ensures Mirrors(Written(log, line), AddToRuns(runs, line))
  {
    hide Mirrors, Written, AddToRuns;
    if line == log.last {
      MirrorsSameLine(log, runs, line);
    } else {
      MirrorsNewLine(log, runs, line);
    }
  }

  lemma {:induction false} LogMirrorsHistory(lines: seq<string>)
    requires AreLines(lines)
    ensures Mirrors(LogAfter(lines), Runs(lines))
  {
    if lines == [] {
    } else {
      var front := lines[..|lines| - 1];
      LogMirrorsHistory(front);
      RunsPositive(front);
      MirrorsStep(LogAfter(front), Runs(front), lines[|lines| - 1]);
    }
  }

  /** The one way a text goes wrong: a single empty line at the very start, still on screen. */
  predicate LoneEmptyStart(runs: seq<Run>) {
    0 < |runs| <= LOG_LINES && runs[0] == Run("", 1)
  }

  /** Every count on screen fits an `int`. */
  predicate CountsFit(runs: seq<Run>) {
    forall k :: 0 <= k < |runs| && k >= |runs| - LOG_LINES ==> runs[k].count < 0x8000_0000
  }

  lemma RepeatedNotEmpty()
    ensures Repeated("", 1) != ""
  {}

  lemma {:induction false} ShownAtIff(runs: seq<Run>, k: nat)
    requires k < |runs| && RunsOk(runs)
    ensures ShownAt(runs, k) == Shown(runs[k]) <==> !(k == 0 && runs[0] == Run("", 1)) && runs[k].count < 0x8000_0000
  {
    hide Repeated, Counted;
    RepeatedIsCountedIff(runs[k].text, runs[k].count);
    if k == 0 && runs[0] == Run("", 1) {
      RepeatedNotEmpty();
    }
  }

  lemma {:induction false} MirrorIsTail(log: Log, runs: seq<Run>)
    requires Mirrors(log, runs) && RunsOk(runs)
    ensures log.rows == LastRuns(runs) <==> CountsFit(runs) && !LoneEmptyStart(runs)
  {
    hide ShownAt, Shown, Written;
    forall r | 0 <= r < LOG_LINES
      ensures var k := |runs| - LOG_LINES + r;
              log.rows[r] == LastRuns(runs)[r] <==>
              k < 0 || (!(k == 0 && runs[0] == Run("", 1)) && runs[k].count < 0x8000_0000)
    {
      var k := |runs| - LOG_LINES + r;
      if k >= 0 {
        ShownAtIff(runs, k);
      }
    }
    if log.rows == LastRuns(runs) {
      forall k | 0 <= k < |runs| && k >= |runs| - LOG_LINES ensures runs[k].count < 0x8000_0000 {
        assert log.rows[k - (|runs| - LOG_LINES)] == LastRuns(runs)[k - (|runs| - LOG_LINES)];
      }
      assert 0 < |runs| <= LOG_LINES ==> log.rows[LOG_LINES - |runs|] == LastRuns(runs)[LOG_LINES - |runs|];
    }
  }

  /**
   * After any history the rows are the last 22 runs of its run-length encoding, each repeated one with its count,
   * exactly when every count among them fits an `int` and the history does not begin with exactly one empty line
   * that is still among them.
   */
  lemma {:induction false} LogIsRunLengthTail(lines: seq<string>)
    requires AreLines(lines)
    ensures var runs := Runs(lines);
            LogAfter(lines).rows == LastRuns(runs) <==> CountsFit(runs) && !LoneEmptyStart(runs)
  {
    hide ShownAt, Shown, LogAfter, Runs;
    LogMirrorsHistory(lines);
    RunsPositive(lines);
    MirrorIsTail(LogAfter(lines), Runs(lines));
  }

  /** No line comes more often than there are lines. */
  lemma {:induction false} CountsBounded(lines: seq<string>, k: nat)
    requires k < |Runs(lines)|
    ensures Runs(lines)[k].count <= |lines|
    decreases |lines|
  {
    if lines == [] {
    } else {
      var front := Runs(lines[..|lines| - 1]);
      if k < |front| {
        CountsBounded(lines[..|lines| - 1], k);
      }
    }
  }

  lemma {:induction false} FirstRun(lines: seq<string>)
    requires lines != []
    ensures Runs(lines) != [] && Runs(lines)[0].text == lines[0]
  {
    RunsPositive(lines);
    var front := lines[..|lines| - 1];
    if front != [] {
      FirstRun(front);
    } else {
      assert Runs(front) == [];
    }
  }

  /** When the first line is not empty only the counts matter, and they fit in any history of fewer than 2^31 lines. */
  lemma {:induction false} NonEmptyStartIsRunLengthTail(lines: seq<string>)
    requires AreLines(lines) && lines != [] && lines[0] != ""
    ensures LogAfter(lines).rows == LastRuns(Runs(lines)) <==> CountsFit(Runs(lines))
    ensures |lines| < 0x8000_0000 ==> CountsFit(Runs(lines))
  {
    hide LogAfter, LastRuns, Runs;
    LogIsRunLengthTail(lines);
    FirstRun(lines);
    forall k | 0 <= k < |Runs(lines)| ensures Runs(lines)[k].count <= |lines| {
      CountsBounded(lines, k);
    }
  }

  // ---------- The log in video memory ----------

  /** The top of a row of the log: the first is at y = 80, and rows are 16 lines high. */
  function LineY(line: int): int {
    80 + 16 * line
  }

  predicate InLog(a: int, b: int) {
    LOG_MARGIN <= a < SCREEN_WIDTH && LineY(0) <= b < LineY(LOG_LINES)
  }

  /** What a pixel of the log area shows when the rows hold these texts. */
  function LogPixel(rom: Rom, rows: seq<string>, a: int, b: int): int
    requires |rows| == LOG_LINES && InLog(a, b)
  {
    if TextPixel(rom, rows[(b - LineY(0)) / 16], a - LOG_MARGIN, (b - LineY(0)) % 16)
    then WHITE else 0
  }

  /** Every pixel of the log area is as the rows say. */
  ghost predicate ShowsRows(v: Vram, rom: Rom, rows: seq<string>)
    requires |rows| == LOG_LINES
  {
    forall a, b | InLog(a, b) :: v(a, b) == LogPixel(rom, rows, a, b)
  }

  /**
   * The log in figures: 22 rows, the first from screen line 80 and each 16 lines below the one before; character `i`
   * starts at column 32 + 10 i. Its pixels, and the ten columns and sixteen lines it has to itself, show white where
   * the glyph or its overstrike is lit and black elsewhere.
   */
  lemma {:induction false} RowsInFigures(v: Vram, rom: Rom, rows: seq<string>, r: nat, i: nat, dx: nat, dy: nat)
    requires |rows| == 22 && ShowsRows(v, rom, rows) && r < 22 && i < |rows[r]| && dx < 10 && dy < 16
    requires 32 + 10 * i + dx < 640
    ensures v(32 + 10 * i + dx, 80 + 16 * r + dy) ==
            if StruckPixel(rom, GlyphOf(rows[r][i]), dy, dx) then 0x7FFF else 0
  {
    hide StruckPixel, GlyphOf;
    var a, b := 32 + 10 * i + dx, 80 + 16 * r + dy;
    assert InLog(a, b);
    assert (b - 80) / 16 == r && (b - 80) % 16 == dy;
    assert (a - 32) / 10 == i && (a - 32) % 10 == dx;
  }

  /** A lit pixel of the ROM, and the one to its right, are struck; nothing else is. */
  lemma StruckInFigures(rom: Rom, glyph: nat, line: nat, column: nat)
    requires glyph < 96 && line < 15
    ensures StruckPixel(rom, glyph, line, column) <==>
            || (column < 8 && Bit(rom[15 * glyph + line], 7 - column))
            || (1 <= column <= 8 && Bit(rom[15 * glyph + line], 8 - column))
  {
    hide Bit, Pixel;
    if column < 8 {
      PixelIsBit(rom[15 * glyph + line], column);
    }
    if 1 <= column <= 8 {
      PixelIsBit(rom[15 * glyph + line], column - 1);
    }
  }

  /** A pixel after `n` rows of the log have moved up by one. */
  predicate ScrolledAt(v: Vram, before: Vram, n: int, a: int, b: int) {
    v(a, b) == if LOG_MARGIN <= a < SCREEN_WIDTH && LineY(0) <= b < LineY(n) then before(a, b + LOG_LINE_HEIGHT) else before(a, b)
  }

  ghost predicate Scrolled(v: Vram, before: Vram, n: int) {
    forall a, b :: ScrolledAt(v, before, n, a, b)
  }

  /** A pixel after one row has been copied over the one above it. */
  lemma CopiedRow(v: Vram, line: int, a: int, b: int)
    ensures CopyRectangle(v, LOG_MARGIN, LineY(line), LOG_MARGIN, LineY(line - 1), SCREEN_WIDTH - LOG_MARGIN, LOG_LINE_HEIGHT)(a, b) ==
            if LOG_MARGIN <= a < SCREEN_WIDTH && LineY(line - 1) <= b < LineY(line) then v(a, b + LOG_LINE_HEIGHT) else v(a, b)
  {
    assert a - LOG_MARGIN + LOG_MARGIN == a && b - LineY(line - 1) + LineY(line) == b + LOG_LINE_HEIGHT;
  }

  /** Copying row `line` over the one above it, which has already been copied itself. */
  lemma {:induction false} ScrolledFurther(v: Vram, before: Vram, line: int)
    requires 1 <= line < LOG_LINES && Scrolled(v, before, line - 1)
    ensures Scrolled(CopyRectangle(v, LOG_MARGIN, LineY(line), LOG_MARGIN, LineY(line - 1),
                                   SCREEN_WIDTH - LOG_MARGIN, LOG_LINE_HEIGHT), before, line)
  {
    hide CopyRectangle;
    var v' := CopyRectangle(v, LOG_MARGIN, LineY(line), LOG_MARGIN, LineY(line - 1), SCREEN_WIDTH - LOG_MARGIN, LOG_LINE_HEIGHT);
    forall a, b ensures ScrolledAt(v', before, line, a, b) {
      CopiedRow(v, line, a, b);
      assert ScrolledAt(v, before, line - 1, a, b);
      assert ScrolledAt(v, before, line - 1, a, b + LOG_LINE_HEIGHT);
    }
  }

  /**
   * The scrolling loop: rows are copied in ascending order, each before it is overwritten, so that the whole log
   * moves up by one row.
   */
  method ScrollUp(before: Vram) returns (vram: Vram)
    ensures Scrolled(vram, before, LOG_LINES - 1)
    ensures forall a, b :: !InLog(a, b) ==> vram(a, b) == before(a, b)
  {
    hide CopyRectangle;
    vram := before;
    var line := 1;
    while line < LOG_LINES
      invariant 1 <= line <= LOG_LINES && Scrolled(vram, before, line - 1)
    {
      ScrolledFurther(vram, before, line);
      vram := CopyRectangle(vram, LOG_MARGIN, LineY(line), LOG_MARGIN, LineY(line - 1), SCREEN_WIDTH - LOG_MARGIN, LOG_LINE_HEIGHT);
      line := line + 1;
    }
    forall a, b | !InLog(a, b) ensures vram(a, b) == before(a, b) {
      assert ScrolledAt(vram, before, LOG_LINES - 1, a, b);
    }
  }

  const LAST_LINE_Y: int := LineY(LOG_LINES - 1)

  /** The sixteenth line of a row is below the characters. */
  lemma NoPixelBelow(rom: Rom, text: string, dx: int, dy: int)
    ensures TextPixel(rom, text, dx, dy) ==> 0 <= dy < CHAR_HEIGHT
  {}

  /** Clearing the last row and drawing a text there changes that row of the log only. */
  lemma {:induction false} LastRowRedrawn(v: Vram, v': Vram, rom: Rom, rows: seq<string>, text: string)
    requires |rows| == LOG_LINES && ShowsRows(v, rom, rows)
    requires HasText(v', BlackRectangle(v, LOG_MARGIN, LAST_LINE_Y, SCREEN_WIDTH - LOG_MARGIN, CHAR_HEIGHT), rom,
                     LOG_MARGIN, LAST_LINE_Y, text)
    ensures ShowsRows(v', rom, rows[..LOG_LINES - 1] + [text])
  {
    var rows' := rows[..LOG_LINES - 1] + [text];
    forall a, b | InLog(a, b) ensures v'(a, b) == LogPixel(rom, rows', a, b) {
      var r, dy := (b - LineY(0)) / 16, (b - LineY(0)) % 16;
      assert v(a, b) == LogPixel(rom, rows, a, b);
      NoPixelBelow(rom, rows[r], a - LOG_MARGIN, dy);
      if r == LOG_LINES - 1 {
        assert dy == b - LAST_LINE_Y && rows'[r] == text;
      } else {
        assert b < LAST_LINE_Y && rows'[r] == rows[r];
      }
    }
  }

  /** And no pixel outside the log. */
  lemma {:induction false} OnlyLogRedrawn(v: Vram, v': Vram, rom: Rom, text: string)
    requires HasText(v', BlackRectangle(v, LOG_MARGIN, LAST_LINE_Y, SCREEN_WIDTH - LOG_MARGIN, CHAR_HEIGHT), rom,
                     LOG_MARGIN, LAST_LINE_Y, text)
    ensures forall a, b :: !InLog(a, b) ==> v'(a, b) == v(a, b)
  {
    forall a, b | !InLog(a, b) ensures v'(a, b) == v(a, b) {
      NoPixelBelow(rom, text, a - LOG_MARGIN, b - LAST_LINE_Y);
      assert TextPixel(rom, text, a - LOG_MARGIN, b - LAST_LINE_Y) ==> a >= LOG_MARGIN;
    }
  }

  /** Scrolled rows show what the rows below them showed. */
  lemma {:induction false} ScrolledRows(v: Vram, v': Vram, rom: Rom, rows: seq<string>)
    requires |rows| == LOG_LINES && ShowsRows(v, rom, rows) && Scrolled(v', v, LOG_LINES - 1)
    ensures ShowsRows(v', rom, rows[1..] + [rows[LOG_LINES - 1]])
  {
    var rows' := rows[1..] + [rows[LOG_LINES - 1]];
    forall a, b | InLog(a, b) ensures v'(a, b) == LogPixel(rom, rows', a, b) {
      var r := (b - LineY(0)) / 16;
      assert ScrolledAt(v', v, LOG_LINES - 1, a, b);
      if r < LOG_LINES - 1 {
        assert b < LAST_LINE_Y;
        assert InLog(a, b + LOG_LINE_HEIGHT);
        assert (b + LOG_LINE_HEIGHT - LineY(0)) / 16 == r + 1;
        assert (b + LOG_LINE_HEIGHT - LineY(0)) % 16 == (b - LineY(0)) % 16;
        assert rows'[r] == rows[r + 1];
      } else {
        assert b >= LAST_LINE_Y;
        assert v'(a, b) == v(a, b) == LogPixel(rom, rows, a, b) && rows'[r] == rows[r];
      }
    }
  }

  /** How much longer the repeat line is than the line: at most eleven characters of number, and four around it. */
  lemma {:induction false} RepeatedLength(text: string, n: nat)
    ensures |Repeated(text, n)| <= |text| + 15
  {
    var v := AsInt(n);
    if v != 0 {
      TenCells(v);
    }
    hide AsInt, DigitCells;
  }

  /** The text of a C string in a buffer: everything before the first NUL. */
  function UpToNul(s: string): (t: string)
    ensures IsText(t) && t <= s && (t != s ==> s[|t|] == NUL)
  {
    if s == "" || s[0] == NUL then "" else [s[0]] + UpToNul(s[1..])
  }

  lemma {:induction false} TextIsUpToNul(s: string)
    requires IsText(s)
    ensures UpToNul(s) == s
  {
    if s == "" {
    } else {
      assert s[0] in s && forall c :: c in s[1..] ==> c in s;
      TextIsUpToNul(s[1..]);
    }
  }

  /** `mini_sprintf(..., "%s (x%d)", ...)`, given a buffer with room for the result. */
  method RepeatLine(text: string, n: nat) returns (line: string)
    requires IsText(text)
    ensures line == Repeated(text, n)
  {
    hide Formatted, FormatFits, Repeated;
    RepeatedIsFormatted(text, n);
    RepeatedLength(text, n);
    var format := new char[9]['%', 's', ' ', '(', 'x', '%', 'd', ')', NUL];
    assert format[0..8] == "%s (x%d)";
    var buffer := new char[|text| + 16];
    var count := MiniVsprintf(buffer, format, "%s (x%d)", [Text(text), Num(AsInt(n))]);
    line := buffer[..count];
  }

  const PALETTE: seq<nat> := [0x0000, 0x0842, 0x1084, 0x18C6, 0x2108, 0x294A, 0x318C, 0x39CE,
                              0x4631, 0x4E73, 0x56B5, 0x5EF7, 0x6739, 0x6F7B, 0x77BD, 0x7FFF]

  lemma {:induction false} PaletteSparesFont(v: Vram, v': Vram, rom: Rom)
    requires FontInPlace(v, rom) && forall a, b :: b != CLUT_Y ==> v'(a, b) == v(a, b)
    ensures FontInPlace(v', rom)
  {
    forall x, y | 0 <= x < 16 && 0 <= y < 6 ensures GlyphInPlace(v', rom, x, y) {
      assert GlyphInPlace(v, rom, x, y);
      forall line, h | 0 <= line < 15 && 0 <= h < 2 ensures CellInPlace(v', rom, x, y, line, h) {
        assert CellInPlace(v, rom, x, y, line, h);
      }
    }
  }

  /** The palette in figures: sixteen shades of grey, the eight dark ones counted from black, the others from white. */
  lemma PaletteInFigures(v: Vram, k: nat)
    requires k < 16
    ensures |PALETTE| == 16 && PALETTE[k] == if k < 8 then 0x842 * k else 0x7FFF - 0x842 * (15 - k)
    ensures PaletteInPlace(v) <==> v(640, 90) == 0 && v(655, 90) == 0x7FFF
  {
    assert k == 0 || k == 1 || k == 2 || k == 3 || k == 4 || k == 5 || k == 6 || k == 7
        || k == 8 || k == 9 || k == 10 || k == 11 || k == 12 || k == 13 || k == 14 || k == 15;
  }

  class DebugScreen {
    /** The font in ROM, at 0xBFC7F8DE. */
    const rom: Rom
    var vram: Vram
    var lastPrintedLine: string
    var lastPrintedCount: nat
    /** What the log shows, row by row. */
    ghost var rows: seq<string>

    ghost function Contents(): Log
      reads this
    {
      Log(rows, lastPrintedLine, lastPrintedCount)
    }

    ghost predicate Valid()
      reads this
    {
      ReadyToDraw(vram, rom) && LogOk(Contents()) && ShowsRows(vram, rom, rows)
    }

    /** The screen as `debug_init` leaves it: cleared, font unpacked, palette loaded. */
    constructor (rom: Rom, powerOn: Vram)
      ensures Valid() && Contents() == StartLog() && this.rom == rom
      ensures forall k | 0 <= k < 16 :: vram(640 + k, 90) == PALETTE[k]
      ensures forall a, b :: 0 <= a < 640 && 0 <= b < 480 ==> vram(a, b) == 0
    {
      this.rom := rom;
      var cleared := BlackRectangle(powerOn, 0, 0, SCREEN_WIDTH, SCREEN_HEIGHT);
      var unpacked := DecompressFont(rom, cleared);
      // The palette: sixteen cells at (640, 90), of which the font uses the first and the last.
      var vram := (a: int, b: int) => if b == CLUT_Y && FONT_X <= a < FONT_X + 16 then PALETTE[a - FONT_X] else unpacked(a, b);
      this.vram := vram;
      lastPrintedLine, lastPrintedCount := "", 0;
      rows := StartLog().rows;
      new;
      assert FontInPlace(vram, rom) by { PaletteSparesFont(unpacked, vram, rom); }
    }

    /**
     * The rest of `debug_write`, given the formatted line: a different line scrolls in below, the same line again is redrawn
     * with its count. Every pixel of the log area is what the new contents of the log say.
     */
    method DebugWrite(formatted: string)
      requires Valid() && IsText(formatted)
      modifies `vram, `lastPrintedLine, `lastPrintedCount, `rows
      ensures Valid() && Contents() == Written(old(Contents()), formatted)
      ensures forall a, b :: !(32 <= a < 640 && 80 <= b < 432) ==> vram(a, b) == old(vram)(a, b)
    {
      hide FontInPlace, PaletteInPlace, Repeated;
      var toPrint;
      ghost var before := vram;
      ghost var scrolled := rows;
      if lastPrintedLine != formatted {
        vram := ScrollUp(vram);
        ScrolledRows(before, vram, rom, rows);
        scrolled := rows[1..] + [rows[LOG_LINES - 1]];
        lastPrintedLine := formatted;
        lastPrintedCount := 1;
        toPrint := formatted;
      } else {
        lastPrintedCount := (lastPrintedCount + 1) % 0x1_0000_0000;
        toPrint := RepeatLine(lastPrintedLine, lastPrintedCount);
      }
      StaysReady(before, vram, rom);
      ghost var moved := vram;
      vram := BlackRectangle(vram, LOG_MARGIN, LAST_LINE_Y, SCREEN_WIDTH - LOG_MARGIN, CHAR_HEIGHT);
      StaysReady(moved, vram, rom);
      vram := DebugTextAt(rom, vram, LOG_MARGIN, LAST_LINE_Y, toPrint);
      LastRowRedrawn(moved, vram, rom, scrolled, toPrint);
      OnlyLogRedrawn(moved, vram, rom, toPrint);
      rows := scrolled[..LOG_LINES - 1] + [toPrint];
    }

    /**
     * `debug_write` with a format and its arguments, for messages that fit its 64-byte buffer: what is written is the
     * text the format stands for, up to a NUL that an argument may have put into it.
     */
    method DebugWriteFormat(format: array<char>, ghost f: string, args: seq<Arg>)
      requires Valid() && TextAt(format, 0, f) && FormatFits(f, args) && |Formatted(f, args)| < 64
      modifies `vram, `lastPrintedLine, `lastPrintedCount, `rows
      ensures Valid() && Contents() == Written(old(Contents()), UpToNul(Formatted(f, args)))
      ensures IsText(Formatted(f, args)) ==> UpToNul(Formatted(f, args)) == Formatted(f, args)
      ensures forall a, b :: !(32 <= a < 640 && 80 <= b < 432) ==> vram(a, b) == old(vram)(a, b)
    {
      hide Formatted, FormatFits, UpToNul, Written, ReadyToDraw, ShowsRows;
      var formatted := new char[64];
      var count := MiniVsprintf(formatted, format, f, args);
      DebugWrite(UpToNul(formatted[..count]));
      assert IsText(Formatted(f, args)) ==> UpToNul(Formatted(f, args)) == Formatted(f, args) by {
        if IsText(Formatted(f, args)) {
          TextIsUpToNul(Formatted(f, args));
        }
      }
    }
  }

  lemma NothingWritten()
    ensures AreLines([]) && LogAfter([]) == StartLog()
  {}

  /** A whole history, from the screen as it starts. */
  method WriteHistory(screen: DebugScreen, lines: seq<string>)
    requires screen.Valid() && screen.Contents() == StartLog() && AreLines(lines)
    modifies screen
    ensures screen.Valid() && screen.Contents() == LogAfter(lines)
    ensures ShowsRows(screen.vram, screen.rom, LogAfter(lines).rows)
    ensures CountsFit(Runs(lines)) && !LoneEmptyStart(Runs(lines)) ==>
            ShowsRows(screen.vram, screen.rom, LastRuns(Runs(lines)))
  {
    hide Written, ReadyToDraw, ShowsRows, LastRuns, Runs, CountsFit, LoneEmptyStart;
    NothingWritten();
    assert lines[..0] == [];
    for i := 0 to |lines|
      invariant screen.Valid() && screen.Contents() == LogAfter(lines[..i])
    {
      LogAfterOneMore(lines[..i], lines[i]);
      assert lines[..i + 1] == lines[..i] + [lines[i]];
      screen.DebugWrite(lines[i]);
    }
    assert lines[..|lines|] == lines;
    LogIsRunLengthTail(lines);
  }
}

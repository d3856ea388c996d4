/**
 * Video memory as a plane of 16-bit cells, and the GPU commands `loader/debugscreen.c` sends as functions on it.
 */
module Video {
  import opened Bits

  type Vram = (int, int) -> int

  const SCREEN_WIDTH: int := 640
  const SCREEN_HEIGHT: int := 480
  const CHAR_HEIGHT: int := 15
  const CHAR_VRAM_WIDTH: int := 8
  const FONT_X: int := 640
  const CLUT_Y: int := 90

  /** Halfword `k` of a buffer. */
  function CellAt(data: seq<Byte>, k: int): int {
    if 0 <= 2 * k && 2 * k + 1 < |data| then data[2 * k] as int + 0x100 * data[2 * k + 1] as int else 0
  }

  /** `GPU_dw`: a rectangle of 16-bit cells, row by row, from little-endian memory. */
  function Upload(v: Vram, x: int, y: int, width: nat, height: nat, data: seq<Byte>): Vram
    requires |data| == 2 * (width * height)
  {
    (a: int, b: int) =>
      if x <= a < x + width && y <= b < y + height then
        CellAt(data, (b - y) * width + (a - x))
      else v(a, b)
  }

  /** `gpu_copy_rectangle` between rectangles that do not overlap. */
  function CopyRectangle(v: Vram, sx: int, sy: int, dx: int, dy: int, width: int, height: int): Vram {
    (a: int, b: int) => if dx <= a < dx + width && dy <= b < dy + height then v(a - dx + sx, b - dy + sy) else v(a, b)
  }

  /** `gpu_draw_solid_rect` in black. */
  function BlackRectangle(v: Vram, x: int, y: int, width: int, height: int): Vram {
    (a: int, b: int) => if x <= a < x + width && y <= b < y + height then 0 else v(a, b)
  }

  function Nibble(cell: int, n: int): int {
    (if n == 0 then cell else if n == 1 then cell / 0x10 else if n == 2 then cell / 0x100 else cell / 0x1000) % 0x10
  }

  /** The texture page starts at x = 640, y = 0, with four 4-bit texels to a cell. */
  function Texel(v: Vram, tx: int, ty: int): int {
    Nibble(v(FONT_X + tx / 4, ty), tx % 4)
  }

  predicate OnScreen(a: int, b: int) {
    0 <= a < SCREEN_WIDTH && 0 <= b < SCREEN_HEIGHT
  }

  lemma ScreenInFigures(a: int, b: int)
    ensures OnScreen(a, b) <==> 0 <= a <= 639 && 0 <= b <= 479
  {}

  /** The colour of a texel in the palette at x = 640, y = 90. */
  function Colour(v: Vram, texel: int): int {
    v(FONT_X + texel, CLUT_Y)
  }

  /** `gpu_draw_tex_rect` of one 8 by 15 character: texels of colour zero are transparent. */
  function DrawCharacter(v: Vram, x: int, y: int, tx: int, ty: int): Vram {
    (a: int, b: int) =>
      if x <= a < x + CHAR_VRAM_WIDTH && y <= b < y + CHAR_HEIGHT && OnScreen(a, b) &&
         Colour(v, Texel(v, tx + (a - x), ty + (b - y))) != 0 then
        Colour(v, Texel(v, tx + (a - x), ty + (b - y)))
      else v(a, b)
  }
}

/** What the terminal's cells look like: glyphs, colours, the cursor block, and how pixels are
    packed into the bytes of the four VGA bitplanes. */
module TtyPixels {
  import opened Bytes
  import opened Ascii
  import opened Bitmap

  const SCREEN_WIDTH: nat := 640
  const SCREEN_HEIGHT: nat := 480
  const CELL_WIDTH: nat := 8
  const CELL_HEIGHT: nat := 16
  const CURSOR_HEIGHT: nat := 2
  const TTY_COLS: nat := SCREEN_WIDTH / CELL_WIDTH
  const TTY_ROWS: nat := SCREEN_HEIGHT / CELL_HEIGHT
  const CELLS: nat := TTY_ROWS * TTY_COLS

  datatype Cell = Cell(character: byte, color: byte)

  // 256 glyphs of 16 bytes; the font itself is arbitrary.
  type Font = f: seq<seq<byte>> | |f| == 256 && forall i :: 0 <= i < 256 ==> |f[i]| == CELL_HEIGHT
    witness seq(256, _ => Zeros(CELL_HEIGHT))

  function Foreground(cell: Cell): byte {
    cell.color & 0x0F
  }

  function Background(cell: Cell): byte {
    (cell.color >> 4) & 0x0F
  }

  function BitReverse(v: byte): byte {
    var a := ((v & 0x55) << 1) | ((v & 0xAA) >> 1);
    var b := ((a & 0x33) << 2) | ((a & 0xCC) >> 2);
    (b << 4) | (b >> 4)
  }

  /** bit_reverse turns the byte around. */
  lemma BitReverseBits(v: byte, k: nat)
    requires k < 8
    ensures TestBit(BitReverse(v), k) == TestBit(v, 7 - k)
  {
    if k == 0 {} else if k == 1 {} else if k == 2 {} else if k == 3 {}
    else if k == 4 {} else if k == 5 {} else if k == 6 {} else { assert k == 7; }
  }

  /** The glyph of a cell; a NUL shows as a space. */
  function GlyphOf(cell: Cell): nat {
    if cell.character == NUL then SPACE as nat else cell.character as nat
  }

  /** glyph_row_bits */
  function GlyphRowBits(font: Font, ch: nat, scanline: nat): byte
    requires ch < 256
  {
    if scanline >= CELL_HEIGHT then 0 else BitReverse(font[ch][scanline])
  }

  /** Pixel (dx, dy) of a cell without the cursor: bit 7 - dx of the row decides. */
  function GlyphPixel(font: Font, cell: Cell, dx: nat, dy: nat): byte
    requires dx < CELL_WIDTH
  {
    if TestBit(GlyphRowBits(font, GlyphOf(cell), dy), 7 - dx) then Foreground(cell) else Background(cell)
  }

  function CursorColor(cell: Cell): byte {
    (if Foreground(cell) == Background(cell) then Foreground(cell) ^ 0x0F else Foreground(cell)) & 0x0F
  }

  /** The cursor can always be told from the background. */
  lemma CursorVisible(cell: Cell)
    ensures CursorColor(cell) != Background(cell)
  {
    assert Foreground(cell) ^ 0x0F != Foreground(cell);
    assert (Foreground(cell) ^ 0x0F) & 0x0F == Foreground(cell) ^ 0x0F;
    assert Foreground(cell) & 0x0F == Foreground(cell);
  }

  /** Pixel (dx, dy) of a cell, with the cursor block over its last lines if it is there. */
  function CellPixel(font: Font, cell: Cell, cursor: bool, dx: nat, dy: nat): byte
    requires dx < CELL_WIDTH
  {
    if cursor && CELL_HEIGHT - CURSOR_HEIGHT <= dy then CursorColor(cell) else GlyphPixel(font, cell, dx, dy)
  }

  function CellIndex(row: nat, col: nat): (i: nat)
    ensures row < TTY_ROWS && col < TTY_COLS ==> i < CELLS
  {
    InGrid(row, col);
    row * TTY_COLS + col
  }

  lemma InGrid(row: nat, col: nat)
    ensures row < TTY_ROWS && col < TTY_COLS ==> row * TTY_COLS + col < CELLS
  {
    assert row < 30 ==> row * 80 <= 29 * 80;
  }

  /** A full render of the cells, with the cursor on cell (row, col) if there is such a cell. */
  function Render(font: Font, cells: seq<Cell>, row: nat, col: nat, y: nat, x: nat): byte
    requires |cells| == CELLS && y < SCREEN_HEIGHT && x < SCREEN_WIDTH
  {
    CellPixel(font, cells[CellIndex(y / CELL_HEIGHT, x / CELL_WIDTH)],
              y / CELL_HEIGHT == row && x / CELL_WIDTH == col, x % CELL_WIDTH, y % CELL_HEIGHT)
  }

  /** What a pixel of a glyph shows: bit `dx` of the font's row, the least significant first, selects the low four
      bits of the colour byte or the high ones. NUL looks like a space. */
  lemma PixelIsFontBit(font: Font, cell: Cell, dx: nat, dy: nat)
    requires dx < 8 && dy < 16
    ensures GlyphPixel(font, cell, dx, dy) ==
            if TestBit(font[if cell.character == 0 then 0x20 else cell.character as nat][dy], dx)
            then cell.color & 0x0F else cell.color >> 4
  {
    BitReverseBits(font[GlyphOf(cell)][dy], 7 - dx);
    assert (cell.color >> 4) & 0x0F == cell.color >> 4;
  }

  /** The two colours of a cell are the halves of its colour byte. */
  lemma ColorBits(cell: Cell, plane: nat)
    requires plane < 4
    ensures TestBit(Foreground(cell), plane) == TestBit(cell.color, plane)
    ensures TestBit(Background(cell), plane) == TestBit(cell.color, plane + 4)
  {
    if plane == 0 {} else if plane == 1 {} else if plane == 2 {} else { assert plane == 3; }
  }

  /** The cursor has the colour of the glyph, or its complement where both colours are the same. */
  lemma CursorBits(cell: Cell, plane: nat)
    requires plane < 4
    ensures TestBit(CursorColor(cell), plane) ==
            (TestBit(cell.color, plane) != (cell.color & 0x0F == cell.color >> 4))
  {
    if plane == 0 {} else if plane == 1 {} else if plane == 2 {} else { assert plane == 3; }
  }

  // Packing --------------------------------------------------------------------------------------

  /** Bit `k` of the byte is bit `plane` of the k-th of eight pixels. */
  predicate Packs(b: byte, plane: nat, pixel: seq<byte>)
    requires plane < 4 && |pixel| == CELL_WIDTH
  {
    forall k :: 0 <= k < CELL_WIDTH ==> TestBit(b, k) == TestBit(pixel[k], plane)
  }

  /** Where eight pixels are a plain glyph row, each plane's byte is the font's own byte, its
      complement, all ones or all zeros, as the plane's bits of the two colours say: the bit
      reversal of the font and the order of packing cancel. */
  lemma PlaneByteIsFontByte(font: Font, cell: Cell, dy: nat, plane: nat, pixel: seq<byte>, b: byte)
    requires dy < CELL_HEIGHT && plane < 4 && |pixel| == CELL_WIDTH && Packs(b, plane, pixel)
    requires forall dx :: 0 <= dx < CELL_WIDTH ==> pixel[dx] == GlyphPixel(font, cell, dx, dy)
    ensures var f := font[if cell.character == 0 then 0x20 else cell.character as nat][dy];
      var fg, bg := TestBit(cell.color, plane), TestBit(cell.color, plane + 4);
      b == if fg && bg then 0xFF else if fg then f else if bg then !f else 0
  {
    ColorBits(cell, plane);
    GlyphByte(font, cell, dy, plane, pixel, b);
  }

  lemma GlyphByte(font: Font, cell: Cell, dy: nat, plane: nat, pixel: seq<byte>, b: byte)
    requires dy < CELL_HEIGHT && plane < 4 && |pixel| == CELL_WIDTH && Packs(b, plane, pixel)
    requires forall dx :: 0 <= dx < CELL_WIDTH ==> pixel[dx] == GlyphPixel(font, cell, dx, dy)
    ensures var f, fg, bg := font[GlyphOf(cell)][dy], TestBit(Foreground(cell), plane), TestBit(Background(cell), plane);
      b == if fg && bg then 0xFF else if fg then f else if bg then !f else 0
  {
    var f, fg, bg := font[GlyphOf(cell)][dy], TestBit(Foreground(cell), plane), TestBit(Background(cell), plane);
    var e: byte := if fg && bg then 0xFF else if fg then f else if bg then !f else 0;
    forall k | 0 <= k < 8 ensures TestBit(b, k) == TestBit(e, k) {
      BitReverseBits(f, 7 - k);
      assert pixel[k] == GlyphPixel(font, cell, k, dy);
      Constants(f, k);
    }
    ByteExtensional(b, e);
  }

  lemma Constants(f: byte, k: nat)
    requires k < 8
    ensures TestBit(0xFF, k) && !TestBit(0, k) && TestBit(!f, k) == !TestBit(f, k)
  {
    if k == 0 {} else if k == 1 {} else if k == 2 {} else if k == 3 {}
    else if k == 4 {} else if k == 5 {} else if k == 6 {} else { assert k == 7; }
  }

  lemma LowBits(color: byte, plane: nat)
    requires plane < 4
    ensures TestBit(color & 0x0F, plane) == TestBit(color, plane)
  {
    if plane == 0 {} else if plane == 1 {} else if plane == 2 {} else { assert plane == 3; }
  }
}

/** The terminal: a grid of cells drawn incrementally into a framebuffer and from there into the
    VGA bitplanes, with a software cursor. */
module TtyScreen {
  import opened Bytes
  import opened Ascii
  import opened Bitmap
  import opened TtyPixels
  import opened TtyFrames
  import opened MemoryMove

  const CURSOR_INVALID: nat := 0xFFFF_FFFF

  // What each call does to the cells -----------------------------------------------------------

  datatype Screen = Screen(cells: seq<Cell>, row: nat, col: nat, color: byte)

  predicate ValidScreen(s: Screen) {
    |s.cells| == CELLS && OnScreen(s.row, s.col)
  }

  function Blank(color: byte): Cell {
    Cell(SPACE, color)
  }

  function BlankCells(n: nat, color: byte): (r: seq<Cell>)
    ensures |r| == n && forall i :: 0 <= i < n ==> r[i] == Blank(color)
  {
    seq(n, _ => Blank(color))
  }

  /** The rows move up by one and a blank row appears at the bottom. */
  function ScrolledCells(cells: seq<Cell>, rows: nat, color: byte): (r: seq<Cell>)
    requires |cells| == CELLS && rows <= TTY_ROWS
    ensures |r| == CELLS
  {
    cells[rows * TTY_COLS..] + BlankCells(rows * TTY_COLS, color)
  }

  lemma ScrolledAt(cells: seq<Cell>, moved: seq<Cell>, rows: nat, color: byte, r: seq<Cell>, n: nat)
    requires |cells| == |r| == CELLS && rows <= TTY_ROWS && n == rows * TTY_COLS
    requires moved == Moved(cells, 0, n, CELLS - n)
    requires forall i :: 0 <= i < CELLS - n ==> r[i] == moved[i]
    requires forall i :: CELLS - n <= i < CELLS ==> r[i] == Blank(color)
    ensures r == ScrolledCells(cells, rows, color)
  {
    var s := ScrolledCells(cells, rows, color);
    forall i | 0 <= i < CELLS ensures r[i] == s[i] {
      if i < CELLS - n {
        assert moved[i] == cells[n + i];
      }
    }
  }

  /** tty_scroll for a cursor below the screen, however far. */
  function ScrolledUp(s: Screen): Screen
    requires |s.cells| == CELLS && s.row >= TTY_ROWS
  {
    var rows := if s.row - (TTY_ROWS - 1) > TTY_ROWS then TTY_ROWS else s.row - (TTY_ROWS - 1);
    s.(cells := ScrolledCells(s.cells, rows, s.color), row := TTY_ROWS - 1)
  }

  /** After a step down: the screen scrolls if the cursor has left it. */
  function Settled(s: Screen): (r: Screen)
    requires |s.cells| == CELLS && s.row <= TTY_ROWS && s.col < TTY_COLS
    ensures ValidScreen(r)
  {
    if s.row < TTY_ROWS then s else s.(cells := ScrolledCells(s.cells, 1, s.color), row := TTY_ROWS - 1)
  }

  function Stamped(s: Screen, row: nat, col: nat, cell: Cell): Screen
    requires |s.cells| == CELLS && OnScreen(row, col)
  {
    s.(cells := s.cells[CellIndex(row, col) := cell])
  }

  function SteppedBack(s: Screen): Screen {
    if s.col > 0 then s.(col := s.col - 1)
    else if s.row > 0 then s.(row := s.row - 1, col := TTY_COLS - 1)
    else s
  }

  /** tty_putc on the cells. */
  function Typed(s: Screen, c: byte): (r: Screen)
    requires ValidScreen(s)
    ensures ValidScreen(r) && r.color == s.color
  {
    if c == NEWLINE then Settled(s.(row := s.row + 1, col := 0))
    else if c == RETURN then s.(col := 0)
    else if c == BACKSPACE then
      var back := SteppedBack(s);
      Stamped(back, back.row, back.col, Blank(s.color))
    else
      var written := Stamped(s, s.row, s.col, Cell(c, s.color));
      Settled(if s.col + 1 < TTY_COLS then written.(col := s.col + 1) else written.(row := s.row + 1, col := 0))
  }

  /** The rows have moved up by one, and the last is blank. */
  predicate RowUp(before: seq<Cell>, after: seq<Cell>, color: byte) {
    && |before| == |after| == 2400
    && forall i :: 0 <= i < 2400 ==> after[i] == if i < 2320 then before[i + 80] else Cell(0x20, color)
  }

  /** The screen after the cursor has gone to the start of the next row. */
  predicate NextRow(s: Screen, r: Screen) {
    && r.col == 0 && r.color == s.color
    && (if s.row < 29 then r.cells == s.cells && r.row == s.row + 1
        else RowUp(s.cells, r.cells, s.color) && r.row == 29)
  }

  /** What a character does to cells and cursor, on a screen of 30 rows and 80 columns: a carriage return goes to the
      start of the row, a newline to that of the next one, a backspace back by one cell, which it blanks, and
      any other character fills the cell and goes on. */
  lemma TypedMeans(s: Screen, c: byte)
    requires ValidScreen(s)
    ensures Typed(s, 0x0D) == s.(col := 0)
    ensures NextRow(s, Typed(s, 0x0A))
    ensures var at := 80 * s.row + s.col;
      var back := if at == 0 then 0 else at - 1;
      && back < |s.cells| && Typed(s, 0x08) == Screen(s.cells[back := Cell(0x20, s.color)], back / 80, back % 80, s.color)
    ensures c !in {0x08, 0x0A, 0x0D} ==>
              && 80 * s.row + s.col < |s.cells|
              && var written := s.(cells := s.cells[80 * s.row + s.col := Cell(c, s.color)]);
                 if s.col < 79 then Typed(s, c) == written.(col := s.col + 1) else NextRow(written, Typed(s, c))
  {
    assert CellIndex(s.row, s.col) == 80 * s.row + s.col < 2400;
    BackOne(s.row, s.col);
    TypedBack(s);
  }

  lemma BackOne(row: nat, col: nat)
    requires row < 30 && col < 80
    ensures col > 0 ==> (80 * row + col - 1) / 80 == row && (80 * row + col - 1) % 80 == col - 1
    ensures col == 0 && row > 0 ==> (80 * row - 1) / 80 == row - 1 && (80 * row - 1) % 80 == 79
  {
  }

  lemma TypedBack(s: Screen)
    requires ValidScreen(s)
    ensures var at := 80 * s.row + s.col;
      var back := if at == 0 then 0 else at - 1;
      && back < |s.cells| && Typed(s, 0x08) == Screen(s.cells[back := Cell(0x20, s.color)], back / 80, back % 80, s.color)
  {
    BackOne(s.row, s.col);
    var back := SteppedBack(s);
    assert CellIndex(back.row, back.col) == 80 * back.row + back.col;
  }

  predicate Printable(c: byte) {
    c != NEWLINE && c != RETURN && c != BACKSPACE
  }

  /** A backspace takes back a printed character, also across a line end and a scroll: the
      cursor returns to the character's cell, which is blank, and no other cell differs from
      what the scroll left. */
  lemma BackspaceTakesBack(s: Screen, c: byte)
    requires ValidScreen(s) && Printable(c)
    ensures var t := Typed(Typed(s, c), BACKSPACE);
      if s.row == TTY_ROWS - 1 && s.col == TTY_COLS - 1 then
        && t.row == s.row - 1 && t.col == s.col
        && t.cells == ScrolledCells(s.cells, 1, s.color)[CellIndex(s.row - 1, s.col) := Blank(s.color)]
      else
        && t.row == s.row && t.col == s.col
        && t.cells == s.cells[CellIndex(s.row, s.col) := Blank(s.color)]
  {
    var i := CellIndex(s.row, s.col);
    var w := s.cells[i := Cell(c, s.color)];
    if s.row == TTY_ROWS - 1 && s.col == TTY_COLS - 1 {
      assert i == CELLS - 1 && CellIndex(s.row - 1, s.col) == CELLS - 1 - TTY_COLS;
      assert ScrolledCells(w, 1, s.color)[CELLS - 1 - TTY_COLS := Blank(s.color)]
          == ScrolledCells(s.cells, 1, s.color)[CELLS - 1 - TTY_COLS := Blank(s.color)];
    } else {
      assert w[i := Blank(s.color)] == s.cells[i := Blank(s.color)];
    }
  }

  // The driver ------------------------------------------------------------------------------------

  class Tty {
    const font: Font
    const cells: array<Cell>
    const framebuffer: array<byte>
    const vga: array<byte>  // the four planes, one behind the other
    var mapMask: byte
    var cursorRow: nat
    var cursorCol: nat
    var overlayRow: nat
    var overlayCol: nat
    var color: byte

    ghost predicate Sized()
      reads this
    {
      cells.Length == CELLS && framebuffer.Length == FRAME_BYTES && vga.Length == 4 * PLANE_BYTES && framebuffer != vga
      && (cells as object) != framebuffer && (cells as object) != vga
    }

    /** The cells, the cursor and the colour. */
    ghost function State(): Screen
      reads this, cells
    {
      Screen(cells[..], cursorRow, cursorCol, color)
    }

    /** The screen shows a full render of the cells with the cursor block on the cursor cell,
        and the planes are the packing of that render. */
    ghost predicate Valid()
      reads this, cells, framebuffer, vga
    {
      && Sized() && ValidScreen(State())
      && overlayRow == cursorRow && overlayCol == cursorCol
      && Shown(font, cells[..], framebuffer[..], cursorRow, cursorCol)
      && Packed(framebuffer[..], vga[..])
    }

    /** Between drawing steps: only the overlay's cell may show anything but its plain glyph. */
    ghost predicate Drawn()
      reads this, cells, framebuffer, vga
    {
      && Sized()
      && PlainExcept(font, cells[..], framebuffer[..], overlayRow, overlayCol)
      && Packed(framebuffer[..], vga[..])
    }

    // Memory ----------------------------------------------------------------------------------

    method WriteVga(offset: nat, value: byte)
      requires vga.Length == 4 * PLANE_BYTES && offset < PLANE_BYTES
      modifies vga
      ensures PlanesWritten(old(vga[..]), vga[..], mapMask, offset, value)
    {
      var p := 0;
      while p < 4
        invariant 0 <= p <= 4
        invariant forall q, o {:trigger PlaneByte(vga[..], q, o)} :: 0 <= q < 4 && 0 <= o < PLANE_BYTES ==>
                    PlaneByte(vga[..], q, o) ==
                    if q < p && o == offset && TestBit(mapMask, q) then value else PlaneByte(old(vga[..]), q, o)
      {
        if TestBit(mapMask, p) {
          ghost var v := vga[..];
          vga[PlaneIndex(p, offset)] := value;
          assert vga[..] == v[PlaneIndex(p, offset) := value];
          PlaneUpdate(v, p, offset, value);
        }
        p := p + 1;
      }
    }

    /** The packing of one pixel row in vga_flush_cell. */
    method PackRow(row: nat, col: nat, dy: nat) returns (planes: seq<byte>)
      requires framebuffer.Length == FRAME_BYTES && OnScreen(row, col) && dy < CELL_HEIGHT
      ensures |planes| == 4
      ensures forall p :: 0 <= p < 4 ==> Packs(planes[p], p, RowDots(framebuffer[..], row, col, dy))
    {
      planes := [0, 0, 0, 0];
      var bit := 0;
      ghost var dots := RowDots(framebuffer[..], row, col, dy);
      ZerosPackNothing(dots);
      while bit < CELL_WIDTH
        invariant 0 <= bit <= CELL_WIDTH && |planes| == 4
        invariant forall p :: 0 <= p < 4 ==> PacksFirst(planes[p], p, dots, bit)
      {
        var color := framebuffer[DotIndex(row, col, dy, bit)] & 0x0F;
        ghost var before := planes;
        var p := 0;
        while p < 4
          invariant 0 <= p <= 4 && |planes| == 4
          invariant forall q :: 0 <= q < p ==> PacksFirst(planes[q], q, dots, bit + 1)
          invariant forall q :: p <= q < 4 ==> planes[q] == before[q]
        {
          LowBits(dots[bit], p);
          assert PacksFirst(before[p], p, dots, bit);
          PackOneMore(planes[p], p, dots, bit);
          planes := planes[p := planes[p] | (if TestBit(color, p) then Mask(bit) else 0)];
          p := p + 1;
        }
        bit := bit + 1;
      }
    }

    /** vga_flush_cell */
    method FlushCell(row: nat, col: nat)
      requires Sized() && OnScreen(row, col)
      modifies vga, this`mapMask
      ensures CellPacked(framebuffer[..], vga[..], row, col)
      ensures SamePlanesElsewhere(old(vga[..]), vga[..], row, col)
    {
      var dy := 0;
      while dy < CELL_HEIGHT
        invariant 0 <= dy <= CELL_HEIGHT
        invariant forall y :: 0 <= y < dy ==> RowPacked(framebuffer[..], vga[..], row, col, y)
        invariant SamePlanesElsewhere(old(vga[..]), vga[..], row, col)
      {
        FlushRow(row, col, dy);
        dy := dy + 1;
      }
      mapMask := 0x0F;
    }

    method FlushRow(row: nat, col: nat, dy: nat)
      requires Sized() && OnScreen(row, col) && dy < CELL_HEIGHT
      modifies vga, this`mapMask
      ensures RowPacked(framebuffer[..], vga[..], row, col, dy)
      ensures forall y :: 0 <= y < CELL_HEIGHT && y != dy && old(RowPacked(framebuffer[..], vga[..], row, col, y)) ==>
                RowPacked(framebuffer[..], vga[..], row, col, y)
      ensures SamePlanesElsewhere(old(vga[..]), vga[..], row, col)
    {
      var planes := PackRow(row, col, dy);
      ghost var v0 := vga[..];
      var p := 0;
      while p < 4
        invariant 0 <= p <= 4
        invariant RowWritten(v0, vga[..], RowOffset(row, col, dy), planes, p)
      {
        ghost var v := vga[..];
        mapMask := Mask(p);
        WriteVga(RowOffset(row, col, dy), planes[p]);
        RowWrittenMore(v0, v, vga[..], RowOffset(row, col, dy), planes, p);
        p := p + 1;
      }
      RowWrittenPacked(framebuffer[..], v0, vga[..], row, col, dy, planes);
    }

    method SetDot(row: nat, col: nat, dy: nat, dx: nat, v: byte, ghost fb0: seq<byte>)
      requires framebuffer.Length == FRAME_BYTES && OnScreen(row, col) && dy < CELL_HEIGHT && dx < CELL_WIDTH
      requires OnlyRow(fb0, framebuffer[..], row, col, dy)
      modifies framebuffer
      ensures OnlyRow(fb0, framebuffer[..], row, col, dy)
      ensures Dot(framebuffer[..], row, col, dy, dx) == v
      ensures forall x :: 0 <= x < CELL_WIDTH && x != dx ==>
                Dot(framebuffer[..], row, col, dy, x) == Dot(old(framebuffer[..]), row, col, dy, x)
    {
      OnlyRowUpdate(fb0, framebuffer[..], row, col, dy, dx, v);
      framebuffer[DotIndex(row, col, dy, dx)] := v;
      assert framebuffer[..] == old(framebuffer[..])[DotIndex(row, col, dy, dx) := v];
    }

    // Drawing ------------------------------------------------------------------------------------

    /** One scanline of tty_draw_glyph. */
    method PaintRow(row: nat, col: nat, dy: nat, cell: Cell)
      requires Sized() && OnScreen(row, col) && dy < CELL_HEIGHT
      modifies framebuffer
      ensures OnlyRow(old(framebuffer[..]), framebuffer[..], row, col, dy)
      ensures forall x :: 0 <= x < CELL_WIDTH ==> Dot(framebuffer[..], row, col, dy, x) == GlyphPixel(font, cell, x, dy)
    {
      ghost var fb0 := framebuffer[..];
      var x := 0;
      while x < CELL_WIDTH
        invariant 0 <= x <= CELL_WIDTH && OnlyRow(fb0, framebuffer[..], row, col, dy)
        invariant forall k :: 0 <= k < x ==> Dot(framebuffer[..], row, col, dy, k) == Background(cell)
      {
        SetDot(row, col, dy, x, Background(cell), fb0);
        x := x + 1;
      }
      var bits := GlyphRowBits(font, GlyphOf(cell), dy);
      x := 0;
      while x < CELL_WIDTH
        invariant 0 <= x <= CELL_WIDTH && OnlyRow(fb0, framebuffer[..], row, col, dy)
        invariant forall k :: 0 <= k < x ==> Dot(framebuffer[..], row, col, dy, k) == GlyphPixel(font, cell, k, dy)
        invariant forall k :: x <= k < CELL_WIDTH ==> Dot(framebuffer[..], row, col, dy, k) == Background(cell)
      {
        MaskTest(bits, 7 - x);
        if bits & Mask(7 - x) != 0 {
          SetDot(row, col, dy, x, Foreground(cell), fb0);
        }
        x := x + 1;
      }
    }

    /** The pixels of tty_draw_glyph. */
    method PaintCell(row: nat, col: nat)
      requires Sized() && OnScreen(row, col)
      modifies framebuffer
      ensures SameElsewhere(old(framebuffer[..]), framebuffer[..], row, col)
      ensures CellShown(font, cells[..][CellIndex(row, col)], framebuffer[..], row, col, false)
    {
      var cell := cells[CellIndex(row, col)];
      ghost var fb0 := framebuffer[..];
      var dy := 0;
      while dy < CELL_HEIGHT
        invariant 0 <= dy <= CELL_HEIGHT
        invariant Painting(font, cell, fb0, framebuffer[..], row, col, dy, false)
      {
        ghost var fb1 := framebuffer[..];
        PaintRow(row, col, dy, cell);
        PaintingStep(font, cell, fb0, fb1, framebuffer[..], row, col, dy, false);
        dy := dy + 1;
      }
      PaintingDone(font, cell, fb0, framebuffer[..], row, col, false);
    }

    /** tty_draw_glyph */
    method DrawGlyph(row: nat, col: nat)
      requires Sized()
      modifies framebuffer, vga, this`mapMask
      ensures if OnScreen(row, col)
              then Redrawn(font, cells[..][CellIndex(row, col)], old(framebuffer[..]), framebuffer[..], old(vga[..]),
                           vga[..], row, col, false)
              else framebuffer[..] == old(framebuffer[..]) && vga[..] == old(vga[..])
      ensures old(Packed(framebuffer[..], vga[..])) ==> Packed(framebuffer[..], vga[..])
    {
      if row >= TTY_ROWS || col >= TTY_COLS {
        return;
      }
      RenderCell(row, col);
    }

    method RenderCell(row: nat, col: nat)
      requires Sized() && OnScreen(row, col)
      modifies framebuffer, vga, this`mapMask
      ensures Redrawn(font, cells[..][CellIndex(row, col)], old(framebuffer[..]), framebuffer[..], old(vga[..]),
                      vga[..], row, col, false)
      ensures old(Packed(framebuffer[..], vga[..])) ==> Packed(framebuffer[..], vga[..])
    {
      ghost var fb0, vga0 := framebuffer[..], vga[..];
      PaintCell(row, col);
      FlushCell(row, col);
      if Packed(fb0, vga0) {
        RedrawnPacked(font, cells[CellIndex(row, col)], fb0, framebuffer[..], vga0, vga[..], row, col, false);
      }
    }

    /** The pixels of tty_draw_cursor_block, over a cell that shows its plain glyph. */
    method PaintBlock(row: nat, col: nat)
      requires Sized() && OnScreen(row, col)
      requires CellShown(font, cells[..][CellIndex(row, col)], framebuffer[..], row, col, false)
      modifies framebuffer
      ensures SameElsewhere(old(framebuffer[..]), framebuffer[..], row, col)
      ensures CellShown(font, cells[..][CellIndex(row, col)], framebuffer[..], row, col, true)
    {
      var cell := cells[CellIndex(row, col)];
      ghost var fb0 := framebuffer[..];
      BlockStarts(font, cell, fb0, row, col);
      var dy := CELL_HEIGHT - CURSOR_HEIGHT;
      while dy < CELL_HEIGHT
        invariant CELL_HEIGHT - CURSOR_HEIGHT <= dy <= CELL_HEIGHT
        invariant Painting(font, cell, fb0, framebuffer[..], row, col, dy, true)
      {
        ghost var fb1 := framebuffer[..];
        BlockRow(row, col, dy, CursorColor(cell));
        PaintingStep(font, cell, fb0, fb1, framebuffer[..], row, col, dy, true);
        dy := dy + 1;
      }
      PaintingDone(font, cell, fb0, framebuffer[..], row, col, true);
    }

    method BlockRow(row: nat, col: nat, dy: nat, v: byte)
      requires Sized() && OnScreen(row, col) && dy < CELL_HEIGHT
      modifies framebuffer
      ensures OnlyRow(old(framebuffer[..]), framebuffer[..], row, col, dy)
      ensures forall x :: 0 <= x < CELL_WIDTH ==> Dot(framebuffer[..], row, col, dy, x) == v
    {
      ghost var fb0 := framebuffer[..];
      var x := 0;
      while x < CELL_WIDTH
        invariant 0 <= x <= CELL_WIDTH && OnlyRow(fb0, framebuffer[..], row, col, dy)
        invariant forall k :: 0 <= k < x ==> Dot(framebuffer[..], row, col, dy, k) == v
      {
        SetDot(row, col, dy, x, v, fb0);
        x := x + 1;
      }
    }

    /** tty_draw_cursor_block */
    method DrawCursorBlock(row: nat, col: nat)
      requires Sized() && OnScreen(row, col)
      requires CellShown(font, cells[..][CellIndex(row, col)], framebuffer[..], row, col, false)
      modifies framebuffer, vga, this`mapMask
      ensures Redrawn(font, cells[..][CellIndex(row, col)], old(framebuffer[..]), framebuffer[..], old(vga[..]),
                      vga[..], row, col, true)
      ensures old(Packed(framebuffer[..], vga[..])) ==> Packed(framebuffer[..], vga[..])
    {
      ghost var fb0, vga0 := framebuffer[..], vga[..];
      PaintBlock(row, col);
      FlushCell(row, col);
      if Packed(fb0, vga0) {
        RedrawnPacked(font, cells[CellIndex(row, col)], fb0, framebuffer[..], vga0, vga[..], row, col, true);
      }
    }

    /** tty_redraw_cursor */
    method RedrawCursor()
      requires Drawn() && ValidScreen(State())
      modifies framebuffer, vga, this`mapMask, this`overlayRow, this`overlayCol
      ensures Valid() && State() == old(State())
    {
      Uncover();
      overlayRow := cursorRow;
      overlayCol := cursorCol;
      if overlayRow < TTY_ROWS && overlayCol < TTY_COLS {
        Cover();
      }
    }

    /** The glyph under the old overlay is restored. */
    method Uncover()
      requires Drawn()
      modifies framebuffer, vga, this`mapMask
      ensures Sized() && AllPlain(font, cells[..], framebuffer[..]) && Packed(framebuffer[..], vga[..])
    {
      if overlayRow < TTY_ROWS && overlayCol < TTY_COLS {
        ghost var cs, fb0, vga0 := cells[..], framebuffer[..], vga[..];
        DrawGlyph(overlayRow, overlayCol);
        RedrawnPlain(font, cs, cs, fb0, framebuffer[..], vga0, vga[..], overlayRow, overlayCol, overlayRow, overlayCol);
      }
    }

    /** The cursor is drawn at its new place. */
    method Cover()
      requires Sized() && OnScreen(overlayRow, overlayCol)
      requires AllPlain(font, cells[..], framebuffer[..]) && Packed(framebuffer[..], vga[..])
      modifies framebuffer, vga, this`mapMask
      ensures Shown(font, cells[..], framebuffer[..], overlayRow, overlayCol) && Packed(framebuffer[..], vga[..])
    {
      ghost var cs, fb1, vga1 := cells[..], framebuffer[..], vga[..];
      DrawGlyph(overlayRow, overlayCol);
      RedrawnPlain(font, cs, cs, fb1, framebuffer[..], vga1, vga[..], overlayRow, overlayCol, overlayRow, overlayCol);
      ghost var fb2, vga2 := framebuffer[..], vga[..];
      DrawCursorBlock(overlayRow, overlayCol);
      RedrawnShown(font, cs, fb2, framebuffer[..], vga2, vga[..], overlayRow, overlayCol);
    }

    /** tty_render_screen */
    method RenderScreen()
      requires Sized() && ValidScreen(State())
      modifies framebuffer, vga, this`mapMask, this`overlayRow, this`overlayCol
      ensures Valid() && State() == old(State())
    {
      ghost var cs := cells[..];
      var row := 0;
      while row < TTY_ROWS
        invariant 0 <= row <= TTY_ROWS && Sized() && cells[..] == cs
        invariant RenderedUpTo(font, cs, framebuffer[..], vga[..], row, 0)
      {
        RenderRow(row, cs);
        RenderedRow(font, cs, framebuffer[..], vga[..], row);
        row := row + 1;
      }
      RenderedAll(font, cs, framebuffer[..], vga[..]);
      overlayRow := CURSOR_INVALID;
      overlayCol := CURSOR_INVALID;
      RedrawCursor();
    }

    method RenderRow(row: nat, ghost cs: seq<Cell>)
      requires Sized() && row < TTY_ROWS && cells[..] == cs
      requires RenderedUpTo(font, cs, framebuffer[..], vga[..], row, 0)
      modifies framebuffer, vga, this`mapMask
      ensures RenderedUpTo(font, cs, framebuffer[..], vga[..], row, TTY_COLS)
    {
      var col := 0;
      while col < TTY_COLS
        invariant 0 <= col <= TTY_COLS && Sized() && cells[..] == cs
        invariant RenderedUpTo(font, cs, framebuffer[..], vga[..], row, col)
      {
        ghost var fb0, vga0 := framebuffer[..], vga[..];
        DrawGlyph(row, col);
        RenderedStep(font, cs, fb0, framebuffer[..], vga0, vga[..], row, col);
        col := col + 1;
      }
    }

    // Operations ------------------------------------------------------------------------------------

    /** The memmove and the blank rows of tty_scroll. */
    method ShiftCells(rows: nat)
      requires cells.Length == CELLS && rows <= TTY_ROWS
      modifies cells
      ensures cells[..] == ScrolledCells(old(cells[..]), rows, color)
    {
      ghost var before := cells[..];
      var n := rows * TTY_COLS;
      MemMove(cells, 0, n, CELLS - n);
      ghost var moved := cells[..];
      FillBlank(CELLS - n);
      ScrolledAt(before, moved, rows, color, cells[..], n);
    }

    method FillBlank(start: nat)
      requires cells.Length == CELLS && start <= CELLS
      modifies cells
      ensures forall k :: 0 <= k < start ==> cells[k] == old(cells[k])
      ensures forall k :: start <= k < CELLS ==> cells[k] == Blank(color)
    {
      var i := start;
      while i < CELLS
        invariant start <= i <= CELLS
        invariant forall k :: 0 <= k < start ==> cells[k] == old(cells[k])
        invariant forall k :: start <= k < i ==> cells[k] == Blank(color)
      {
        cells[i] := Blank(color);
        i := i + 1;
      }
    }

    /** tty_scroll */
    method Scroll()
      requires Sized() && cursorCol < TTY_COLS
      modifies cells, framebuffer, vga, this`mapMask, this`overlayRow, this`overlayCol, this`cursorRow
      ensures old(cursorRow) < TTY_ROWS ==>
                && State() == old(State()) && framebuffer[..] == old(framebuffer[..]) && vga[..] == old(vga[..])
                && overlayRow == old(overlayRow) && overlayCol == old(overlayCol)
      ensures old(cursorRow) >= TTY_ROWS ==>
                Valid() && State() == ScrolledUp(old(State()))
    {
      if cursorRow < TTY_ROWS {
        return;
      }
      var overflow := cursorRow - (TTY_ROWS - 1);
      if overflow > TTY_ROWS {
        overflow := TTY_ROWS;
      }
      ShiftCells(overflow);
      cursorRow := TTY_ROWS - 1;
      RenderScreen();
    }

    /** The cell and its glyph. */
    method Stamp(row: nat, col: nat, cell: Cell)
      requires Drawn() && OnScreen(row, col)
      modifies cells, framebuffer, vga, this`mapMask
      ensures Drawn() && cells[..] == old(cells[..])[CellIndex(row, col) := cell]
      ensures old(Shown(font, cells[..], framebuffer[..], overlayRow, overlayCol))
              && !(row == overlayRow && col == overlayCol) ==>
                Shown(font, cells[..], framebuffer[..], overlayRow, overlayCol)
    {
      ghost var cs, fb0, vga0 := cells[..], framebuffer[..], vga[..];
      cells[CellIndex(row, col)] := cell;
      assert cells[..] == cs[CellIndex(row, col) := cell];
      DrawGlyph(row, col);
      RedrawnPlain(font, cs, cells[..], fb0, framebuffer[..], vga0, vga[..], row, col, overlayRow, overlayCol);
      if Shown(font, cs, fb0, overlayRow, overlayCol) && !(row == overlayRow && col == overlayCol) {
        RedrawnStaysShown(font, cs, cells[..], fb0, framebuffer[..], vga0, vga[..], row, col, overlayRow, overlayCol);
      }
    }

    /** tty_putc: the cells change as Typed says, and the screen shows them. */
    method Putc(c: byte)
      requires Valid()
      modifies this, cells, framebuffer, vga
      ensures Valid() && State() == Typed(old(State()), c)
    {
      ShownIsPlainExcept(font, cells[..], framebuffer[..], cursorRow, cursorCol);
      if c == NEWLINE {
        NewLine();
      } else if c == RETURN {
        GoToStart();
      } else if c == BACKSPACE {
        StepBack();
      } else {
        Type(c);
      }
    }

    method NewLine()
      requires Drawn() && ValidScreen(State())
      modifies this`cursorRow, this`cursorCol, this`mapMask, this`overlayRow, this`overlayCol, cells, framebuffer, vga
      ensures Valid() && State() == Typed(old(State()), NEWLINE)
    {
      cursorCol := 0;
      cursorRow := cursorRow + 1;
      Settle();
    }

    method GoToStart()
      requires Drawn() && ValidScreen(State())
      modifies this`cursorCol, this`mapMask, this`overlayRow, this`overlayCol, framebuffer, vga
      ensures Valid() && State() == Typed(old(State()), RETURN)
    {
      cursorCol := 0;
      RedrawCursor();
    }

    method StepBack()
      requires Drawn() && ValidScreen(State())
      modifies this`cursorRow, this`cursorCol, this`mapMask, this`overlayRow, this`overlayCol, cells, framebuffer, vga
      ensures Valid() && State() == Typed(old(State()), BACKSPACE)
    {
      MoveBack();
      Stamp(cursorRow, cursorCol, Blank(color));
      RedrawCursor();
    }

    method MoveBack()
      requires Drawn() && ValidScreen(State())
      modifies this`cursorRow, this`cursorCol
      ensures Drawn() && State() == SteppedBack(old(State()))
    {
      if cursorCol > 0 {
        cursorCol := cursorCol - 1;
      } else if cursorRow > 0 {
        cursorRow := cursorRow - 1;
        cursorCol := TTY_COLS - 1;
      }
    }

    method Type(c: byte)
      requires Drawn() && ValidScreen(State()) && Printable(c)
      modifies this`cursorRow, this`cursorCol, this`mapMask, this`overlayRow, this`overlayCol, cells, framebuffer, vga
      ensures Valid() && State() == Typed(old(State()), c)
    {
      Stamp(cursorRow, cursorCol, Cell(c, color));
      cursorCol := cursorCol + 1;
      if cursorCol >= TTY_COLS {
        cursorCol := 0;
        cursorRow := cursorRow + 1;
      }
      Settle();
    }

    /** The end of tty_putc: scroll if need be, then draw the cursor. */
    method Settle()
      requires Drawn() && cursorRow <= TTY_ROWS && cursorCol < TTY_COLS
      modifies cells, framebuffer, vga, this`mapMask, this`overlayRow, this`overlayCol, this`cursorRow
      ensures Valid() && State() == Settled(old(State()))
    {
      Scroll();
      if old(cursorRow) >= TTY_ROWS {
        ShownIsPlainExcept(font, cells[..], framebuffer[..], cursorRow, cursorCol);
      }
      RedrawCursor();
    }

    /** tty_write */
    method Write(data: seq<byte>)
      requires Valid()
      modifies this, cells, framebuffer, vga
      ensures Valid() && State() == TypedAll(old(State()), data)
    {
      var i := 0;
      while i < |data|
        invariant 0 <= i <= |data| && Valid() && State() == TypedAll(old(State()), data[..i])
      {
        assert data[..i + 1][..i] == data[..i];
        Putc(data[i]);
        i := i + 1;
      }
      assert data[..i] == data;
    }

    /** tty_clear */
    method Clear()
      requires Valid()
      modifies this, cells, framebuffer, vga
      ensures Valid() && State() == Screen(BlankCells(CELLS, old(color)), 0, 0, old(color))
    {
      FillBlank(0);
      cursorRow := 0;
      cursorCol := 0;
      assert cells[..] == BlankCells(CELLS, color);
      RenderScreen();
    }

    /** tty_write_cell */
    method WriteCell(row: nat, col: nat, c: byte, color: byte)
      requires Valid()
      modifies cells, framebuffer, vga, this`mapMask, this`overlayRow, this`overlayCol
      ensures Valid()
      ensures State() == if OnScreen(row, col) then Stamped(old(State()), row, col, Cell(c, color)) else old(State())
    {
      if row >= TTY_ROWS || col >= TTY_COLS {
        return;
      }
      ShownIsPlainExcept(font, cells[..], framebuffer[..], cursorRow, cursorCol);
      Stamp(row, col, Cell(c, color));
      if row == cursorRow && col == cursorCol {
        RedrawCursor();
      }
    }

    /** tty_get_cell_character and tty_get_cell_color */
    method GetCell(row: nat, col: nat) returns (cell: Cell)
      requires Sized()
      ensures cell == if OnScreen(row, col) then cells[CellIndex(row, col)] else Cell(NUL, 0)
    {
      if row >= TTY_ROWS || col >= TTY_COLS {
        return Cell(NUL, 0);
      }
      return cells[CellIndex(row, col)];
    }

    /** tty_set_cursor_position */
    method SetCursorPosition(row: nat, col: nat)
      requires Valid()
      modifies framebuffer, vga, this`mapMask, this`overlayRow, this`overlayCol, this`cursorRow, this`cursorCol
      ensures Valid()
      ensures State() == old(State()).(row := if row >= TTY_ROWS then TTY_ROWS - 1 else row,
                                       col := if col >= TTY_COLS then TTY_COLS - 1 else col)
    {
      ShownIsPlainExcept(font, cells[..], framebuffer[..], cursorRow, cursorCol);
      cursorRow := if row >= TTY_ROWS then TTY_ROWS - 1 else row;
      cursorCol := if col >= TTY_COLS then TTY_COLS - 1 else col;
      RedrawCursor();
    }

    /** tty_set_color */
    method SetColor(color: byte)
      requires Valid()
      modifies this`color
      ensures Valid() && State() == old(State()).(color := color)
    {
      this.color := color;
    }

    /** tty_init, without the palette. */
    constructor (font: Font, color: byte)
      ensures Valid() && State() == Screen(BlankCells(CELLS, color), 0, 0, color)
      ensures fresh(cells) && fresh(framebuffer) && fresh(vga)
    {
      this.font := font;
      this.color := color;
      cursorRow, cursorCol := 0, 0;
      overlayRow, overlayCol := CURSOR_INVALID, CURSOR_INVALID;
      mapMask := 0x0F;
      framebuffer := new byte[FRAME_BYTES](_ => 0);
      vga := new byte[4 * PLANE_BYTES](_ => 0);
      cells := new Cell[CELLS](_ => Blank(color));
      new;
      assert cells[..] == BlankCells(CELLS, color);
      RenderScreen();
    }
  }

  function TypedAll(s: Screen, data: seq<byte>): (r: Screen)
    requires ValidScreen(s)
    ensures ValidScreen(r)
  {
    if data == [] then s else Typed(TypedAll(s, data[..|data| - 1]), data[|data| - 1])
  }

  predicate PacksFirst(b: byte, plane: nat, pixel: seq<byte>, n: nat)
    requires plane < 4 && |pixel| == CELL_WIDTH && n <= CELL_WIDTH
  {
    forall k :: 0 <= k < CELL_WIDTH ==> TestBit(b, k) == (k < n && TestBit(pixel[k], plane))
  }

  lemma ZerosPackNothing(pixel: seq<byte>)
    requires |pixel| == CELL_WIDTH
    ensures forall p :: 0 <= p < 4 ==> PacksFirst(0, p, pixel, 0)
  {
    forall k | 0 <= k < CELL_WIDTH ensures !TestBit(0, k) {
      Constants(0, k);
    }
  }

  lemma PackOneMore(b: byte, plane: nat, pixel: seq<byte>, n: nat)
    requires plane < 4 && |pixel| == CELL_WIDTH && n < CELL_WIDTH && PacksFirst(b, plane, pixel, n)
    ensures PacksFirst(b | (if TestBit(pixel[n], plane) then Mask(n) else 0), plane, pixel, n + 1)
  {
    var c := b | (if TestBit(pixel[n], plane) then Mask(n) else 0);
    forall k | 0 <= k < CELL_WIDTH ensures TestBit(c, k) == (k < n + 1 && TestBit(pixel[k], plane)) {
      PutBitTest(b, n, true, k);
    }
  }

  /** The bytes at `offset` of the first `n` planes are written. */
  ghost predicate RowWritten(vga0: seq<byte>, vga: seq<byte>, offset: nat, planes: seq<byte>, n: nat)
    requires |planes| == 4 && offset < PLANE_BYTES && n <= 4
  {
    && |vga0| == |vga| == 4 * PLANE_BYTES
    && (forall p, o {:trigger PlaneByte(vga, p, o)} :: 0 <= p < 4 && 0 <= o < PLANE_BYTES ==>
          PlaneByte(vga, p, o) == if o == offset && p < n then planes[p] else PlaneByte(vga0, p, o))
  }

  lemma RowWrittenMore(vga0: seq<byte>, v: seq<byte>, vga: seq<byte>, offset: nat, planes: seq<byte>, n: nat)
    requires |planes| == 4 && offset < PLANE_BYTES && n < 4
    requires RowWritten(vga0, v, offset, planes, n) && PlanesWritten(v, vga, Mask(n), offset, planes[n])
    ensures RowWritten(vga0, vga, offset, planes, n + 1)
  {
    forall p | 0 <= p < 4 ensures TestBit(Mask(n), p) <==> p == n {
      MaskSelects(n, p);
    }
  }

  lemma RowWrittenPacked(fb: seq<byte>, vga0: seq<byte>, vga: seq<byte>, row: nat, col: nat, dy: nat, planes: seq<byte>)
    requires |fb| == FRAME_BYTES && OnScreen(row, col) && dy < CELL_HEIGHT && |planes| == 4
    requires RowWritten(vga0, vga, RowOffset(row, col, dy), planes, 4)
    requires forall p :: 0 <= p < 4 ==> Packs(planes[p], p, RowDots(fb, row, col, dy))
    ensures RowPacked(fb, vga, row, col, dy)
    ensures forall y :: 0 <= y < CELL_HEIGHT && y != dy && RowPacked(fb, vga0, row, col, y) ==> RowPacked(fb, vga, row, col, y)
    ensures SamePlanesElsewhere(vga0, vga, row, col)
  {
    forall y | 0 <= y < CELL_HEIGHT && y != dy && RowPacked(fb, vga0, row, col, y) ensures RowPacked(fb, vga, row, col, y) {
      RowOffsetInjective(row, col, dy, row, col, y);
    }
    forall p, r, c, y | 0 <= p < 4 && 0 <= r < TTY_ROWS && 0 <= c < TTY_COLS && 0 <= y < CELL_HEIGHT && !(r == row && c == col)
      ensures PlaneByte(vga, p, RowOffset(r, c, y)) == PlaneByte(vga0, p, RowOffset(r, c, y))
    {
      RowOffsetInjective(row, col, dy, r, c, y);
    }
  }
}

/** The terminal's two memories: the pixel framebuffer and the VGA bitplanes, addressed cell by
    cell, and what it means that they show the cells. */
module TtyFrames {
  import opened Bytes
  import opened Bitmap
  import opened TtyPixels

  const FRAME_BYTES: nat := SCREEN_WIDTH * SCREEN_HEIGHT
  const BYTES_PER_SCANLINE: nat := SCREEN_WIDTH / 8
  const PLANE_BYTES: nat := 0x10000

  predicate OnScreen(row: nat, col: nat) {
    row < TTY_ROWS && col < TTY_COLS
  }

  // Pixels -------------------------------------------------------------------------------------

  /** The framebuffer index of pixel (dx, dy) of a cell. */
  function DotIndex(row: nat, col: nat, dy: nat, dx: nat): (i: nat)
    requires OnScreen(row, col) && dy < CELL_HEIGHT && dx < CELL_WIDTH
    ensures i < FRAME_BYTES
  {
    (row * CELL_HEIGHT + dy) * SCREEN_WIDTH + (col * CELL_WIDTH + dx)
  }

  lemma DotIndexInjective(row: nat, col: nat, dy: nat, dx: nat, r: nat, c: nat, y: nat, x: nat)
    requires OnScreen(row, col) && dy < CELL_HEIGHT && dx < CELL_WIDTH
    requires OnScreen(r, c) && y < CELL_HEIGHT && x < CELL_WIDTH
    ensures DotIndex(row, col, dy, dx) == DotIndex(r, c, y, x) <==> row == r && col == c && dy == y && dx == x
  {
    PairInjective(SCREEN_WIDTH, row * CELL_HEIGHT + dy, col * CELL_WIDTH + dx, r * CELL_HEIGHT + y, c * CELL_WIDTH + x);
    PairInjective(CELL_HEIGHT, row, dy, r, y);
    PairInjective(CELL_WIDTH, col, dx, c, x);
  }

  lemma PairInjective(n: nat, a: nat, b: nat, c: nat, d: nat)
    requires b < n && d < n
    ensures a * n + b == c * n + d <==> a == c && b == d
  {
    if a < c {
      StepsApart(n, a, c);
    } else if c < a {
      StepsApart(n, c, a);
    }
  }

  lemma StepsApart(n: nat, a: nat, c: nat)
    requires a < c
    ensures a * n + n <= c * n
  {
    var k := c - a - 1;
    assert k * n >= 0;
    assert c * n == (a + 1 + k) * n == a * n + n + k * n;
  }

  lemma CellIndexInjective(row: nat, col: nat, r: nat, c: nat)
    requires OnScreen(row, col) && OnScreen(r, c)
    ensures CellIndex(row, col) == CellIndex(r, c) <==> row == r && col == c
    ensures CellIndex(row, col) < CELLS
  {
    PairInjective(TTY_COLS, row, col, r, c);
  }

  function Dot(fb: seq<byte>, row: nat, col: nat, dy: nat, dx: nat): byte
    requires |fb| == FRAME_BYTES && OnScreen(row, col) && dy < CELL_HEIGHT && dx < CELL_WIDTH
  {
    fb[DotIndex(row, col, dy, dx)]
  }

  lemma DotUpdate(fb: seq<byte>, row: nat, col: nat, dy: nat, dx: nat, v: byte, r: nat, c: nat, y: nat, x: nat)
    requires |fb| == FRAME_BYTES && OnScreen(row, col) && dy < CELL_HEIGHT && dx < CELL_WIDTH
    requires OnScreen(r, c) && y < CELL_HEIGHT && x < CELL_WIDTH
    ensures Dot(fb[DotIndex(row, col, dy, dx) := v], r, c, y, x) ==
            if row == r && col == c && dy == y && dx == x then v else Dot(fb, r, c, y, x)
  {
    DotIndexInjective(row, col, dy, dx, r, c, y, x);
  }

  /** Only pixels of one cell differ. */
  ghost predicate SameElsewhere(fb0: seq<byte>, fb: seq<byte>, row: nat, col: nat) {
    && |fb0| == |fb| == FRAME_BYTES
    && (forall r, c, y, x {:trigger Dot(fb, r, c, y, x)} ::
          0 <= r < TTY_ROWS && 0 <= c < TTY_COLS && 0 <= y < CELL_HEIGHT && 0 <= x < CELL_WIDTH && !(r == row && c == col) ==>
            Dot(fb, r, c, y, x) == Dot(fb0, r, c, y, x))
  }

  /** The framebuffer shows one cell, with or without the cursor. */
  ghost predicate CellShown(font: Font, cell: Cell, fb: seq<byte>, row: nat, col: nat, cursor: bool)
    requires |fb| == FRAME_BYTES && OnScreen(row, col)
  {
    forall y, x {:trigger Dot(fb, row, col, y, x)} :: 0 <= y < CELL_HEIGHT && 0 <= x < CELL_WIDTH ==>
      Dot(fb, row, col, y, x) == CellPixel(font, cell, cursor, x, y)
  }

  lemma CellShownFrame(font: Font, cell: Cell, fb0: seq<byte>, fb: seq<byte>, row: nat, col: nat, r: nat, c: nat, cursor: bool)
    requires SameElsewhere(fb0, fb, row, col) && OnScreen(r, c) && !(r == row && c == col)
    ensures CellShown(font, cell, fb, r, c, cursor) == CellShown(font, cell, fb0, r, c, cursor)
  {
    forall y, x | 0 <= y < CELL_HEIGHT && 0 <= x < CELL_WIDTH ensures Dot(fb, r, c, y, x) == Dot(fb0, r, c, y, x) {
    }
  }

  /** The framebuffer is a full render of the cells with the cursor on (row, col). */
  ghost predicate Shown(font: Font, cells: seq<Cell>, fb: seq<byte>, row: nat, col: nat)
    requires |fb| == FRAME_BYTES && |cells| == CELLS
  {
    forall r, c {:trigger OnScreen(r, c)} :: OnScreen(r, c) ==>
      CellShown(font, cells[CellIndex(r, c)], fb, r, c, r == row && c == col)
  }

  /** Every cell but perhaps one is shown without a cursor. */
  ghost predicate PlainExcept(font: Font, cells: seq<Cell>, fb: seq<byte>, row: nat, col: nat)
    requires |fb| == FRAME_BYTES && |cells| == CELLS
  {
    forall r, c {:trigger OnScreen(r, c)} :: OnScreen(r, c) && !(r == row && c == col) ==>
      CellShown(font, cells[CellIndex(r, c)], fb, r, c, false)
  }

  /** Shown means: every pixel of the screen is the one a full render would put there. */
  lemma ShownIsRender(font: Font, cells: seq<Cell>, fb: seq<byte>, row: nat, col: nat, y: nat, x: nat)
    requires |fb| == FRAME_BYTES && |cells| == CELLS && Shown(font, cells, fb, row, col)
    requires y < SCREEN_HEIGHT && x < SCREEN_WIDTH
    ensures fb[y * SCREEN_WIDTH + x] == Render(font, cells, row, col, y, x)
  {
    var r, c := y / CELL_HEIGHT, x / CELL_WIDTH;
    assert OnScreen(r, c);
    assert DotIndex(r, c, y % CELL_HEIGHT, x % CELL_WIDTH) == y * SCREEN_WIDTH + x;
    assert Dot(fb, r, c, y % CELL_HEIGHT, x % CELL_WIDTH) == fb[y * SCREEN_WIDTH + x];
  }

  // Planes ------------------------------------------------------------------------------------------

  function PlaneIndex(plane: nat, offset: nat): (i: nat)
    requires plane < 4 && offset < PLANE_BYTES
    ensures i < 4 * PLANE_BYTES
  {
    plane * PLANE_BYTES + offset
  }

  function PlaneByte(vga: seq<byte>, plane: nat, offset: nat): byte
    requires |vga| == 4 * PLANE_BYTES && plane < 4 && offset < PLANE_BYTES
  {
    vga[PlaneIndex(plane, offset)]
  }

  lemma PlaneUpdate(vga: seq<byte>, plane: nat, offset: nat, value: byte)
    requires |vga| == 4 * PLANE_BYTES && plane < 4 && offset < PLANE_BYTES
    ensures var after := vga[PlaneIndex(plane, offset) := value];
      forall p, o {:trigger PlaneByte(after, p, o)} :: 0 <= p < 4 && 0 <= o < PLANE_BYTES ==>
        PlaneByte(after, p, o) == if p == plane && o == offset then value else PlaneByte(vga, p, o)
  {
    var after := vga[PlaneIndex(plane, offset) := value];
    forall p, o | 0 <= p < 4 && 0 <= o < PLANE_BYTES
      ensures PlaneByte(after, p, o) == if p == plane && o == offset then value else PlaneByte(vga, p, o)
    {
      PairInjective(PLANE_BYTES, plane, offset, p, o);
    }
  }

  /** The byte that holds row `dy` of a cell in every plane. */
  function RowOffset(row: nat, col: nat, dy: nat): (o: nat)
    requires OnScreen(row, col) && dy < CELL_HEIGHT
    ensures o < PLANE_BYTES
  {
    InPlane(row * CELL_HEIGHT + dy, col);
    (row * CELL_HEIGHT + dy) * BYTES_PER_SCANLINE + col
  }

  lemma InPlane(y: nat, col: nat)
    requires y < SCREEN_HEIGHT && col < TTY_COLS
    ensures y * BYTES_PER_SCANLINE + col < PLANE_BYTES
  {
    assert y * 80 <= 479 * 80;
  }

  lemma RowOffsetInjective(row: nat, col: nat, dy: nat, r: nat, c: nat, y: nat)
    requires OnScreen(row, col) && dy < CELL_HEIGHT && OnScreen(r, c) && y < CELL_HEIGHT
    ensures RowOffset(row, col, dy) == RowOffset(r, c, y) <==> row == r && col == c && dy == y
  {
    PairInjective(BYTES_PER_SCANLINE, row * CELL_HEIGHT + dy, col, r * CELL_HEIGHT + y, c);
    PairInjective(CELL_HEIGHT, row, dy, r, y);
  }

  function RowDots(fb: seq<byte>, row: nat, col: nat, dy: nat): (s: seq<byte>)
    requires |fb| == FRAME_BYTES && OnScreen(row, col) && dy < CELL_HEIGHT
    ensures |s| == CELL_WIDTH
  {
    seq(CELL_WIDTH, dx requires 0 <= dx < CELL_WIDTH => Dot(fb, row, col, dy, dx))
  }

  /** Row `dy` of a cell is packed into all four planes. */
  ghost predicate RowPacked(fb: seq<byte>, vga: seq<byte>, row: nat, col: nat, dy: nat)
    requires |fb| == FRAME_BYTES && |vga| == 4 * PLANE_BYTES && OnScreen(row, col) && dy < CELL_HEIGHT
  {
    forall p :: 0 <= p < 4 ==> Packs(PlaneByte(vga, p, RowOffset(row, col, dy)), p, RowDots(fb, row, col, dy))
  }

  ghost predicate CellPacked(fb: seq<byte>, vga: seq<byte>, row: nat, col: nat)
    requires |fb| == FRAME_BYTES && |vga| == 4 * PLANE_BYTES && OnScreen(row, col)
  {
    forall dy {:trigger RowPacked(fb, vga, row, col, dy)} :: 0 <= dy < CELL_HEIGHT ==> RowPacked(fb, vga, row, col, dy)
  }

  ghost predicate Packed(fb: seq<byte>, vga: seq<byte>)
    requires |fb| == FRAME_BYTES && |vga| == 4 * PLANE_BYTES
  {
    forall r, c {:trigger OnScreen(r, c)} :: OnScreen(r, c) ==> CellPacked(fb, vga, r, c)
  }

  /** Only the bytes of one cell differ. */
  ghost predicate SamePlanesElsewhere(vga0: seq<byte>, vga: seq<byte>, row: nat, col: nat) {
    && |vga0| == |vga| == 4 * PLANE_BYTES
    && (forall p, r, c, y {:trigger PlaneByte(vga, p, RowOffset(r, c, y))} ::
          0 <= p < 4 && 0 <= r < TTY_ROWS && 0 <= c < TTY_COLS && 0 <= y < CELL_HEIGHT && !(r == row && c == col) ==>
            PlaneByte(vga, p, RowOffset(r, c, y)) == PlaneByte(vga0, p, RowOffset(r, c, y)))
  }

  lemma CellPackedFrame(fb0: seq<byte>, fb: seq<byte>, vga0: seq<byte>, vga: seq<byte>, row: nat, col: nat, r: nat, c: nat)
    requires SameElsewhere(fb0, fb, row, col) && SamePlanesElsewhere(vga0, vga, row, col)
    requires OnScreen(r, c) && !(r == row && c == col) && CellPacked(fb0, vga0, r, c)
    ensures CellPacked(fb, vga, r, c)
  {
    forall dy | 0 <= dy < CELL_HEIGHT ensures RowPacked(fb, vga, r, c, dy) {
      assert RowPacked(fb0, vga0, r, c, dy);
      assert RowDots(fb, r, c, dy) == RowDots(fb0, r, c, dy);
    }
  }

  /** A write to video memory reaches the planes that the map mask selects. */
  ghost predicate PlanesWritten(vga0: seq<byte>, vga: seq<byte>, mask: byte, offset: nat, value: byte) {
    && |vga0| == |vga| == 4 * PLANE_BYTES
    && (forall p, o {:trigger PlaneByte(vga, p, o)} :: 0 <= p < 4 && 0 <= o < PLANE_BYTES ==>
          PlaneByte(vga, p, o) == if o == offset && TestBit(mask, p) then value else PlaneByte(vga0, p, o))
  }

  lemma MaskSelects(p: nat, q: nat)
    requires p < 4 && q < 4
    ensures TestBit(Mask(p), q) <==> p == q
  {
    if p == 0 {} else if p == 1 {} else if p == 2 {} else { assert p == 3; }
    if q == 0 {} else if q == 1 {} else if q == 2 {} else { assert q == 3; }
  }

  // Redrawing one cell ---------------------------------------------------------------------------------

  /** One cell was redrawn in both memories. */
  ghost predicate Redrawn(font: Font, cell: Cell, fb0: seq<byte>, fb: seq<byte>, vga0: seq<byte>, vga: seq<byte>,
                          row: nat, col: nat, cursor: bool) {
    && OnScreen(row, col)
    && SameElsewhere(fb0, fb, row, col) && SamePlanesElsewhere(vga0, vga, row, col)
    && CellShown(font, cell, fb, row, col, cursor) && CellPacked(fb, vga, row, col)
  }

  lemma RedrawnPacked(font: Font, cell: Cell, fb0: seq<byte>, fb: seq<byte>, vga0: seq<byte>, vga: seq<byte>,
                      row: nat, col: nat, cursor: bool)
    requires Redrawn(font, cell, fb0, fb, vga0, vga, row, col, cursor) && Packed(fb0, vga0)
    ensures Packed(fb, vga)
  {
    forall r, c | OnScreen(r, c) ensures CellPacked(fb, vga, r, c) {
      if !(r == row && c == col) {
        CellPackedFrame(fb0, fb, vga0, vga, row, col, r, c);
      }
    }
  }

  ghost predicate AllPlain(font: Font, cells: seq<Cell>, fb: seq<byte>)
    requires |fb| == FRAME_BYTES && |cells| == CELLS
  {
    forall r, c {:trigger OnScreen(r, c)} :: OnScreen(r, c) ==>
      CellShown(font, cells[CellIndex(r, c)], fb, r, c, false)
  }

  lemma RedrawnOther(font: Font, cells0: seq<Cell>, cells: seq<Cell>, fb0: seq<byte>, fb: seq<byte>,
                     row: nat, col: nat, r: nat, c: nat, cursor: bool)
    requires |cells0| == |cells| == CELLS && OnScreen(row, col) && OnScreen(r, c) && !(r == row && c == col)
    requires cells == cells0[CellIndex(row, col) := cells[CellIndex(row, col)]]
    requires SameElsewhere(fb0, fb, row, col) && CellShown(font, cells0[CellIndex(r, c)], fb0, r, c, cursor)
    ensures CellShown(font, cells[CellIndex(r, c)], fb, r, c, cursor)
  {
    CellIndexInjective(row, col, r, c);
    CellShownFrame(font, cells[CellIndex(r, c)], fb0, fb, row, col, r, c, cursor);
  }

  /** Drawing a cell plain leaves the others as they were. */
  lemma RedrawnPlain(font: Font, cells0: seq<Cell>, cells: seq<Cell>, fb0: seq<byte>, fb: seq<byte>,
                     vga0: seq<byte>, vga: seq<byte>, row: nat, col: nat, r0: nat, c0: nat)
    requires |cells0| == |cells| == CELLS && OnScreen(row, col) && |fb0| == FRAME_BYTES
    requires cells == cells0[CellIndex(row, col) := cells[CellIndex(row, col)]]
    requires Redrawn(font, cells[CellIndex(row, col)], fb0, fb, vga0, vga, row, col, false)
    requires PlainExcept(font, cells0, fb0, r0, c0)
    ensures PlainExcept(font, cells, fb, r0, c0)
    ensures row == r0 && col == c0 ==> AllPlain(font, cells, fb)
  {
    forall r, c | OnScreen(r, c) && ((r == row && c == col) || !(r == r0 && c == c0))
      ensures CellShown(font, cells[CellIndex(r, c)], fb, r, c, false)
    {
      if !(r == row && c == col) {
        RedrawnOther(font, cells0, cells, fb0, fb, row, col, r, c, false);
      }
    }
  }

  /** Drawing a changed cell under no cursor keeps the screen a full render. */
  lemma RedrawnStaysShown(font: Font, cells0: seq<Cell>, cells: seq<Cell>, fb0: seq<byte>, fb: seq<byte>,
                          vga0: seq<byte>, vga: seq<byte>, row: nat, col: nat, r0: nat, c0: nat)
    requires |cells0| == |cells| == CELLS && OnScreen(row, col) && |fb0| == FRAME_BYTES && !(row == r0 && col == c0)
    requires cells == cells0[CellIndex(row, col) := cells[CellIndex(row, col)]]
    requires Redrawn(font, cells[CellIndex(row, col)], fb0, fb, vga0, vga, row, col, false)
    requires Shown(font, cells0, fb0, r0, c0)
    ensures Shown(font, cells, fb, r0, c0)
  {
    forall r, c | OnScreen(r, c) ensures CellShown(font, cells[CellIndex(r, c)], fb, r, c, r == r0 && c == c0) {
      if r == row && c == col {
        assert !(r == r0 && c == c0);
      } else if r == r0 && c == c0 {
        assert CellShown(font, cells0[CellIndex(r, c)], fb0, r, c, true);
        RedrawnOther(font, cells0, cells, fb0, fb, row, col, r, c, true);
      } else {
        assert CellShown(font, cells0[CellIndex(r, c)], fb0, r, c, false);
        RedrawnOther(font, cells0, cells, fb0, fb, row, col, r, c, false);
      }
    }
  }

  /** Drawing the cursor on a cell when all others are plain shows the whole screen. */
  lemma RedrawnShown(font: Font, cells: seq<Cell>, fb0: seq<byte>, fb: seq<byte>, vga0: seq<byte>, vga: seq<byte>,
                     row: nat, col: nat)
    requires |cells| == CELLS && OnScreen(row, col) && |fb0| == FRAME_BYTES
    requires Redrawn(font, cells[CellIndex(row, col)], fb0, fb, vga0, vga, row, col, true)
    requires PlainExcept(font, cells, fb0, row, col)
    ensures Shown(font, cells, fb, row, col)
  {
    forall r, c | OnScreen(r, c) ensures CellShown(font, cells[CellIndex(r, c)], fb, r, c, r == row && c == col) {
      if !(r == row && c == col) {
        CellShownFrame(font, cells[CellIndex(r, c)], fb0, fb, row, col, r, c, false);
      }
    }
  }

  lemma ShownIsPlainExcept(font: Font, cells: seq<Cell>, fb: seq<byte>, row: nat, col: nat)
    requires |cells| == CELLS && |fb| == FRAME_BYTES && Shown(font, cells, fb, row, col)
    ensures PlainExcept(font, cells, fb, row, col)
  {
  }

  /** Only pixels of row `dy` of one cell differ. */
  ghost predicate OnlyRow(fb0: seq<byte>, fb: seq<byte>, row: nat, col: nat, dy: nat)
    requires OnScreen(row, col)
  {
    && SameElsewhere(fb0, fb, row, col)
    && (forall y, x {:trigger Dot(fb, row, col, y, x)} :: 0 <= y < CELL_HEIGHT && 0 <= x < CELL_WIDTH && y != dy ==>
          Dot(fb, row, col, y, x) == Dot(fb0, row, col, y, x))
  }

  lemma OnlyRowUpdate(fb0: seq<byte>, fb: seq<byte>, row: nat, col: nat, dy: nat, dx: nat, v: byte)
    requires OnScreen(row, col) && dy < CELL_HEIGHT && dx < CELL_WIDTH && OnlyRow(fb0, fb, row, col, dy)
    ensures var after := fb[DotIndex(row, col, dy, dx) := v];
      && OnlyRow(fb0, after, row, col, dy)
      && Dot(after, row, col, dy, dx) == v
      && forall x :: 0 <= x < CELL_WIDTH && x != dx ==> Dot(after, row, col, dy, x) == Dot(fb, row, col, dy, x)
  {
    var after := fb[DotIndex(row, col, dy, dx) := v];
    forall r, c, y, x | 0 <= r < TTY_ROWS && 0 <= c < TTY_COLS && 0 <= y < CELL_HEIGHT && 0 <= x < CELL_WIDTH
      ensures Dot(after, r, c, y, x) == if r == row && c == col && y == dy && x == dx then v else Dot(fb, r, c, y, x)
    {
      DotUpdate(fb, row, col, dy, dx, v, r, c, y, x);
    }
  }

  ghost predicate RowShown(font: Font, cell: Cell, fb: seq<byte>, row: nat, col: nat, dy: nat, cursor: bool)
    requires |fb| == FRAME_BYTES && OnScreen(row, col) && dy < CELL_HEIGHT
  {
    forall x :: 0 <= x < CELL_WIDTH ==> Dot(fb, row, col, dy, x) == CellPixel(font, cell, cursor, x, dy)
  }

  /** The first `n` rows of a cell are painted, and no other cell is touched. */
  ghost predicate Painting(font: Font, cell: Cell, fb0: seq<byte>, fb: seq<byte>, row: nat, col: nat, n: nat, cursor: bool)
    requires OnScreen(row, col) && n <= CELL_HEIGHT
  {
    && SameElsewhere(fb0, fb, row, col)
    && (forall y {:trigger RowShown(font, cell, fb, row, col, y, cursor)} :: 0 <= y < n ==>
          RowShown(font, cell, fb, row, col, y, cursor))
  }

  lemma PaintingStep(font: Font, cell: Cell, fb0: seq<byte>, fb1: seq<byte>, fb: seq<byte>, row: nat, col: nat, n: nat,
                     cursor: bool)
    requires OnScreen(row, col) && n < CELL_HEIGHT && Painting(font, cell, fb0, fb1, row, col, n, cursor)
    requires OnlyRow(fb1, fb, row, col, n) && RowShown(font, cell, fb, row, col, n, cursor)
    ensures Painting(font, cell, fb0, fb, row, col, n + 1, cursor)
  {
    forall y | 0 <= y < n + 1 ensures RowShown(font, cell, fb, row, col, y, cursor) {
      if y < n {
        assert RowShown(font, cell, fb1, row, col, y, cursor);
      }
    }
  }

  lemma PaintingDone(font: Font, cell: Cell, fb0: seq<byte>, fb: seq<byte>, row: nat, col: nat, cursor: bool)
    requires OnScreen(row, col) && Painting(font, cell, fb0, fb, row, col, CELL_HEIGHT, cursor)
    ensures CellShown(font, cell, fb, row, col, cursor)
  {
    forall y, x | 0 <= y < CELL_HEIGHT && 0 <= x < CELL_WIDTH
      ensures Dot(fb, row, col, y, x) == CellPixel(font, cell, cursor, x, y)
    {
      assert RowShown(font, cell, fb, row, col, y, cursor);
    }
  }

  /** The cursor block starts from a plain cell, whose first rows are already right. */
  lemma BlockStarts(font: Font, cell: Cell, fb: seq<byte>, row: nat, col: nat)
    requires |fb| == FRAME_BYTES && OnScreen(row, col) && CellShown(font, cell, fb, row, col, false)
    ensures Painting(font, cell, fb, fb, row, col, CELL_HEIGHT - CURSOR_HEIGHT, true)
  {
    forall y | 0 <= y < CELL_HEIGHT - CURSOR_HEIGHT ensures RowShown(font, cell, fb, row, col, y, true) {
    }
  }

  lemma MaskTest(b: byte, k: nat)
    requires k < 8
    ensures b & Mask(k) != 0 <==> TestBit(b, k)
  {
    if k == 0 {} else if k == 1 {} else if k == 2 {} else if k == 3 {}
    else if k == 4 {} else if k == 5 {} else if k == 6 {} else { assert k == 7; }
  }

  // Redrawing everything ---------------------------------------------------------------------------------

  predicate Before(r: nat, c: nat, row: nat, col: nat) {
    r < row || (r == row && c < col)
  }

  /** The cells before (row, col), in reading order, are drawn plain and packed. */
  ghost predicate RenderedUpTo(font: Font, cells: seq<Cell>, fb: seq<byte>, vga: seq<byte>, row: nat, col: nat)
    requires |cells| == CELLS
  {
    && |fb| == FRAME_BYTES && |vga| == 4 * PLANE_BYTES
    && (forall r, c {:trigger OnScreen(r, c)} :: OnScreen(r, c) && Before(r, c, row, col) ==>
          CellShown(font, cells[CellIndex(r, c)], fb, r, c, false) && CellPacked(fb, vga, r, c))
  }

  lemma RenderedStep(font: Font, cells: seq<Cell>, fb0: seq<byte>, fb: seq<byte>, vga0: seq<byte>, vga: seq<byte>,
                     row: nat, col: nat)
    requires |cells| == CELLS && OnScreen(row, col) && RenderedUpTo(font, cells, fb0, vga0, row, col)
    requires Redrawn(font, cells[CellIndex(row, col)], fb0, fb, vga0, vga, row, col, false)
    ensures RenderedUpTo(font, cells, fb, vga, row, col + 1)
  {
    forall r, c | OnScreen(r, c) && Before(r, c, row, col + 1)
      ensures CellShown(font, cells[CellIndex(r, c)], fb, r, c, false) && CellPacked(fb, vga, r, c)
    {
      if !(r == row && c == col) {
        CellShownFrame(font, cells[CellIndex(r, c)], fb0, fb, row, col, r, c, false);
        CellPackedFrame(fb0, fb, vga0, vga, row, col, r, c);
      }
    }
  }

  lemma RenderedRow(font: Font, cells: seq<Cell>, fb: seq<byte>, vga: seq<byte>, row: nat)
    requires |cells| == CELLS && RenderedUpTo(font, cells, fb, vga, row, TTY_COLS)
    ensures RenderedUpTo(font, cells, fb, vga, row + 1, 0)
  {
  }

  lemma RenderedAll(font: Font, cells: seq<Cell>, fb: seq<byte>, vga: seq<byte>)
    requires |cells| == CELLS && RenderedUpTo(font, cells, fb, vga, TTY_ROWS, 0)
    ensures AllPlain(font, cells, fb) && Packed(fb, vga)
  {
  }

  /** What video memory holds for line `dy` of a cell: in each plane the font's own byte, its complement, all
      ones or all zeros, as that plane's bits of the two halves of the colour byte say; under the cursor, the
      last two lines of its cell, all ones or all zeros. */
  lemma VideoMemoryIsFont(font: Font, cells: seq<Cell>, fb: seq<byte>, vga: seq<byte>, cursorRow: nat, cursorCol: nat,
                          row: nat, col: nat, dy: nat, plane: nat)
    requires |cells| == CELLS && |fb| == FRAME_BYTES && |vga| == 4 * PLANE_BYTES
    requires Shown(font, cells, fb, cursorRow, cursorCol) && Packed(fb, vga)
    requires row < 30 && col < 80 && dy < 16 && plane < 4
    ensures 80 * row + col < |cells| && (row * 16 + dy) * 80 + col < PLANE_BYTES
    ensures var cell := cells[80 * row + col];
      var f := font[if cell.character == 0 then 0x20 else cell.character as nat][dy];
      var fg, bg := TestBit(cell.color, plane), TestBit(cell.color, plane + 4);
      PlaneByte(vga, plane, (row * 16 + dy) * 80 + col) ==
      if row == cursorRow && col == cursorCol && dy >= 14 then
        (if fg != (cell.color & 0x0F == cell.color >> 4) then 0xFF else 0)
      else if fg && bg then 0xFF else if fg then f else if bg then !f else 0
  {
    Places(row, col, dy);
    MemoryIsFont(font, cells, fb, vga, row == cursorRow && col == cursorCol, row, col, dy, plane,
                 cells[CellIndex(row, col)], PlaneByte(vga, plane, RowOffset(row, col, dy)), cursorRow, cursorCol);
  }

  lemma MemoryIsFont(font: Font, cells: seq<Cell>, fb: seq<byte>, vga: seq<byte>, cursor: bool, row: nat, col: nat,
                     dy: nat, plane: nat, cell: Cell, b: byte, cursorRow: nat, cursorCol: nat)
    requires |cells| == CELLS && |fb| == FRAME_BYTES && |vga| == 4 * PLANE_BYTES
    requires Shown(font, cells, fb, cursorRow, cursorCol) && Packed(fb, vga)
    requires OnScreen(row, col) && dy < 16 && plane < 4 && cursor == (row == cursorRow && col == cursorCol)
    requires cell == cells[CellIndex(row, col)] && b == PlaneByte(vga, plane, RowOffset(row, col, dy))
    ensures var f := font[if cell.character == 0 then 0x20 else cell.character as nat][dy];
      var fg, bg := TestBit(cell.color, plane), TestBit(cell.color, plane + 4);
      b == if cursor && dy >= 14 then (if fg != (cell.color & 0x0F == cell.color >> 4) then 0xFF else 0)
           else if fg && bg then 0xFF else if fg then f else if bg then !f else 0
  {
    RowInMemory(font, cells, fb, vga, cursorRow, cursorCol, row, col, dy, plane);
    RowIsFont(font, cell, fb, b, row, col, dy, plane, cursor);
  }

  lemma Places(row: nat, col: nat, dy: nat)
    requires row < 30 && col < 80 && dy < 16
    ensures OnScreen(row, col) && CellIndex(row, col) == 80 * row + col
    ensures RowOffset(row, col, dy) == (row * 16 + dy) * 80 + col
  {
  }

  lemma RowInMemory(font: Font, cells: seq<Cell>, fb: seq<byte>, vga: seq<byte>, cursorRow: nat, cursorCol: nat,
                    row: nat, col: nat, dy: nat, plane: nat)
    requires |cells| == CELLS && |fb| == FRAME_BYTES && |vga| == 4 * PLANE_BYTES
    requires Shown(font, cells, fb, cursorRow, cursorCol) && Packed(fb, vga)
    requires OnScreen(row, col) && dy < CELL_HEIGHT && plane < 4
    ensures CellShown(font, cells[CellIndex(row, col)], fb, row, col, row == cursorRow && col == cursorCol)
    ensures Packs(PlaneByte(vga, plane, RowOffset(row, col, dy)), plane, RowDots(fb, row, col, dy))
  {
    assert CellPacked(fb, vga, row, col) && RowPacked(fb, vga, row, col, dy);
  }

  lemma RowIsFont(font: Font, cell: Cell, fb: seq<byte>, b: byte, row: nat, col: nat, dy: nat, plane: nat, cursor: bool)
    requires |fb| == FRAME_BYTES && OnScreen(row, col) && dy < 16 && plane < 4
    requires CellShown(font, cell, fb, row, col, cursor) && Packs(b, plane, RowDots(fb, row, col, dy))
    ensures var f := font[if cell.character == 0 then 0x20 else cell.character as nat][dy];
      var fg, bg := TestBit(cell.color, plane), TestBit(cell.color, plane + 4);
      b == if cursor && dy >= 14 then (if fg != (cell.color & 0x0F == cell.color >> 4) then 0xFF else 0)
           else if fg && bg then 0xFF else if fg then f else if bg then !f else 0
  {
    var dots := RowDots(fb, row, col, dy);
    forall dx | 0 <= dx < CELL_WIDTH ensures dots[dx] == CellPixel(font, cell, cursor, dx, dy) {
      assert Dot(fb, row, col, dy, dx) == CellPixel(font, cell, cursor, dx, dy);
    }
    if cursor && dy >= 14 {
      CursorBits(cell, plane);
      OneColor(b, plane, dots, CursorColor(cell));
    } else {
      PlaneByteIsFontByte(font, cell, dy, plane, dots, b);
    }
  }

  /** Eight pixels of one colour are all ones or all zeros in each plane. */
  lemma OneColor(b: byte, plane: nat, pixel: seq<byte>, color: byte)
    requires plane < 4 && |pixel| == CELL_WIDTH && Packs(b, plane, pixel)
    requires forall dx :: 0 <= dx < CELL_WIDTH ==> pixel[dx] == color
    ensures b == if TestBit(color, plane) then 0xFF else 0
  {
    var e: byte := if TestBit(color, plane) then 0xFF else 0;
    forall k | 0 <= k < 8 ensures TestBit(b, k) == TestBit(e, k) {
      assert pixel[k] == color;
      Constants(0, k);
    }
    ByteExtensional(b, e);
  }
}

/** Off-screen surfaces: scrolling a region in place, resizing, and flushing to the terminal. */
module TermSurface {
  import opened Bytes
  import opened TtyPixels
  import opened TtyFrames
  import opened TtyScreen

  type Rows = seq<seq<Cell>>

  function BlankRow(cols: nat, cell: Cell): seq<Cell> {
    seq(cols, _ => cell)
  }

  /** Rows top..bottom move by `delta`; rows that nothing moves to are blank. */
  function Scrolled(rows: Rows, top: nat, bottom: nat, delta: int, blank: seq<Cell>): (r: Rows)
    requires bottom < |rows|
    ensures |r| == |rows|
  {
    seq(|rows|, i requires 0 <= i < |rows| =>
      if !(top <= i <= bottom) then rows[i]
      else if top <= i + delta <= bottom then rows[i + delta]
      else blank)
  }

  /** Scrolling by a and then by b in the same direction is scrolling by a + b. */
  lemma ScrollComposes(rows: Rows, top: nat, bottom: nat, a: int, b: int, blank: seq<Cell>)
    requires bottom < |rows| && ((a >= 0 && b >= 0) || (a <= 0 && b <= 0))
    ensures Scrolled(Scrolled(rows, top, bottom, a, blank), top, bottom, b, blank) == Scrolled(rows, top, bottom, a + b, blank)
  {
  }

  /** In opposite directions it is not: what left the region is lost. */
  lemma ScrollBackLoses(rows: Rows, top: nat, bottom: nat, blank: seq<Cell>)
    requires top <= bottom < |rows|
    ensures Scrolled(Scrolled(rows, top, bottom, 1, blank), top, bottom, -1, blank) == rows[top := blank]
  {
  }

  /** A positive distance moves the rows of the region up, a negative one down; as many blank ones follow or
      come before. */
  lemma ScrolledRows(rows: Rows, top: nat, bottom: nat, n: nat, blank: seq<Cell>)
    requires top <= bottom < |rows| && n <= bottom + 1 - top
    ensures Scrolled(rows, top, bottom, n, blank) ==
            rows[..top] + rows[top + n..bottom + 1] + seq(n, _ => blank) + rows[bottom + 1..]
    ensures Scrolled(rows, top, bottom, 0 - n, blank) ==
            rows[..top] + seq(n, _ => blank) + rows[top..bottom + 1 - n] + rows[bottom + 1..]
  {
  }

  lemma ScrollByNothing(rows: Rows, top: nat, bottom: nat, blank: seq<Cell>)
    requires bottom < |rows|
    ensures Scrolled(rows, top, bottom, 0, blank) == rows
  {
  }

  // Cells in one array --------------------------------------------------------------------------

  lemma IndexInRange(rows: nat, cols: nat, r: nat, c: nat)
    requires r < rows && c < cols
    ensures 0 <= r * cols + c < rows * cols
  {
    StepsApart(cols, r, rows);
  }

  function CellAt(cells: seq<Cell>, rows: nat, cols: nat, r: nat, c: nat): Cell
    requires |cells| == rows * cols && r < rows && c < cols
  {
    IndexInRange(rows, cols, r, c);
    cells[r * cols + c]
  }

  /** The rows that a flat array of cells stands for. */
  function RowsOf(cells: seq<Cell>, rows: nat, cols: nat): (s: Rows)
    requires |cells| == rows * cols
    ensures |s| == rows && forall r :: 0 <= r < rows ==> |s[r]| == cols
  {
    seq(rows, r requires 0 <= r < rows => seq(cols, c requires 0 <= c < cols => CellAt(cells, rows, cols, r, c)))
  }

  /** Only one row's cells differ, and they are those of `row`. */
  ghost predicate RowStored(before: seq<Cell>, after: seq<Cell>, start: nat, row: seq<Cell>) {
    && |before| == |after| && start + |row| <= |after|
    && (forall i :: 0 <= i < |before| && !(start <= i < start + |row|) ==> after[i] == before[i])
    && (forall i :: start <= i < start + |row| ==> after[i] == row[i - start])
  }

  lemma OtherRow(before: seq<Cell>, after: seq<Cell>, rows: nat, cols: nat, dst: nat, row: seq<Cell>, r: nat, c: nat)
    requires |before| == |after| == rows * cols && dst < rows && |row| == cols && r < rows && c < cols
    requires RowStored(before, after, dst * cols, row)
    ensures CellAt(after, rows, cols, r, c) == if r == dst then row[c] else CellAt(before, rows, cols, r, c)
  {
    IndexInRange(rows, cols, r, c);
    if r < dst {
      StepsApart(cols, r, dst);
    } else if dst < r {
      StepsApart(cols, dst, r);
    }
  }

  lemma RowReplaced(before: seq<Cell>, after: seq<Cell>, rows: nat, cols: nat, dst: nat, row: seq<Cell>)
    requires |before| == |after| == rows * cols && dst < rows && |row| == cols
    requires RowStored(before, after, dst * cols, row)
    ensures RowsOf(after, rows, cols) == RowsOf(before, rows, cols)[dst := row]
  {
    var s, t := RowsOf(after, rows, cols), RowsOf(before, rows, cols)[dst := row];
    forall r | 0 <= r < rows ensures s[r] == t[r] {
      forall c | 0 <= c < cols ensures s[r][c] == t[r][c] {
        OtherRow(before, after, rows, cols, dst, row, r, c);
      }
    }
  }

  /** A row of the array, found through its start. */
  lemma RowAt(cells: seq<Cell>, rows: nat, cols: nat, r: nat)
    requires |cells| == rows * cols && r < rows
    ensures 0 <= r * cols && r * cols + cols <= |cells| && RowsOf(cells, rows, cols)[r] == cells[r * cols..r * cols + cols]
  {
    StepsApart(cols, r, rows);
    if r + 1 == rows {
      assert r * cols + cols == rows * cols;
    }
    forall c | 0 <= c < cols ensures RowsOf(cells, rows, cols)[r][c] == cells[r * cols..r * cols + cols][c] {
      IndexInRange(rows, cols, r, c);
    }
  }

  class Surface {
    var rows: nat
    var cols: nat
    var cursorRow: nat
    var cursorCol: nat
    var defaultColor: byte
    var cells: array<Cell>

    ghost predicate Valid()
      reads this
    {
      rows > 0 && cols > 0 && cells.Length == rows * cols && cursorRow < rows && cursorCol < cols
    }

    ghost function Contents(): (s: Rows)
      requires Valid()
      reads this, cells
      ensures |s| == rows
    {
      RowsOf(cells[..], rows, cols)
    }

    /** memcpy of one row over another */
    method CopyRow(dst: nat, src: nat)
      requires Valid() && dst < rows && src < rows
      modifies cells
      ensures Contents() == old(Contents())[dst := old(Contents())[src]]
    {
      RowAt(cells[..], rows, cols, dst);
      RowAt(cells[..], rows, cols, src);
      if dst != src {
        ApartRows(rows, cols, dst, src);
        ghost var before := cells[..];
        CopyCells(dst * cols, src * cols, cols);
        RowReplaced(before, cells[..], rows, cols, dst, RowsOf(before, rows, cols)[src]);
      }
    }

    method CopyCells(to: nat, from: nat, n: nat)
      requires to + n <= cells.Length && from + n <= cells.Length && (to + n <= from || from + n <= to)
      modifies cells
      ensures RowStored(old(cells[..]), cells[..], to, old(cells[..])[from..from + n])
    {
      var c := 0;
      while c < n
        invariant 0 <= c <= n
        invariant forall i :: 0 <= i < cells.Length && !(to <= i < to + c) ==> cells[i] == old(cells[i])
        invariant forall i :: to <= i < to + c ==> cells[i] == old(cells[..])[from + (i - to)]
      {
        cells[to + c] := cells[from + c];
        c := c + 1;
      }
    }

    method FillRow(r: nat, cell: Cell)
      requires Valid() && r < rows
      modifies cells
      ensures Contents() == old(Contents())[r := BlankRow(cols, cell)]
    {
      RowAt(cells[..], rows, cols, r);
      ghost var before := cells[..];
      FillCells(r * cols, cols, cell);
      RowReplaced(before, cells[..], rows, cols, r, BlankRow(cols, cell));
    }

    method FillCells(from: nat, n: nat, cell: Cell)
      requires from + n <= cells.Length
      modifies cells
      ensures RowStored(old(cells[..]), cells[..], from, BlankRow(n, cell))
    {
      var c := 0;
      while c < n
        invariant 0 <= c <= n
        invariant forall i :: 0 <= i < cells.Length && !(from <= i < from + c) ==> cells[i] == old(cells[i])
        invariant forall i :: from <= i < from + c ==> cells[i] == cell
      {
        cells[from + c] := cell;
        c := c + 1;
      }
    }

    method FillRows(from: nat, to: nat, cell: Cell)
      requires Valid() && from <= to <= rows
      modifies cells
      ensures Contents() == Filled(old(Contents()), from, to, BlankRow(cols, cell))
    {
      var r := from;
      while r < to
        invariant from <= r <= to && Valid()
        invariant Contents() == Filled(old(Contents()), from, r, BlankRow(cols, cell))
      {
        FillRow(r, cell);
        r := r + 1;
      }
    }

    /** term_surface_scroll_region: the region's rows move, also where source and destination
        overlap; the rows outside it stay. */
    method ScrollRegion(top: nat, bottom: nat, delta: int, fill: byte)
      requires Valid()
      modifies cells
      ensures Valid()
      ensures var last := if bottom >= rows then rows - 1 else bottom;
        Contents() == if top < last then Scrolled(old(Contents()), top, last, delta, BlankRow(cols, Cell(fill, defaultColor)))
                      else old(Contents())
    {
      if top >= rows {
        return;
      }
      var last := if bottom >= rows then rows - 1 else bottom;
      if last <= top {
        return;
      }
      var height := last - top + 1;
      var blank := Cell(fill, defaultColor);
      if delta > 0 {
        if delta >= height {
          ScrolledAway(Contents(), top, last, delta, BlankRow(cols, blank));
          FillRows(top, last + 1, blank);
          return;
        }
        ShiftUp(top, last, delta, blank);
      } else if delta < 0 {
        if -delta >= height {
          ScrolledAway(Contents(), top, last, delta, BlankRow(cols, blank));
          FillRows(top, last + 1, blank);
          return;
        }
        ShiftDown(top, last, -delta, blank);
      } else {
        ScrollByNothing(Contents(), top, last, BlankRow(cols, blank));
      }
    }

    method ShiftUp(top: nat, last: nat, shift: nat, blank: Cell)
      requires Valid() && top <= last < rows && 0 < shift <= last - top
      modifies cells
      ensures Contents() == Scrolled(old(Contents()), top, last, shift, BlankRow(cols, blank))
    {
      MovedUp(Contents(), top, last, shift, BlankRow(cols, blank));
      MoveUp(top, last, shift);
      FillRows(last + 1 - shift, last + 1, blank);
    }

    method MoveUp(top: nat, last: nat, shift: nat)
      requires Valid() && top <= last < rows && 0 < shift <= last - top
      modifies cells
      ensures Contents() == Raised(old(Contents()), top, last + 1 - shift, shift)
    {
      ghost var before := Contents();
      var r := top;
      while r + shift <= last
        invariant top <= r <= last + 1 - shift
        invariant Contents() == Raised(before, top, r, shift)
      {
        StepUp(r, r + shift, top, shift, before);
        r := r + 1;
      }
    }

    method StepUp(r: nat, src: nat, ghost top: nat, ghost shift: nat, ghost before: Rows)
      requires Valid() && src == r + shift && top <= r && src < rows == |before|
      requires Contents() == Raised(before, top, r, shift)
      modifies cells
      ensures Contents() == Raised(before, top, r + 1, shift)
    {
      MoveOneUp(before, top, r, shift);
      CopyRow(r, src);
    }

    method ShiftDown(top: nat, last: nat, shift: nat, blank: Cell)
      requires Valid() && top <= last < rows && 0 < shift <= last - top
      modifies cells
      ensures Contents() == Scrolled(old(Contents()), top, last, 0 - shift as int, BlankRow(cols, blank))
    {
      MovedDown(Contents(), top, last, shift, BlankRow(cols, blank));
      MoveDown(top, last, shift);
      FillRows(top, top + shift, blank);
    }

    method MoveDown(top: nat, last: nat, shift: nat)
      requires Valid() && top <= last < rows && 0 < shift <= last - top
      modifies cells
      ensures Contents() == Lowered(old(Contents()), top + shift, last + 1, shift)
    {
      ghost var before := Contents();
      var r := last + 1;
      while r > top + shift
        invariant top + shift <= r <= last + 1
        invariant Contents() == Lowered(before, r, last + 1, shift)
      {
        r := r - 1;
        StepDown(r, r - shift, last + 1, shift, before);
      }
    }

    method StepDown(r: nat, src: nat, ghost to: nat, ghost shift: nat, ghost before: Rows)
      requires Valid() && r == src + shift && r < to <= rows == |before| && shift > 0
      requires Contents() == Lowered(before, r + 1, to, shift)
      modifies cells
      ensures Contents() == Lowered(before, r, to, shift)
    {
      MoveOneDown(before, r, to, shift, src);
      CopyRow(r, src);
    }

    /** The copying loop of term_surface_resize. */
    method CopyOverlap(bigger: array<Cell>, newRows: nat, newCols: nat)
      requires Valid() && bigger != cells && bigger.Length == newRows * newCols
      requires forall i :: 0 <= i < bigger.Length ==> bigger[i] == Cell(0, 0)
      modifies bigger
      ensures RowsOf(bigger[..], newRows, newCols) == Fitted(Contents(), cols, newRows, newCols)
    {
      var minRows := if newRows < rows then newRows else rows;
      var minCols := if newCols < cols then newCols else cols;
      ghost var s, cs := Contents(), cells[..];
      var r := 0;
      FittedNothing(bigger[..], cells[..], rows, cols, newRows, newCols);
      while r < minRows
        invariant 0 <= r <= minRows && cells[..] == cs
        invariant RowsOf(bigger[..], newRows, newCols) == FittedFirst(s, cols, newRows, newCols, r)
      {
        ghost var before := bigger[..];
        RowAt(before, newRows, newCols, r);
        RowAt(cs, rows, cols, r);
        var to: nat, from: nat := r * newCols, r * cols;
        CopyInto(bigger, to, cells, from, minCols);
        OverlapRow(before, bigger[..], cs, rows, cols, newRows, newCols, r, minCols);
        r := r + 1;
      }
      FittedAll(s, cols, newRows, newCols);
    }

    /** term_surface_resize, with the outcome of the allocation as a parameter: the overlap is
        kept, new cells are zero, and the cursor is moved inside. A granted allocation is of as many
        cells as the surface has only if their number fits 32 bits (ResizeWraps). */
    method Resize(newRows: nat, newCols: nat, granted: bool) returns (ok: bool)
      requires Valid() && (granted ==> newRows * newCols < WORD_RANGE)
      modifies this
      ensures Valid() && ok == (newRows > 0 && newCols > 0 && granted)
      ensures !ok ==> Contents() == old(Contents()) && cursorRow == old(cursorRow) && cursorCol == old(cursorCol)
      ensures ok ==>
                && fresh(cells) && rows == newRows && cols == newCols
                && Contents() == Fitted(old(Contents()), old(cols), newRows, newCols)
                && cursorRow == (if old(cursorRow) >= newRows then newRows - 1 else old(cursorRow))
                && cursorCol == (if old(cursorCol) >= newCols then newCols - 1 else old(cursorCol))
    {
      if newRows == 0 || newCols == 0 || !granted {
        return false;
      }
      var bigger := new Cell[newRows * newCols](_ => Cell(0, 0));
      CopyOverlap(bigger, newRows, newCols);
      cells := bigger;
      rows := newRows;
      cols := newCols;
      if cursorRow >= rows {
        cursorRow := rows - 1;
      }
      if cursorCol >= cols {
        cursorCol := cols - 1;
      }
      return true;
    }

    // Flushing -----------------------------------------------------------------------------------

    /** The surface's cells are none of the terminal's memories. */
    ghost predicate Separate(tty: Tty)
      reads this
    {
      cells != tty.cells && (cells as object) != tty.framebuffer && (cells as object) != tty.vga
    }

    /** term_surface_flush_region: inside the rectangle the terminal shows the surface, outside
        it nothing changes, though only cells that differ are written. */
    method FlushRegion(tty: Tty, row: nat, col: nat, height: nat, width: nat)
      requires Valid() && tty.Valid() && Separate(tty)
      modifies tty.cells, tty.framebuffer, tty.vga, tty`mapMask, tty`overlayRow, tty`overlayCol
      ensures tty.Valid()
      ensures tty.State() == old(tty.State()).(cells := tty.State().cells)
      ensures Flushed(old(tty.State()).cells, tty.State().cells, old(Contents()), cols, row, col,
                      Limit(row, height, rows), Limit(col, width, cols))
    {
      var maxRow := (row + height) % WORD_RANGE;
      var maxCol := (col + width) % WORD_RANGE;
      if maxRow > rows {
        maxRow := rows;
      }
      if maxCol > cols {
        maxCol := cols;
      }
      ghost var before, cs := tty.State(), cells[..];
      ghost var s := RowsOf(cs, rows, cols);
      var r := row;
      while r < maxRow
        invariant tty.Valid() && tty.State() == before.(cells := tty.State().cells)
        invariant row <= r && (r <= maxRow || r == row)
        invariant forall i :: 0 <= i < |cs| ==> cells[i] == cs[i]
        invariant FlushedUpTo(before.cells, tty.State().cells, s, cols, row, col, maxRow, maxCol, r, 0)
      {
        FlushRow(tty, r, row, col, maxRow, maxCol, before, s, cs);
        r := r + 1;
      }
      AllFlushed(before.cells, tty.State().cells, s, cols, row, col, maxRow, maxCol, r);
    }

    method FlushRow(tty: Tty, r: nat, ghost row: nat, col: nat, ghost maxRow: nat, maxCol: nat, ghost before: Screen,
                    ghost s: Rows, ghost cs: seq<Cell>)
      requires Valid() && tty.Valid() && Separate(tty) && row <= r < maxRow <= rows && maxCol <= cols
      requires |cs| == rows * cols && s == RowsOf(cs, rows, cols) && forall i :: 0 <= i < |cs| ==> cells[i] == cs[i]
      requires |before.cells| == CELLS && tty.State() == before.(cells := tty.State().cells)
      requires FlushedUpTo(before.cells, tty.State().cells, s, cols, row, col, maxRow, maxCol, r, 0)
      modifies tty.cells, tty.framebuffer, tty.vga, tty`mapMask, tty`overlayRow, tty`overlayCol
      ensures tty.Valid() && tty.State() == before.(cells := tty.State().cells)
      ensures FlushedUpTo(before.cells, tty.State().cells, s, cols, row, col, maxRow, maxCol, r + 1, 0)
    {
      var c := col;
      NoColumnsYet(before.cells, tty.State().cells, s, cols, row, col, maxRow, maxCol, r);
      while c < maxCol
        invariant tty.Valid() && tty.State() == before.(cells := tty.State().cells)
        invariant col <= c && (c <= maxCol || c == col)
        invariant FlushedUpTo(before.cells, tty.State().cells, s, cols, row, col, maxRow, maxCol, r, c)
      {
        ghost var mid := tty.State().cells;
        IndexInRange(rows, cols, r, c);
        assert s[r][c] == CellAt(cs, rows, cols, r, c);
        ShowCell(tty, r, c, cells[r * cols + c]);
        FlushedStep(before.cells, mid, tty.State().cells, s, cols, row, col, maxRow, maxCol, r, c);
        c := c + 1;
      }
      RowFlushed(before.cells, tty.State().cells, s, cols, row, col, maxRow, maxCol, r, c);
    }

    /** term_surface_flush */
    method Flush(tty: Tty)
      requires Valid() && tty.Valid() && Separate(tty) && rows < WORD_RANGE && cols < WORD_RANGE
      modifies tty, tty.cells, tty.framebuffer, tty.vga
      ensures tty.Valid() && tty.color == old(tty.color)
      ensures Flushed(old(tty.State()).cells, tty.State().cells, old(Contents()), cols, 0, 0, rows, cols)
      ensures tty.cursorRow == (if cursorRow >= TTY_ROWS then TTY_ROWS - 1 else cursorRow)
      ensures tty.cursorCol == (if cursorCol >= TTY_COLS then TTY_COLS - 1 else cursorCol)
    {
      FlushRegion(tty, 0, 0, rows, cols);
      tty.SetCursorPosition(cursorRow, cursorCol);
    }
  }

  /** One cell of term_surface_flush_region: it is written only if the terminal differs. */
  method ShowCell(tty: Tty, r: nat, c: nat, cell: Cell)
    requires tty.Valid()
    modifies tty.cells, tty.framebuffer, tty.vga, tty`mapMask, tty`overlayRow, tty`overlayCol
    ensures tty.Valid()
    ensures tty.State() == if OnScreen(r, c) then Stamped(old(tty.State()), r, c, cell) else old(tty.State())
  {
    var current := tty.GetCell(r, c);
    if current != cell {
      tty.WriteCell(r, c, cell.character, cell.color);
    } else if OnScreen(r, c) {
      assert Stamped(tty.State(), r, c, cell).cells == tty.State().cells;
    }
  }

  /** The end of a rectangle's side, in 32-bit arithmetic and clamped to the surface. */
  function Limit(from: nat, length: nat, size: nat): nat {
    if (from + length) % WORD_RANGE > size then size else (from + length) % WORD_RANGE
  }

  predicate InRectangle(r: nat, c: nat, row: nat, col: nat, maxRow: nat, maxCol: nat) {
    row <= r < maxRow && col <= c < maxCol
  }

  predicate Shaped(s: Rows, cols: nat) {
    forall r :: 0 <= r < |s| ==> |s[r]| == cols
  }

  /** The rectangle's cells before (r0, c0), in reading order, are those of the surface; all
      other cells are as before. */
  ghost predicate FlushedUpTo(before: seq<Cell>, after: seq<Cell>, s: Rows, cols: nat, row: nat, col: nat,
                              maxRow: nat, maxCol: nat, r0: nat, c0: nat)
  {
    && |before| == |after| == CELLS && Shaped(s, cols) && maxRow <= |s| && maxCol <= cols
    && (forall r: nat, c: nat {:trigger OnScreen(r, c)} :: OnScreen(r, c) ==>
          after[CellIndex(r, c)] ==
            if InRectangle(r, c, row, col, maxRow, maxCol) && Before(r, c, r0, c0) then s[r][c] else before[CellIndex(r, c)])
  }

  ghost predicate Flushed(before: seq<Cell>, after: seq<Cell>, s: Rows, cols: nat, row: nat, col: nat, maxRow: nat, maxCol: nat) {
    && |before| == |after| == CELLS && Shaped(s, cols) && maxRow <= |s| && maxCol <= cols
    && (forall r: nat, c: nat {:trigger OnScreen(r, c)} :: OnScreen(r, c) ==>
          after[CellIndex(r, c)] == if InRectangle(r, c, row, col, maxRow, maxCol) then s[r][c] else before[CellIndex(r, c)])
  }

  lemma AllFlushed(before: seq<Cell>, after: seq<Cell>, s: Rows, cols: nat, row: nat, col: nat, maxRow: nat, maxCol: nat, r0: nat)
    requires FlushedUpTo(before, after, s, cols, row, col, maxRow, maxCol, r0, 0) && r0 >= maxRow
    ensures Flushed(before, after, s, cols, row, col, maxRow, maxCol)
  {
  }

  lemma FlushedStep(before: seq<Cell>, mid: seq<Cell>, after: seq<Cell>, s: Rows, cols: nat, row: nat, col: nat,
                    maxRow: nat, maxCol: nat, r0: nat, c0: nat)
    requires FlushedUpTo(before, mid, s, cols, row, col, maxRow, maxCol, r0, c0)
    requires InRectangle(r0, c0, row, col, maxRow, maxCol)
    requires after == if OnScreen(r0, c0) then mid[CellIndex(r0, c0) := s[r0][c0]] else mid
    ensures FlushedUpTo(before, after, s, cols, row, col, maxRow, maxCol, r0, c0 + 1)
  {
    forall r: nat, c: nat | OnScreen(r, c)
      ensures after[CellIndex(r, c)] ==
              if InRectangle(r, c, row, col, maxRow, maxCol) && Before(r, c, r0, c0 + 1) then s[r][c] else before[CellIndex(r, c)]
    {
      if OnScreen(r0, c0) {
        CellIndexInjective(r, c, r0, c0);
      }
    }
  }

  lemma NoColumnsYet(before: seq<Cell>, after: seq<Cell>, s: Rows, cols: nat, row: nat, col: nat,
                     maxRow: nat, maxCol: nat, r0: nat)
    requires FlushedUpTo(before, after, s, cols, row, col, maxRow, maxCol, r0, 0)
    ensures FlushedUpTo(before, after, s, cols, row, col, maxRow, maxCol, r0, col)
  {
  }

  lemma RowFlushed(before: seq<Cell>, after: seq<Cell>, s: Rows, cols: nat, row: nat, col: nat,
                   maxRow: nat, maxCol: nat, r0: nat, c0: nat)
    requires FlushedUpTo(before, after, s, cols, row, col, maxRow, maxCol, r0, c0) && c0 >= maxCol
    ensures FlushedUpTo(before, after, s, cols, row, col, maxRow, maxCol, r0 + 1, 0)
  {
  }

  /** The rows cut or padded to a new size. */
  function Fitted(s: Rows, oldCols: nat, rows: nat, cols: nat): Rows
    requires forall r :: 0 <= r < |s| ==> |s[r]| == oldCols
  {
    FittedFirst(s, oldCols, rows, cols, |s|)
  }

  /** The same with only the first `n` rows copied. */
  function FittedFirst(s: Rows, oldCols: nat, rows: nat, cols: nat, n: nat): (t: Rows)
    requires n <= |s| && forall r :: 0 <= r < |s| ==> |s[r]| == oldCols
    ensures |t| == rows
  {
    seq(rows, r requires 0 <= r < rows => seq(cols, c requires 0 <= c < cols =>
      if r < n && c < oldCols then s[r][c] else Cell(0, 0)))
  }

  lemma FittedNothing(bigger: seq<Cell>, cells: seq<Cell>, rows: nat, cols: nat, newRows: nat, newCols: nat)
    requires |bigger| == newRows * newCols && |cells| == rows * cols
    requires forall i :: 0 <= i < |bigger| ==> bigger[i] == Cell(0, 0)
    ensures RowsOf(bigger, newRows, newCols) == FittedFirst(RowsOf(cells, rows, cols), cols, newRows, newCols, 0)
  {
    var s, t := RowsOf(bigger, newRows, newCols), FittedFirst(RowsOf(cells, rows, cols), cols, newRows, newCols, 0);
    forall r | 0 <= r < newRows ensures s[r] == t[r] {
      forall c | 0 <= c < newCols ensures s[r][c] == t[r][c] {
        IndexInRange(newRows, newCols, r, c);
      }
    }
  }

  lemma FittedRow(before: seq<Cell>, after: seq<Cell>, cells: seq<Cell>, rows: nat, cols: nat, newRows: nat, newCols: nat,
                  r: nat, row: seq<Cell>)
    requires |before| == |after| == newRows * newCols && |cells| == rows * cols && r < rows && r < newRows && |row| == newCols
    requires RowsOf(before, newRows, newCols) == FittedFirst(RowsOf(cells, rows, cols), cols, newRows, newCols, r)
    requires RowStored(before, after, r * newCols, row)
    requires forall c :: 0 <= c < newCols ==>
               row[c] == if c < cols then RowsOf(cells, rows, cols)[r][c] else RowsOf(before, newRows, newCols)[r][c]
    ensures RowsOf(after, newRows, newCols) == FittedFirst(RowsOf(cells, rows, cols), cols, newRows, newCols, r + 1)
  {
    RowReplaced(before, after, newRows, newCols, r, row);
    var s, t := RowsOf(before, newRows, newCols)[r := row], FittedFirst(RowsOf(cells, rows, cols), cols, newRows, newCols, r + 1);
    forall k | 0 <= k < newRows ensures s[k] == t[k] {
    }
  }

  lemma OverlapRow(before: seq<Cell>, after: seq<Cell>, cells: seq<Cell>, rows: nat, cols: nat, newRows: nat, newCols: nat,
                   r: nat, minCols: nat)
    requires |before| == |after| == newRows * newCols && |cells| == rows * cols && r < rows && r < newRows
    requires minCols == (if newCols < cols then newCols else cols)
    requires RowsOf(before, newRows, newCols) == FittedFirst(RowsOf(cells, rows, cols), cols, newRows, newCols, r)
    requires r * cols + cols <= |cells| && r * newCols + newCols <= |before|
    requires RowStored(before, after, r * newCols, cells[r * cols..r * cols + minCols])
    ensures RowsOf(after, newRows, newCols) == FittedFirst(RowsOf(cells, rows, cols), cols, newRows, newCols, r + 1)
  {
    RowAt(before, newRows, newCols, r);
    RowAt(cells, rows, cols, r);
    var row := cells[r * cols..r * cols + minCols] + before[r * newCols + minCols..r * newCols + newCols];
    StoredPrefix(before, after, r * newCols, cells[r * cols..r * cols + minCols], newCols, row);
    FittedRow(before, after, cells, rows, cols, newRows, newCols, r, row);
  }

  lemma StoredPrefix(before: seq<Cell>, after: seq<Cell>, start: nat, part: seq<Cell>, n: nat, row: seq<Cell>)
    requires RowStored(before, after, start, part) && |part| <= n && start + n <= |before|
    requires row == part + before[start + |part|..start + n]
    ensures RowStored(before, after, start, row)
  {
  }

  lemma FittedAll(s: Rows, oldCols: nat, rows: nat, cols: nat)
    requires forall r :: 0 <= r < |s| ==> |s[r]| == oldCols
    ensures FittedFirst(s, oldCols, rows, cols, if rows < |s| then rows else |s|) == Fitted(s, oldCols, rows, cols)
  {
  }

  /** Growing and shrinking back restores the contents. */
  lemma GrowAndShrink(s: Rows, oldCols: nat, rows: nat, cols: nat)
    requires forall r :: 0 <= r < |s| ==> |s[r]| == oldCols
    requires rows >= |s| && cols >= oldCols
    ensures (forall r :: 0 <= r < rows ==> |Fitted(s, oldCols, rows, cols)[r]| == cols)
            && Fitted(Fitted(s, oldCols, rows, cols), cols, |s|, oldCols) == s
  {
    var t := Fitted(s, oldCols, rows, cols);
    var u := Fitted(t, cols, |s|, oldCols);
    forall r | 0 <= r < |s| ensures u[r] == s[r] {
    }
  }

  /** A resized surface has the old cells where both have some, and zeros elsewhere. */
  lemma FittedCells(s: Rows, oldCols: nat, rows: nat, cols: nat, r: nat)
    requires (forall i :: 0 <= i < |s| ==> |s[i]| == oldCols) && r < rows
    ensures var t := Fitted(s, oldCols, rows, cols);
      var both := if cols < oldCols then cols else oldCols;
      |t| == rows && t[r] == if r < |s| then s[r][..both] + seq(cols - both, _ => Cell(0, 0)) else seq(cols, _ => Cell(0, 0))
  {
  }

  /** What flushing a region shows, cell by cell: those of the rectangle that the surface has, and what was there
      before everywhere else. */
  lemma RegionFlushed(before: seq<Cell>, after: seq<Cell>, s: Rows, cols: nat, row: nat, col: nat, height: nat, width: nat,
                      r: nat, c: nat)
    requires row + height < WORD_RANGE && col + width < WORD_RANGE && r < 30 && c < 80
    requires Flushed(before, after, s, cols, row, col, Limit(row, height, |s|), Limit(col, width, cols))
    ensures |before| == |after| == 2400 && (forall i :: 0 <= i < |s| ==> |s[i]| == cols)
    ensures after[80 * r + c] ==
            if row <= r < row + height && col <= c < col + width && r < |s| && c < cols then s[r][c] else before[80 * r + c]
  {
    assert OnScreen(r, c) && CellIndex(r, c) == 80 * r + c;
  }

  /** The indices that the copy loop of term_surface_resize writes. */
  predicate Copied(oldRows: nat, oldCols: nat, rows: nat, cols: nat, k: nat) {
    exists r, c {:trigger CellOf(r, c, cols)} ::
      0 <= r < rows && r < oldRows && 0 <= c < cols && c < oldCols && CellOf(r, c, cols) == k
  }

  function CellOf(r: nat, c: nat, cols: nat): nat {
    r * cols + c
  }

  /** One behind the last of them. */
  function CopyEnd(oldRows: nat, oldCols: nat, rows: nat, cols: nat): nat {
    var minRows, minCols := if rows < oldRows then rows else oldRows, if cols < oldCols then cols else oldCols;
    if minRows == 0 || minCols == 0 then 0 else CellOf(minRows - 1, minCols - 1, cols) + 1
  }

  /** The copy stays inside `granted` cells if and only if its last index does. */
  lemma CopyStaysInside(oldRows: nat, oldCols: nat, rows: nat, cols: nat, granted: nat)
    ensures (forall k: nat :: Copied(oldRows, oldCols, rows, cols, k) ==> k < granted) <==>
            CopyEnd(oldRows, oldCols, rows, cols) <= granted
  {
    var minRows, minCols := if rows < oldRows then rows else oldRows, if cols < oldCols then cols else oldCols;
    if minRows > 0 && minCols > 0 {
      var last := CellOf(minRows - 1, minCols - 1, cols);
      assert Copied(oldRows, oldCols, rows, cols, last);
      forall k: nat | Copied(oldRows, oldCols, rows, cols, k) ensures k <= last {
        var r, c :| 0 <= r < rows && r < oldRows && 0 <= c < cols && c < oldCols && CellOf(r, c, cols) == k;
        RowsBelow(r, minRows - 1, cols);
      }
    }
  }

  lemma RowsBelow(r: nat, s: nat, cols: nat)
    requires r <= s
    ensures r * cols <= s * cols
  {
    assert (s - r) * cols >= 0;
  }

  /** The cells asked for are rows * cols modulo 2^32: they hold what is copied whenever the product fits 32
      bits, and a surface of two by two that is resized to 2^31 + 1 by two is granted two cells and
      copied to the indices up to 3. */
  lemma ResizeWraps(oldRows: nat, oldCols: nat, rows: nat, cols: nat)
    ensures rows * cols < WORD_RANGE ==> CopyEnd(oldRows, oldCols, rows, cols) <= rows * cols % WORD_RANGE
    ensures 0x8000_0001 * 2 % WORD_RANGE == 2 && Copied(2, 2, 0x8000_0001, 2, 3)
  {
    assert CellOf(1, 1, 2) == 3;
    var minRows := if rows < oldRows then rows else oldRows;
    if minRows > 0 {
      RowsBelow(minRows, rows, cols);
      assert minRows * cols == (minRows - 1) * cols + cols;
    }
  }

  method CopyInto(dst: array<Cell>, to: nat, src: array<Cell>, from: nat, n: nat)
    requires dst != src && to + n <= dst.Length && from + n <= src.Length
    modifies dst
    ensures RowStored(old(dst[..]), dst[..], to, src[from..from + n])
  {
    var c := 0;
    while c < n
      invariant 0 <= c <= n
      invariant forall i :: 0 <= i < dst.Length && !(to <= i < to + c) ==> dst[i] == old(dst[i])
      invariant forall i :: to <= i < to + c ==> dst[i] == src[from + (i - to)]
    {
      dst[to + c] := src[from + c];
      c := c + 1;
    }
  }

  function Filled(rows: Rows, from: nat, to: nat, row: seq<Cell>): (r: Rows)
    ensures |r| == |rows|
  {
    seq(|rows|, i requires 0 <= i < |rows| => if from <= i < to then row else rows[i])
  }

  /** Rows from..to-1 are taken from `shift` rows further down. */
  function Raised(rows: Rows, from: nat, to: nat, shift: nat): (r: Rows)
    requires to + shift <= |rows|
    ensures |r| == |rows|
  {
    seq(|rows|, i requires 0 <= i < |rows| => if from <= i < to then rows[i + shift] else rows[i])
  }

  lemma MoveOneUp(rows: Rows, from: nat, r: nat, shift: nat)
    requires from <= r && r + shift < |rows|
    ensures Raised(rows, from, r, shift)[r + shift] == rows[r + shift]
    ensures Raised(rows, from, r, shift)[r := rows[r + shift]] == Raised(rows, from, r + 1, shift)
  {
  }

  /** Rows from..to-1 are taken from `shift` rows further up. */
  function Lowered(rows: Rows, from: nat, to: nat, shift: nat): (r: Rows)
    requires to <= |rows| && shift <= from
    ensures |r| == |rows|
  {
    seq(|rows|, i requires 0 <= i < |rows| => if from <= i < to then rows[i - shift] else rows[i])
  }

  lemma MoveOneDown(rows: Rows, r: nat, to: nat, shift: nat, src: nat)
    requires r == src + shift && r < to <= |rows| && shift > 0
    ensures Lowered(rows, r + 1, to, shift)[r := Lowered(rows, r + 1, to, shift)[src]] == Lowered(rows, r, to, shift)
  {
    var m := Lowered(rows, r + 1, to, shift);
    assert m[src] == rows[src];
  }

  lemma ScrolledAway(rows: Rows, top: nat, last: nat, delta: int, blank: seq<Cell>)
    requires top <= last < |rows| && (delta > last - top || -delta > last - top)
    ensures Filled(rows, top, last + 1, blank) == Scrolled(rows, top, last, delta, blank)
  {
  }

  lemma MovedUp(rows: Rows, top: nat, last: nat, shift: nat, blank: seq<Cell>)
    requires top <= last < |rows| && 0 < shift <= last - top
    ensures Filled(Raised(rows, top, last + 1 - shift, shift), last + 1 - shift, last + 1, blank)
            == Scrolled(rows, top, last, shift, blank)
  {
  }

  lemma MovedDown(rows: Rows, top: nat, last: nat, shift: nat, blank: seq<Cell>)
    requires top <= last < |rows| && 0 < shift <= last - top
    ensures Filled(Lowered(rows, top + shift, last + 1, shift), top, top + shift, blank)
            == Scrolled(rows, top, last, 0 - shift as int, blank)
  {
  }

  lemma ApartRows(rows: nat, cols: nat, a: nat, b: nat)
    requires a < rows && b < rows && a != b
    ensures a * cols + cols <= b * cols || b * cols + cols <= a * cols
  {
    if a < b {
      StepsApart(cols, a, b);
    } else {
      StepsApart(cols, b, a);
    }
  }
}

/**
The text console: 4000 bytes of video memory, two for a cell, and the two VGA
cursor registers. It is proved to show the last 25 rows of the naive terminal.
Source: kernel/screen.c.
*/
module Console {
  import opened Terminal

  const ROW_BYTES := 2 * COLS
  const SCREEN_BYTES := 2 * CELLS

  // ---- offsets ----

  /** C division: the quotient is truncated toward zero. */
  function Quot(a: int, b: nat): int
    requires b > 0
  {
    if a >= 0 then a / b else -(-a / b)
  }

  function Offset(col: int, row: int): int {
    2 * (row * COLS + col)
  }

  function OffsetRow(offset: int): int {
    Quot(offset, ROW_BYTES)
  }

  function OffsetCol(offset: int): int {
    Quot(offset - OffsetRow(offset) * ROW_BYTES, 2)
  }

  /** Column and row are recovered from the offset of a cell. */
  lemma OffsetInverse(col: int, row: int)
    requires 0 <= col < COLS && 0 <= row
    ensures OffsetRow(Offset(col, row)) == row && OffsetCol(Offset(col, row)) == col
  {
    assert Offset(col, row) == row * ROW_BYTES + 2 * col;
  }

  /** And the offset of a cell from its column and row. */
  lemma OffsetBack(offset: nat)
    requires offset % 2 == 0
    ensures Offset(OffsetCol(offset), OffsetRow(offset)) == offset
    ensures 0 <= OffsetCol(offset) < COLS && OffsetRow(offset) == offset / ROW_BYTES
  {
  }

  /** The high and the low register for an offset; shifts and masks of negative numbers wrap. */
  function High(offset: int): nat {
    Quot(offset, 2) / 256 % 256
  }

  function Low(offset: int): nat {
    Quot(offset, 2) % 256
  }

  function Joined(high: nat, low: nat): nat {
    (high * 256 + low) * 2
  }

  /** What is read back is what was set exactly for the even offsets that fit 16 bits. */
  lemma RegistersInverse(offset: int)
    ensures Joined(High(offset), Low(offset)) == offset <==> offset % 2 == 0 && 0 <= offset < 2 * 0x10000
  {
  }

  // ---- print_char and kprint_at on the terminal ----

  /** Where print_char writes: the given cell, or the cursor when a coordinate is negative. */
  function Aim(t: Terminal, col: int, row: int): Terminal
    requires t.Ok() && col < COLS && row < ROWS
  {
    if col >= 0 && row >= 0 then t.(pos := t.Top() + row * COLS + col) else t
  }

  lemma AimOk(t: Terminal, col: int, row: int)
    requires t.Ok() && col < COLS && row < ROWS
    ensures Aim(t, col, row).Ok() && (0 <= col && 0 <= row ==> Aim(t, col, row).Cursor() == row * COLS + col)
  {
  }

  /** A coordinate past the edge: a mark in the last cell and nothing else. */
  function Marked(t: Terminal): Terminal
    requires t.Ok()
  {
    t.(cells := t.cells[|t.cells| - 1 := Cell('E', RED_ON_WHITE)])
  }

  /** print_char and the offset it returns. */
  function PrintedChar(t: Terminal, c: char, col: int, row: int, attr: char): (r: (Terminal, int))
    requires t.Ok()
    ensures r.0.Ok()
  {
    if col >= COLS || row >= ROWS then (Marked(t), Offset(col, row))
    else
      AimOk(t, col, row);
      var r := Put(Aim(t, col, row), c, if attr == '\0' then WHITE_ON_BLACK else attr);
      (r, 2 * r.Cursor())
  }

  /** kprint_at from a column and row on. */
  function PrintedAt(t: Terminal, s: string, col: int, row: int): (r: Terminal)
    requires t.Ok()
    ensures r.Ok()
    decreases |s|
  {
    if s == "" then t
    else
      var (u, offset) := PrintedChar(t, s[0], col, row, WHITE_ON_BLACK);
      PrintedAt(u, s[1..], OffsetCol(offset), OffsetRow(offset))
  }

  /** From the cursor on, that is what the naive terminal prints; the error mark is never reached. */
  lemma {:induction false} PrintedAtCursor(t: Terminal, s: string)
    requires t.Ok()
    ensures PrintedAt(t, s, OffsetCol(2 * t.Cursor()), OffsetRow(2 * t.Cursor())) == Puts(t, s)
    decreases |s|
  {
    if s != "" {
      var offset := 2 * t.Cursor();
      OffsetBack(offset);
      var u := Put(t, s[0], WHITE_ON_BLACK);
      assert Aim(t, OffsetCol(offset), OffsetRow(offset)) == t;
      PrintedAtCursor(u, s[1..]);
    }
  }

  /** print_char at a cell that exists, or at the cursor; no attribute means white on black. */
  lemma PrintedCharMeans(t: Terminal, c: char, col: int, row: int, attr: char)
    requires t.Ok() && col < COLS && row < ROWS && Printable(c)
    ensures var (r, offset) := PrintedChar(t, c, col, row, attr);
            var at: nat := if col >= 0 && row >= 0 then t.Top() + row * COLS + col else t.pos;
            && r.pos == at + 1 && offset == 2 * (r.pos - r.Top())
            && forall p: nat :: r.At(p) ==
                 if p == at then Cell(c, if attr == '\0' then WHITE_ON_BLACK else attr) else t.At(p)
  {
    AimOk(t, col, row);
    PutMeans(Aim(t, col, row), c, if attr == '\0' then WHITE_ON_BLACK else attr);
    hide Put;
  }

  /** Past an edge: a red mark in the last cell of the screen, and the cursor stays. */
  lemma PrintedCharMarks(t: Terminal, c: char, col: int, row: int, attr: char)
    requires t.Ok() && (col >= COLS || row >= ROWS)
    ensures var (r, offset) := PrintedChar(t, c, col, row, attr);
            && r.pos == t.pos && r.Top() == t.Top() && offset == 2 * (80 * row + col)
            && forall p: nat :: r.At(p) == if p == t.Top() + CELLS - 1 then Cell('E', RED_ON_WHITE) else t.At(p)
  {
  }

  /** kprint_at of a message at a cell of the screen: the naive terminal with its cursor put there. */
  lemma PrintedAtPlace(t: Terminal, s: string, col: int, row: int)
    requires t.Ok() && 0 <= col < COLS && 0 <= row < ROWS && s != ""
    ensures t.(pos := t.Top() + row * COLS + col).Ok()
    ensures PrintedAt(t, s, col, row) == Puts(t.(pos := t.Top() + row * COLS + col), s)
  {
    AimOk(t, col, row);
    var u := Put(Aim(t, col, row), s[0], WHITE_ON_BLACK);
    hide Put;
    PrintedAtCursor(u, s[1..]);
  }

  // ---- video memory ----

  /** Byte 2k of video memory is the character of cell k, byte 2k + 1 its attribute. */
  predicate Shows(v: seq<char>, w: seq<Cell>)
    requires |v| == 2 * |w|
  {
    forall k :: 0 <= k < |w| ==> v[2 * k] == w[k].ch && v[2 * k + 1] == w[k].attr
  }

  lemma ShowsWritten(v: seq<char>, w: seq<Cell>, i: nat, c: Cell)
    requires |v| == 2 * |w| && i < |w| && Shows(v, w)
    ensures Shows(v[2 * i := c.ch][2 * i + 1 := c.attr], w[i := c])
  {
  }

  /** The bytes moved up by a row show the cells moved up by a row. */
  lemma ShowsScrolled(v: seq<char>, u: seq<char>, w: seq<Cell>)
    requires |v| == |u| == SCREEN_BYTES && |w| == CELLS && Shows(v, w)
    requires forall k :: 0 <= k < SCREEN_BYTES - ROW_BYTES ==> u[k] == v[k + ROW_BYTES]
    requires forall k :: SCREEN_BYTES - ROW_BYTES <= k < SCREEN_BYTES ==>
               u[k] == if k % 2 == 0 then ' ' else WHITE_ON_BLACK
    ensures Shows(u, w[COLS..] + Blanks(COLS))
  {
    var x := w[COLS..] + Blanks(COLS);
    forall k | 0 <= k < |x| ensures u[2 * k] == x[k].ch && u[2 * k + 1] == x[k].attr {
      if k < CELLS - COLS {
        assert x[k] == w[k + COLS] && 2 * k + ROW_BYTES == 2 * (k + COLS);
      }
    }
  }

  /** Printing a blank in the cell before the cursor leaves the grid an erase leaves. */
  lemma BlankBefore(t: Terminal, col: int, row: int)
    requires t.Ok() && col == OffsetCol(2 * t.Cursor() - 2) && row == OffsetRow(2 * t.Cursor() - 2)
    ensures col < COLS && row < ROWS
    ensures t.Cursor() > 0 ==>
              && PrintedChar(t, ' ', col, row, WHITE_ON_BLACK).0.cells == Erase(t).cells
              && Erase(t).Ok() && Erase(t).Cursor() == t.Cursor() - 1
  {
    if t.Cursor() > 0 { OffsetBack(2 * t.Cursor() - 2); }
  }

  /** No cell of the screen is stored as 65535. */
  lemma RegistersTell(cursor: nat)
    requires cursor < CELLS
    ensures High(2 * cursor) != 255 && High(-2) == Low(-2) == 255
  {
  }

  lemma WindowUpdate(t: Terminal, c: Cell)
    requires t.Ok()
    ensures t.cells[t.pos := c][t.Top()..] == t.Screen()[t.Cursor() := c]
  {
  }

  /** The offset of the start of the next row. */
  lemma NewlineOffset(t: Terminal)
    requires t.Ok()
    ensures var next := (t.pos / COLS + 1) * COLS;
            && t.Top() <= next <= |t.cells|
            && Offset(0, OffsetRow(2 * t.Cursor()) + 1) == 2 * (next - t.Top())
  {
  }

  class Console {
    const vidmem: array<char>
    var cursorHigh: nat
    var cursorLow: nat
    ghost var term: Terminal

    ghost predicate Valid()
      reads this, vidmem
    {
      && vidmem.Length == SCREEN_BYTES && term.Ok()
      && Shows(vidmem[..], term.Screen())
      && cursorHigh == High(2 * term.Cursor()) && cursorLow == Low(2 * term.Cursor())
    }

    /** Video memory and registers as the boot loader leaves them; the console is valid once the screen is cleared. */
    constructor (video: array<char>, high: nat, low: nat)
      requires video.Length == SCREEN_BYTES
      ensures vidmem == video && cursorHigh == high && cursorLow == low
    {
      vidmem := video;
      cursorHigh, cursorLow := high, low;
      term := Cleared();
    }

    method GetCursorOffset() returns (offset: nat)
      requires Valid()
      ensures offset == 2 * term.Cursor()
    {
      offset := cursorHigh * 256;
      offset := offset + cursorLow;
      offset := offset * 2;
      RegistersInverse(2 * term.Cursor());
    }

    method SetCursorOffset(offset: int)
      modifies this`cursorHigh, this`cursorLow
      ensures cursorHigh == High(offset) && cursorLow == Low(offset)
    {
      var cell := Quot(offset, 2);
      cursorHigh := cell / 256 % 256;
      cursorLow := cell % 256;
    }

    /** The inner loop of the scroll: the row of bytes after this one, in ascending order. */
    method CopyRowUp(to: nat)
      requires vidmem.Length == SCREEN_BYTES && to + 2 * ROW_BYTES <= SCREEN_BYTES
      modifies vidmem
      ensures forall k :: to <= k < to + ROW_BYTES ==> vidmem[k] == old(vidmem[k + ROW_BYTES])
      ensures forall k :: 0 <= k < SCREEN_BYTES && !(to <= k < to + ROW_BYTES) ==> vidmem[k] == old(vidmem[k])
    {
      var j := 0;
      while j < ROW_BYTES
        invariant 0 <= j <= ROW_BYTES
        invariant forall k :: to <= k < to + j ==> vidmem[k] == old(vidmem[k + ROW_BYTES])
        invariant forall k :: 0 <= k < SCREEN_BYTES && !(to <= k < to + j) ==> vidmem[k] == old(vidmem[k])
      {
        vidmem[to + j] := vidmem[to + ROW_BYTES + j];
        j := j + 1;
      }
    }

    method BlankLastRow()
      requires vidmem.Length == SCREEN_BYTES
      modifies vidmem
      ensures forall k :: 0 <= k < SCREEN_BYTES - ROW_BYTES ==> vidmem[k] == old(vidmem[k])
      ensures forall k :: SCREEN_BYTES - ROW_BYTES <= k < SCREEN_BYTES ==>
                vidmem[k] == if k % 2 == 0 then ' ' else WHITE_ON_BLACK
    {
      var last, i := (ROWS - 1) * ROW_BYTES, 0;
      while i < ROW_BYTES
        invariant 0 <= i <= ROW_BYTES && i % 2 == 0
        invariant forall k :: 0 <= k < last ==> vidmem[k] == old(vidmem[k])
        invariant forall k :: last <= k < last + i ==> vidmem[k] == if k % 2 == 0 then ' ' else WHITE_ON_BLACK
      {
        vidmem[last + i] := ' ';
        vidmem[last + i + 1] := WHITE_ON_BLACK;
        i := i + 2;
      }
    }

    /** The ascending in-place copy of rows 1 to 24 over rows 0 to 23, and a blank last row. */
    method ScrollUp()
      requires vidmem.Length == SCREEN_BYTES
      modifies vidmem
      ensures forall k :: 0 <= k < SCREEN_BYTES - ROW_BYTES ==> vidmem[k] == old(vidmem[k + ROW_BYTES])
      ensures forall k :: SCREEN_BYTES - ROW_BYTES <= k < SCREEN_BYTES ==>
                vidmem[k] == if k % 2 == 0 then ' ' else WHITE_ON_BLACK
    {
      var i, to := 1, 0;
      while i < ROWS
        invariant 1 <= i <= ROWS && to == (i - 1) * ROW_BYTES
        invariant forall k :: 0 <= k < to ==> vidmem[k] == old(vidmem[k + ROW_BYTES])
        invariant forall k :: to <= k < SCREEN_BYTES ==> vidmem[k] == old(vidmem[k])
      {
        CopyRowUp(to);
        i, to := i + 1, to + ROW_BYTES;
      }
      BlankLastRow();
    }

    /** The two bytes of cell i. */
    method WriteCell(i: nat, ch: char, attr: char, ghost w: seq<Cell>)
      requires vidmem.Length == SCREEN_BYTES && i < CELLS == |w| && Shows(vidmem[..], w)
      modifies vidmem
      ensures Shows(vidmem[..], w[i := Cell(ch, attr)])
    {
      ShowsWritten(vidmem[..], w, i, Cell(ch, attr));
      vidmem[2 * i] := ch;
      vidmem[2 * i + 1] := attr;
      assert vidmem[..] == old(vidmem[..])[2 * i := ch][2 * i + 1 := attr];
    }

    /** The end of print_char: scroll if the offset is past the screen, and set the cursor. */
    method Finish(offset: int, ghost cells: seq<Cell>, ghost pos: nat) returns (final: int)
      requires vidmem.Length == SCREEN_BYTES && |cells| % COLS == 0 && CELLS <= |cells|
      requires |cells| - CELLS <= pos <= |cells| && offset == 2 * (pos - (|cells| - CELLS))
      requires Shows(vidmem[..], cells[|cells| - CELLS..])
      modifies this, vidmem
      ensures Valid() && term == Settle(cells, pos) && final == 2 * term.Cursor()
    {
      final := offset;
      term := Settle(cells, pos);
      if offset >= SCREEN_BYTES {
        ScrollUp();
        ShowsScrolled(old(vidmem[..]), vidmem[..], cells[|cells| - CELLS..]);
        assert cells[|cells| - CELLS..][COLS..] + Blanks(COLS) == term.Screen();
        final := offset - ROW_BYTES;
      }
      SetCursorOffset(final);
    }

    method MarkError()
      requires Valid()
      modifies this, vidmem
      ensures Valid() && term == Marked(old(term))
    {
      WriteCell((ROWS - 1) * COLS + COLS - 1, 'E', RED_ON_WHITE, term.Screen());
      assert Marked(term).Screen() == term.Screen()[CELLS - 1 := Cell('E', RED_ON_WHITE)];
      term := Marked(term);
    }

    /** The middle of print_char: the character goes to cell offset / 2, where t has its cursor. */
    method PutAt(c: char, attr: char, offset: nat, ghost t: Terminal) returns (next: int)
      requires Valid() && t.Ok() && t.cells == term.cells && offset == 2 * t.Cursor()
      modifies this, vidmem
      ensures Valid() && term == Put(t, c, attr) && next == 2 * term.Cursor()
    {
      if c == '\n' {
        NewlineOffset(t);
        next := Finish(Offset(0, OffsetRow(offset) + 1), t.cells, (t.pos / COLS + 1) * COLS);
      } else if c == BACKSPACE {
        WriteCell(offset / 2, ' ', attr, t.Screen());
        WindowUpdate(t, Cell(' ', attr));
        next := Finish(offset, t.cells[t.pos := Cell(' ', attr)], t.pos);
      } else {
        WriteCell(offset / 2, c, attr, t.Screen());
        WindowUpdate(t, Cell(c, attr));
        next := Finish(offset + 2, t.cells[t.pos := Cell(c, attr)], t.pos + 1);
      }
    }

    /** print_char, its error mark included. */
    method PrintChar(c: char, col: int, row: int, attribute: char) returns (offset: int)
      requires Valid()
      modifies this, vidmem
      ensures Valid() && (term, offset) == PrintedChar(old(term), c, col, row, attribute)
    {
      hide Put;
      var attr := attribute;
      if attr == '\0' {
        attr := WHITE_ON_BLACK;
      }
      if col >= COLS || row >= ROWS {
        MarkError();
        return Offset(col, row);
      }
      AimOk(term, col, row);
      ghost var t := Aim(term, col, row);
      if col >= 0 && row >= 0 {
        offset := Offset(col, row);
      } else {
        offset := GetCursorOffset();
      }
      offset := PutAt(c, attr, offset, t);
    }

    method KprintAt(message: string, startCol: int, startRow: int)
      requires Valid()
      modifies this, vidmem
      ensures Valid()
      ensures term == if startCol >= 0 && startRow >= 0 then PrintedAt(old(term), message, startCol, startRow)
                      else Puts(old(term), message)
    {
      var col, row := startCol, startRow;
      if col < 0 || row < 0 {
        var offset := GetCursorOffset();
        row, col := OffsetRow(offset), OffsetCol(offset);
        PrintedAtCursor(term, message);
      }
      ghost var col0, row0 := col, row;
      var i := 0;
      while i < |message|
        invariant 0 <= i <= |message| && Valid()
        invariant PrintedAt(old(term), message, col0, row0) == PrintedAt(term, message[i..], col, row)
      {
        var offset := PrintChar(message[i], col, row, WHITE_ON_BLACK);
        assert message[i..][1..] == message[i + 1..];
        row, col := OffsetRow(offset), OffsetCol(offset);
        i := i + 1;
      }
    }

    /** kprint is the naive terminal seen through the screen. */
    method Kprint(message: string)
      requires Valid()
      modifies this, vidmem
      ensures Valid() && term == Puts(old(term), message)
    {
      KprintAt(message, -1, -1);
    }

    /**
    kprint_backspace. The terminal's erase exactly when the cursor is past the
    first cell; from the first cell the registers end up at cell 65535.
    */
    method KprintBackspace()
      requires Valid()
      modifies this, vidmem
      ensures Valid() <==> old(term).Cursor() > 0
      ensures if old(term).Cursor() > 0 then term == Erase(old(term)) else cursorHigh == 255 && cursorLow == 255
    {
      var offset: int := GetCursorOffset();
      offset := offset - 2;
      var row, col := OffsetRow(offset), OffsetCol(offset);
      ghost var t := term;
      BlankBefore(t, col, row);
      hide PrintedChar;
      hide Erase;
      var end := PrintChar(' ', col, row, WHITE_ON_BLACK);
      SetCursorOffset(offset);
      if t.Cursor() > 0 {
        term := Erase(t);
      } else {
        RegistersTell(term.Cursor());
      }
    }

    method ClearScreen()
      requires vidmem.Length == SCREEN_BYTES
      modifies this, vidmem
      ensures Valid() && term == Cleared()
    {
      var i := 0;
      while i < ROWS * COLS
        invariant 0 <= i <= CELLS
        invariant forall k :: 0 <= k < 2 * i ==> vidmem[k] == if k % 2 == 0 then ' ' else WHITE_ON_BLACK
      {
        vidmem[i * 2] := ' ';
        vidmem[i * 2 + 1] := WHITE_ON_BLACK;
        i := i + 1;
      }
      SetCursorOffset(Offset(0, 0));
      term := Cleared();
      assert term.Screen() == Blanks(CELLS);
    }
  }
}

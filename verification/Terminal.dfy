/**
A naive terminal: an unbounded grid of 80-column rows that is never scrolled.
Rows are only ever added, blank, when the cursor leaves the last one. The screen
is the last 25 rows.
*/
module Terminal {
  const COLS := 80
  const ROWS := 25
  const CELLS := ROWS * COLS
  const WHITE_ON_BLACK: char := 0x0f as char
  const RED_ON_WHITE: char := 0xf4 as char
  const BACKSPACE: char := 0x08 as char

  datatype Cell = Cell(ch: char, attr: char)

  const BLANK := Cell(' ', WHITE_ON_BLACK)

  function Blanks(n: nat): (b: seq<Cell>)
    ensures |b| == n && forall k :: 0 <= k < n ==> b[k] == BLANK
  {
    seq(n, _ => BLANK)
  }

  /** The grid row by row, and the position of the cursor in it. */
  datatype Terminal = Terminal(cells: seq<Cell>, pos: nat) {
    /** Grid position of the first cell on the screen. */
    function Top(): int {
      |cells| - CELLS
    }

    /** Whole rows, at least a screenful, and the cursor on the screen. */
    predicate Ok() {
      |cells| % COLS == 0 && 0 <= Top() <= pos < |cells|
    }

    function Screen(): seq<Cell>
      requires Ok()
    {
      cells[Top()..]
    }

    /** The cursor's cell on the screen. */
    function Cursor(): nat
      requires Ok()
    {
      pos - Top()
    }

    /** The grid as an unbounded plane: blank below the rows that exist. */
    function At(p: nat): Cell {
      if p < |cells| then cells[p] else BLANK
    }
  }

  /** What clear_screen leaves. */
  function Cleared(): (t: Terminal)
    ensures t.Ok() && t.Cursor() == 0
  {
    Terminal(Blanks(CELLS), 0)
  }

  /** A new blank row if the cursor is just past the last one. */
  function Settle(cells: seq<Cell>, pos: nat): (t: Terminal)
    requires |cells| % COLS == 0 && CELLS <= |cells| && |cells| - CELLS <= pos <= |cells|
    ensures t.Ok() && t.pos == pos
  {
    Terminal(if pos == |cells| then cells + Blanks(COLS) else cells, pos)
  }

  /** A character at the cursor: newline, backspace (a blank, without moving) or text. */
  function Put(t: Terminal, c: char, attr: char): (r: Terminal)
    requires t.Ok()
    ensures r.Ok()
  {
    if c == '\n' then Settle(t.cells, (t.pos / COLS + 1) * COLS)
    else if c == BACKSPACE then t.(cells := t.cells[t.pos := Cell(' ', attr)])
    else Settle(t.cells[t.pos := Cell(c, attr)], t.pos + 1)
  }

  function Puts(t: Terminal, s: string): (r: Terminal)
    requires t.Ok()
    ensures r.Ok()
    decreases |s|
  {
    if s == "" then t else Puts(Put(t, s[0], WHITE_ON_BLACK), s[1..])
  }

  /** The cursor steps back and blanks what is there. */
  function Erase(t: Terminal): (r: Terminal)
    requires t.Ok() && t.Cursor() > 0
    ensures r.Ok()
  {
    Terminal(t.cells[t.pos - 1 := BLANK], t.pos - 1)
  }

  predicate Printable(c: char) {
    c != '\n' && c != BACKSPACE
  }

  /** A character goes into the cursor's cell and the cursor one on; leaving the last row adds one. */
  lemma PutMeans(t: Terminal, c: char, attr: char)
    requires t.Ok() && Printable(c)
    ensures var r := Put(t, c, attr);
            && r.pos == t.pos + 1
            && (forall p: nat :: r.At(p) == if p == t.pos then Cell(c, attr) else t.At(p))
            && r.Top() == t.Top() + if t.Cursor() == CELLS - 1 then COLS else 0
  {
  }

  lemma RowOf(p: nat)
    ensures var next := (p / COLS + 1) * COLS; next % COLS == 0 && p < next <= p + COLS
  {
  }

  /** The next row starts past the grid exactly when the cursor is in the last row of the screen. */
  lemma RowsWhole(t: Terminal)
    requires t.Ok()
    ensures (t.pos / COLS + 1) * COLS == |t.cells| <==> t.Cursor() >= CELLS - COLS
  {
    var rows := |t.cells| / COLS;
    assert |t.cells| == rows * COLS;
  }

  /** A newline writes nothing and goes to the start of the next row, adding one when there is none. */
  lemma NewlineMeans(t: Terminal)
    requires t.Ok()
    ensures var r := Puts(t, "\n");
            && r.pos % COLS == 0 && t.pos < r.pos <= t.pos + COLS
            && (forall p: nat :: r.At(p) == t.At(p))
            && r.Top() == t.Top() + if t.Cursor() >= CELLS - COLS then COLS else 0
  {
    assert "\n"[1..] == "";
    RowOf(t.pos);
    var r := Put(t, '\n', WHITE_ON_BLACK);
    assert Puts(t, "\n") == r;
    RowsWhole(t);
  }

  /** A printed backspace blanks the cursor's cell and stays there. */
  lemma BackspaceMeans(t: Terminal, attr: char)
    requires t.Ok()
    ensures var r := Put(t, BACKSPACE, attr);
            && r.pos == t.pos && r.Top() == t.Top()
            && forall p: nat :: r.At(p) == if p == t.pos then Cell(' ', attr) else t.At(p)
  {
  }

  /** An erase goes one cell back and blanks that. */
  lemma EraseMeans(t: Terminal)
    requires t.Ok() && t.Cursor() > 0
    ensures var r := Erase(t);
            && r.pos == t.pos - 1 && r.Top() == t.Top()
            && forall p: nat :: r.At(p) == if p == t.pos - 1 then BLANK else t.At(p)
  {
  }

  /** A cleared terminal is blank and starts at its first cell, with one screen of rows. */
  lemma ClearedMeans()
    ensures Cleared().pos == 0 && Cleared().Top() == 0 && forall p: nat :: Cleared().At(p) == BLANK
  {
  }

  /** Text is laid out in one stretch of the grid, across row ends and scrolls, and nothing before it changes. */
  lemma {:induction false} PutsText(t: Terminal, s: string)
    requires t.Ok() && forall k :: 0 <= k < |s| ==> Printable(s[k])
    ensures var r := Puts(t, s);
            && r.pos == t.pos + |s| <= |r.cells|
            && |t.cells| <= |r.cells|
            && (forall p :: 0 <= p < t.pos ==> r.cells[p] == t.cells[p])
            && (forall k :: 0 <= k < |s| ==> r.cells[t.pos + k] == Cell(s[k], WHITE_ON_BLACK))
            && (forall p :: r.pos <= p ==> r.At(p) == t.At(p))
    decreases |s|
  {
    if s != "" {
      var u := Put(t, s[0], WHITE_ON_BLACK);
      PutsText(u, s[1..]);
      var r := Puts(t, s);
      forall k | 0 <= k < |s| ensures r.cells[t.pos + k] == Cell(s[k], WHITE_ON_BLACK) {
        if k > 0 { assert s[k] == s[1..][k - 1] && t.pos + k == u.pos + (k - 1); }
      }
    }
  }

  lemma {:induction false} PutsAppend(t: Terminal, a: string, b: string)
    requires t.Ok()
    ensures Puts(t, a + b) == Puts(Puts(t, a), b)
    decreases |a|
  {
    if a == "" {
      assert a + b == b;
    } else {
      assert (a + b)[0] == a[0] && (a + b)[1..] == a[1..] + b;
      PutsAppend(Put(t, a[0], WHITE_ON_BLACK), a[1..], b);
    }
  }

  /** Everything from the cursor on is blank. */
  predicate FreshBelow(t: Terminal) {
    forall p :: t.pos <= p < |t.cells| ==> t.cells[p] == BLANK
  }

  /** That is so after a clear, and printing and erasing keep it. */
  lemma {:induction false} PutsFresh(t: Terminal, s: string)
    requires t.Ok() && FreshBelow(t)
    ensures FreshBelow(Puts(t, s))
    decreases |s|
  {
    if s != "" {
      PutsFresh(Put(t, s[0], WHITE_ON_BLACK), s[1..]);
    }
  }

  lemma EraseFresh(t: Terminal)
    requires t.Ok() && FreshBelow(t) && t.Cursor() > 0
    ensures FreshBelow(Erase(t))
  {
  }

  /** The same plane and the same position, whatever blank rows have been added. */
  ghost predicate SamePlane(t: Terminal, r: Terminal) {
    t.pos == r.pos && forall p: nat :: t.At(p) == r.At(p)
  }

  /** A character and an erase bring back the plane and the position. */
  lemma PutThenErase(t: Terminal, c: char)
    requires t.Ok() && FreshBelow(t) && Printable(c)
    ensures var u := Put(t, c, WHITE_ON_BLACK); u.Cursor() > 0 && SamePlane(Erase(u), t)
  {
  }
}

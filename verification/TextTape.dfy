/**
 The text screen as a value, the unbounded tape it is a window on, and the proof
 that printing on the screen refines printing on the tape.
 */
module TextTape {
  import opened Word32

  const VGA_WIDTH: nat := 80
  const VGA_HEIGHT: nat := 25
  const CELLS: nat := 2000
  const VGA_COLOR: byte := 0x0F
  const BACKSPACE: byte := 8
  const NEWLINE: byte := 10
  const SPACE: byte := 32

  datatype Cell = Cell(ch: byte, color: byte)

  const BLANK: Cell := Cell(SPACE, VGA_COLOR)

  function Blanks(n: nat): (cells: seq<Cell>)
    ensures |cells| == n && forall k :: 0 <= k < n ==> cells[k] == BLANK
  {
    seq(n, _ => BLANK)
  }

  // ----- the screen -----

  datatype View = View(cells: seq<Cell>, x: nat, y: nat)

  ghost predicate OnScreen(v: View) {
    |v.cells| == CELLS && v.x < VGA_WIDTH && v.y < VGA_HEIGHT
  }

  function Offset(v: View): nat { v.y * VGA_WIDTH + v.x }

  /** `scroll_up`: every row moves up, the last one becomes blank. */
  function Scrolled(cells: seq<Cell>): (r: seq<Cell>)
    requires |cells| == CELLS
    ensures |r| == CELLS
  {
    cells[VGA_WIDTH..] + Blanks(VGA_WIDTH)
  }

  /** `advance_cursor` */
  function Advance(v: View): View
    requires OnScreen(v)
  {
    if v.y + 1 >= VGA_HEIGHT then View(Scrolled(v.cells), 0, VGA_HEIGHT - 1) else View(v.cells, 0, v.y + 1)
  }

  /** `putchar` */
  function PutView(v: View, c: byte): View
    requires OnScreen(v)
  {
    if c == BACKSPACE then
      var w := if v.x > 0 then v.(x := v.x - 1)
               else if v.y > 0 then v.(x := VGA_WIDTH - 1, y := v.y - 1)
               else v;
      w.(cells := w.cells[Offset(w) := BLANK])
    else if c == NEWLINE then Advance(v)
    else
      var w := v.(cells := v.cells[Offset(v) := Cell(c, VGA_COLOR)]);
      if v.x + 1 >= VGA_WIDTH then Advance(w) else w.(x := v.x + 1)
  }

  lemma PutStaysOnScreen(v: View, c: byte)
    requires OnScreen(v)
    ensures OnScreen(PutView(v, c))
  {}

  /** `clear` */
  const CLEARED: View := View(Blanks(CELLS), 0, 0)

  // ----- the tape -----

  /** All that has been printed, row after row, up to the cursor; `base` is the first row on the screen. */
  datatype Tape = Tape(text: seq<Cell>, base: nat)

  /** The cursor lies in the window. */
  ghost predicate InWindow(t: Tape) {
    t.base * VGA_WIDTH <= |t.text| < (t.base + VGA_HEIGHT) * VGA_WIDTH
  }

  /** The window moves down by one row when the cursor leaves it. */
  function Follow(t: Tape): Tape {
    if |t.text| >= (t.base + VGA_HEIGHT) * VGA_WIDTH then t.(base := t.base + 1) else t
  }

  /**
   Printing a character appends it; a newline appends blanks to the end of the row; a
   backspace drops the last cell.
   */
  function Put(t: Tape, c: byte): Tape {
    if c == BACKSPACE then
      if |t.text| > t.base * VGA_WIDTH then t.(text := t.text[..|t.text| - 1]) else t
    else if c == NEWLINE then Follow(t.(text := t.text + Blanks(VGA_WIDTH - |t.text| % VGA_WIDTH)))
    else Follow(t.(text := t.text + [Cell(c, VGA_COLOR)]))
  }

  /** The tape continues with blanks behind the cursor. */
  function At(t: Tape, i: nat): Cell {
    if i < |t.text| then t.text[i] else BLANK
  }

  /** The screen is the window of the tape: 2000 cells from the base row on, and the cursor at the end of the text. */
  ghost predicate Shows(v: View, t: Tape) {
    && OnScreen(v) && InWindow(t)
    && t.base * VGA_WIDTH + Offset(v) == |t.text|
    && forall k :: 0 <= k < CELLS ==> v.cells[k] == At(t, t.base * VGA_WIDTH + k)
  }

  /** Every cell from the cursor on is blank. */
  lemma BlankBehindCursor(v: View, t: Tape, k: nat)
    requires Shows(v, t) && Offset(v) <= k < CELLS
    ensures v.cells[k] == BLANK
  {}

  /** Scrolling is moving the window down by exactly one row. */
  lemma ScrollMovesBase(cells: seq<Cell>, t: Tape)
    requires |cells| == CELLS && |t.text| <= (t.base + VGA_HEIGHT) * VGA_WIDTH
    requires forall k :: 0 <= k < CELLS ==> cells[k] == At(t, t.base * VGA_WIDTH + k)
    ensures forall k :: 0 <= k < CELLS ==> Scrolled(cells)[k] == At(t, (t.base + 1) * VGA_WIDTH + k)
  {
    forall k | 0 <= k < CELLS ensures Scrolled(cells)[k] == At(t, (t.base + 1) * VGA_WIDTH + k) {
      if k + VGA_WIDTH < CELLS {
        assert cells[k + VGA_WIDTH] == At(t, t.base * VGA_WIDTH + (k + VGA_WIDTH));
      }
    }
  }

  /** A screen whose cursor has reached the start of a row: the two ways `advance_cursor` goes on. */
  lemma AdvanceRefines(v: View, t: Tape)
    requires OnScreen(v) && |t.text| == (t.base + v.y + 1) * VGA_WIDTH
    requires forall k :: 0 <= k < CELLS ==> v.cells[k] == At(t, t.base * VGA_WIDTH + k)
    ensures Shows(Advance(v), Follow(t))
  {
    if v.y + 1 >= VGA_HEIGHT { ScrollMovesBase(v.cells, t); }
  }

  lemma PutCharRefines(v: View, t: Tape, c: byte)
    requires Shows(v, t) && c != BACKSPACE && c != NEWLINE
    ensures Shows(PutView(v, c), Put(t, c))
  {
    var w := v.(cells := v.cells[Offset(v) := Cell(c, VGA_COLOR)]);
    var u := t.(text := t.text + [Cell(c, VGA_COLOR)]);
    forall k | 0 <= k < CELLS ensures w.cells[k] == At(u, t.base * VGA_WIDTH + k) {}
    if v.x + 1 >= VGA_WIDTH { AdvanceRefines(w, u); }
  }

  lemma PutNewlineRefines(v: View, t: Tape)
    requires Shows(v, t)
    ensures Shows(PutView(v, NEWLINE), Put(t, NEWLINE))
  {
    var u := t.(text := t.text + Blanks(VGA_WIDTH - |t.text| % VGA_WIDTH));
    RowOf(t.base + v.y, v.x);
    assert |t.text| == VGA_WIDTH * (t.base + v.y) + v.x;
    forall k | 0 <= k < CELLS ensures v.cells[k] == At(u, t.base * VGA_WIDTH + k) {}
    AdvanceRefines(v, u);
  }

  lemma RowOf(row: nat, column: nat)
    requires column < VGA_WIDTH
    ensures (VGA_WIDTH * row + column) % VGA_WIDTH == column
  {}

  lemma PutBackspaceRefines(v: View, t: Tape)
    requires Shows(v, t)
    ensures Shows(PutView(v, BACKSPACE), Put(t, BACKSPACE))
  {
    var w := PutView(v, BACKSPACE);
    var u := Put(t, BACKSPACE);
    forall k | 0 <= k < CELLS ensures w.cells[k] == At(u, t.base * VGA_WIDTH + k) {}
  }

  /** `putchar` refines printing on the tape. */
  lemma PutRefines(v: View, t: Tape, c: byte)
    requires Shows(v, t)
    ensures Shows(PutView(v, c), Put(t, c))
    ensures t.base <= Put(t, c).base <= t.base + 1
  {
    if c == BACKSPACE {
      PutBackspaceRefines(v, t);
    } else if c == NEWLINE {
      PutNewlineRefines(v, t);
    } else {
      PutCharRefines(v, t, c);
    }
  }

  // ----- runs -----

  function PutAllView(v: View, cs: seq<byte>): (w: View)
    requires OnScreen(v)
    ensures OnScreen(w)
    decreases |cs|
  {
    if cs == [] then v
    else
      PutStaysOnScreen(v, cs[0]);
      PutAllView(PutView(v, cs[0]), cs[1..])
  }

  function PutAll(t: Tape, cs: seq<byte>): Tape
    decreases |cs|
  {
    if cs == [] then t else PutAll(Put(t, cs[0]), cs[1..])
  }

  /** Any characters, newlines and backspaces: the screen is the window of the tape, and its base never moves back. */
  lemma {:induction false} RunRefines(v: View, t: Tape, cs: seq<byte>)
    requires Shows(v, t)
    ensures Shows(PutAllView(v, cs), PutAll(t, cs))
    ensures t.base <= PutAll(t, cs).base
    decreases |cs|
  {
    hide PutView, Put, Shows;
    OnScreenOf(v, t);
    if cs != [] {
      PutRefines(v, t, cs[0]);
      PutStaysOnScreen(v, cs[0]);
      RunRefines(PutView(v, cs[0]), Put(t, cs[0]), cs[1..]);
    }
  }

  lemma OnScreenOf(v: View, t: Tape)
    requires Shows(v, t)
    ensures OnScreen(v)
  {}

  /** After `clear` the screen shows the empty tape. */
  lemma ClearedShowsEmpty()
    ensures Shows(CLEARED, Tape([], 0))
  {}
}

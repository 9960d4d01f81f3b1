/** The text screen: a byte array of character and colour pairs, and the cursor. */
module VgaBuffer {
  import opened Word32
  import opened TextTape

  class VGABuffer {
    /** The memory at 0xB8000: cell `k` is byte `2k` with its colour in byte `2k + 1`. */
    const buffer: array<byte>
    var x: nat
    var y: nat

    ghost predicate Valid()
      reads this
    {
      buffer.Length == 2 * CELLS && x < VGA_WIDTH && y < VGA_HEIGHT
    }

    ghost function CellAt(k: nat): Cell
      requires 2 * k + 1 < buffer.Length
      reads buffer
    {
      Cell(buffer[2 * k], buffer[2 * k + 1])
    }

    ghost function Cells(): (cells: seq<Cell>)
      requires buffer.Length == 2 * CELLS
      reads buffer
      ensures |cells| == CELLS && forall k :: 0 <= k < CELLS ==> cells[k] == CellAt(k)
    {
      seq(CELLS, k requires 0 <= k < CELLS reads buffer => CellAt(k))
    }

    ghost function Screen(): (v: View)
      requires Valid()
      reads this, buffer
      ensures OnScreen(v)
    {
      View(Cells(), x, y)
    }

    /** The character of a cell is the byte at the even offset, its colour the byte behind it. */
    lemma BytesShow(k: nat)
      requires Valid() && k < CELLS
      ensures buffer[2 * k] == Screen().cells[k].ch && buffer[2 * k + 1] == Screen().cells[k].color
    {}

    /** `vga_init`; the memory holds whatever was there before. */
    constructor (buffer: array<byte>)
      requires buffer.Length == 2 * CELLS
      ensures Valid() && this.buffer == buffer && x == 0 && y == 0
    {
      this.buffer := buffer;
      x := 0;
      y := 0;
    }

    /** The two byte stores of one cell. */
    method StoreCell(k: nat, ch: byte, color: byte)
      requires buffer.Length == 2 * CELLS && k < CELLS
      modifies buffer
      ensures CellAt(k) == Cell(ch, color)
      ensures forall j :: 0 <= j < CELLS && j != k ==> CellAt(j) == old(CellAt(j))
    {
      buffer[2 * k] := ch;
      buffer[2 * k + 1] := color;
    }

    /** One turn of the copying loop of `scroll_up`: a row goes to the row above. */
    method CopyRowUp(row: nat)
      requires buffer.Length == 2 * CELLS && 0 < row < VGA_HEIGHT
      modifies buffer
      ensures forall k :: (row - 1) * VGA_WIDTH <= k < row * VGA_WIDTH ==> CellAt(k) == old(CellAt(k + VGA_WIDTH))
      ensures forall k :: 0 <= k < CELLS && !((row - 1) * VGA_WIDTH <= k < row * VGA_WIDTH) ==>
              CellAt(k) == old(CellAt(k))
    {
      for column := 0 to VGA_WIDTH
        invariant forall k :: (row - 1) * VGA_WIDTH <= k < (row - 1) * VGA_WIDTH + column ==>
                CellAt(k) == old(CellAt(k + VGA_WIDTH))
        invariant forall k :: 0 <= k < CELLS && !((row - 1) * VGA_WIDTH <= k < (row - 1) * VGA_WIDTH + column) ==>
                    CellAt(k) == old(CellAt(k))
      {
        var from := row * VGA_WIDTH + column;
        assert CellAt(from) == old(CellAt(from));
        StoreCell(from - VGA_WIDTH, buffer[2 * from], buffer[2 * from + 1]);
      }
    }

    method ScrollUp()
      requires buffer.Length == 2 * CELLS
      modifies buffer
      ensures Cells() == Scrolled(old(Cells()))
    {
      for row := 1 to VGA_HEIGHT
        invariant forall k :: 0 <= k < (row - 1) * VGA_WIDTH ==> CellAt(k) == old(CellAt(k + VGA_WIDTH))
        invariant forall k :: (row - 1) * VGA_WIDTH <= k < CELLS ==> CellAt(k) == old(CellAt(k))
      {
        CopyRowUp(row);
      }
      for column := 0 to VGA_WIDTH
        invariant forall k :: 0 <= k < CELLS - VGA_WIDTH ==> CellAt(k) == old(CellAt(k + VGA_WIDTH))
        invariant forall k :: CELLS - VGA_WIDTH <= k < CELLS - VGA_WIDTH + column ==> CellAt(k) == BLANK
      {
        StoreCell((VGA_HEIGHT - 1) * VGA_WIDTH + column, SPACE, VGA_COLOR);
      }
    }

    method AdvanceCursor()
      requires Valid()
      modifies this, buffer
      ensures Valid() && Screen() == Advance(old(Screen()))
    {
      x := 0;
      y := y + 1;
      if y >= VGA_HEIGHT {
        ScrollUp();
        y := VGA_HEIGHT - 1;
      }
    }

    /** One cell of the screen. */
    method Store(c: byte)
      requires Valid()
      modifies buffer
      ensures Cells() == old(Cells())[Offset(Screen()) := Cell(c, VGA_COLOR)]
    {
      StoreCell(y * VGA_WIDTH + x, c, VGA_COLOR);
    }

    method Putchar(c: byte)
      requires Valid()
      modifies this, buffer
      ensures Valid() && Screen() == PutView(old(Screen()), c)
    {
      if c == BACKSPACE {
        if x > 0 {
          x := x - 1;
        } else if y > 0 {
          y := y - 1;
          x := VGA_WIDTH - 1;
        }
        Store(SPACE);
        return;
      }
      if c == NEWLINE {
        AdvanceCursor();
        return;
      }
      Store(c);
      if x + 1 >= VGA_WIDTH {
        AdvanceCursor();
      } else {
        x := x + 1;
      }
    }

    method Print(str: seq<byte>)
      requires Valid()
      modifies this, buffer
      ensures Valid() && Screen() == PutAllView(old(Screen()), str)
    {
      assert str[0..] == str;
      for i := 0 to |str|
        invariant Valid() && PutAllView(Screen(), str[i..]) == PutAllView(old(Screen()), str)
      {
        assert str[i..][0] == str[i] && str[i..][1..] == str[i + 1..];
        Putchar(str[i]);
      }
    }

    method Clear()
      requires buffer.Length == 2 * CELLS
      modifies this, buffer
      ensures Valid() && Screen() == CLEARED
    {
      for k := 0 to CELLS
        invariant forall j :: 0 <= j < k ==> CellAt(j) == BLANK
      {
        StoreCell(k, SPACE, VGA_COLOR);
      }
      x := 0;
      y := 0;
    }
  }
}

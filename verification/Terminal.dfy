/** terminal.c on a text buffer: one flat array of cells, scrolled in place by a forward copy. */
module Terminal {
  import opened Words
  import opened Screen

  type U16 = x: int | 0 <= x < 0x1_0000

  lemma {:induction false} RowsFit(y: nat, height: nat, width: nat)
    requires y < height
    ensures 0 <= y * width && y * width + width <= height * width
  {
    OneRow(height - 1, width);
    if y < height - 1 {
      RowsFit(y, height - 1, width);
    }
  }

  class TextTerminal {
    const mem: array<Cell>
    const width: U16
    const height: U16
    var row: U16
    var column: U16
    var color: Byte
    /** The rows the flat buffer stands for. */
    ghost var rows: seq<seq<Cell>>

    ghost function Now(): Grid
      reads this
    {
      Grid(rows, row, column)
    }

    ghost predicate Valid()
      reads this, mem
    {
      && width <= MAX_WIDTH
      && Screen.Valid(Now(), width, height)
      && mem[..] == Flatten(rows)
    }

    /** terminal_init on text memory. */
    constructor (mem: array<Cell>, width: U16, height: U16, color: Byte)
      requires 0 < width <= MAX_WIDTH && 0 < height && mem.Length == height * width
      modifies mem
      ensures Valid() && Now() == Grid(BlankRows(width, height, color), 0, 0)
      ensures this.mem == mem && this.width == width && this.height == height && this.color == color
    {
      this.mem, this.width, this.height, this.color := mem, width, height, color;
      row, column, rows := 0, 0, [];
      new;
      Clear();
    }

    /** terminal_clear. */
    method Clear()
      requires 0 < width <= MAX_WIDTH && 0 < height && mem.Length == height * width
      modifies this`rows, this`row, this`column, mem
      ensures Valid() && Now() == Grid(BlankRows(width, height, color), 0, 0)
    {
      row := 0;
      column := 0;
      var y := 0;
      ghost var p := 0;
      while y < height
        invariant 0 <= y <= height && p == y * width
        invariant forall k :: 0 <= k < p && k < mem.Length ==> mem[k] == Entry(SPACE, color)
        modifies mem
      {
        OneRow(y, width);
        RowsFit(y, height, width);
        var x := 0;
        while x < width
          invariant 0 <= x <= width && p == y * width + x
          invariant forall k :: 0 <= k < p && k < mem.Length ==> mem[k] == Entry(SPACE, color)
          modifies mem
        {
          mem[y * width + x] := Entry(SPACE, color);
          x := x + 1;
          p := p + 1;
        }
        y := y + 1;
      }
      rows := BlankRows(width, height, color);
      FlattenLength(rows, width);
      FlattenBlank(width, height, color);
      forall k | 0 <= k < mem.Length
        ensures mem[k] == Flatten(rows)[k]
      {
        assert Flatten(rows)[k] in Flatten(rows);
      }
    }

    /** terminal_put_entry inside the screen. */
    method PutEntry(c: Byte)
      requires Valid()
      modifies this`rows, mem
      ensures Valid() && Now() == SetCell(old(Now()), Entry(c, color))
    {
      ghost var cell := Entry(c, color);
      FlattenUpdate(rows, width, row, column, cell);
      var i := row * width + column;
      mem[i] := Entry(c, color);
      rows := WithCell(rows, row, column, cell);
    }

    /**
     The copy of terminal_scroll, row by row and cell by cell: it runs forward, so it never reads a
     cell it has already overwritten.
     */
    method CopyUp()
      requires 0 < width && 0 < height && mem.Length == height * width
      modifies mem
      ensures forall k :: 0 <= k < mem.Length - width ==> mem[k] == old(mem[k + width])
    {
      var y := 0;
      ghost var p := 0;
      while y < height - 1
        invariant 0 <= y <= height - 1 && p == y * width
        invariant forall k :: 0 <= k < p && k + width < mem.Length ==> mem[k] == old(mem[k + width])
        invariant forall k :: p <= k < mem.Length ==> mem[k] == old(mem[k])
      {
        OneRow(y, width);
        var x := 0;
        RowsFit(y + 1, height, width);
        while x < width
          invariant 0 <= x <= width && p == y * width + x
          invariant forall k :: 0 <= k < p && k + width < mem.Length ==> mem[k] == old(mem[k + width])
          invariant forall k :: p <= k < mem.Length ==> mem[k] == old(mem[k])
        {
          mem[y * width + x] := mem[(y + 1) * width + x];
          x := x + 1;
          p := p + 1;
        }
        y := y + 1;
      }
      OneRow(height - 1, width);
    }

    /** The last row of terminal_scroll. */
    method BlankLastRow()
      requires 0 < width && 0 < height && mem.Length == height * width
      modifies mem
      ensures mem[..] == old(mem[..mem.Length - width]) + Blanks(width, color)
    {
      OneRow(height - 1, width);
      var last := height - 1;
      ghost var start := mem.Length - width;
      var x := 0;
      while x < width
        invariant 0 <= x <= width
        invariant forall k :: 0 <= k < start ==> mem[k] == old(mem[k])
        invariant forall k :: start <= k < start + x ==> mem[k] == Entry(SPACE, color)
      {
        mem[last * width + x] := Entry(SPACE, color);
        x := x + 1;
      }
    }

    /** terminal_scroll. */
    method Scroll()
      requires width <= MAX_WIDTH && 0 < width && 0 < height
      requires |rows| == height && (forall y :: 0 <= y < height ==> |rows[y]| == width)
      requires mem[..] == Flatten(rows)
      modifies this`rows, this`row, mem
      ensures mem[..] == Flatten(rows) && rows == Scrolled(old(rows), Blanks(width, color))
      ensures row == height - 1
    {
      ghost var was := mem[..];
      FlattenLength(rows, width);
      OneRow(height - 1, width);
      CopyUp();
      assert mem[..mem.Length - width] == was[width..];
      BlankLastRow();
      FlattenScrolled(rows, Blanks(width, color));
      rows := Scrolled(rows, Blanks(width, color));
      row := height - 1;
    }

    /** terminal_blankline, and the end of a line that is full. */
    method NewLine()
      requires Valid()
      modifies this`rows, this`row, this`column, mem
      ensures Valid() && Now() == NextRow(old(Now()), color)
    {
      column := 0;
      if row + 1 >= height {
        Scroll();
      } else {
        row := row + 1;
      }
    }

    /** terminal_putchar. */
    method PutChar(c: Byte)
      requires Valid()
      modifies this`rows, this`row, this`column, mem
      ensures Valid() && Now() == Put(old(Now()), c, color, width, height)
    {
      if c == NEWLINE {
        NewLine();
      } else if c == TAB {
        var next: U16 := column + (TAB_SIZE - column % TAB_SIZE);
        if next >= width {
          NewLine();
        } else {
          column := next;
        }
      } else if c == BACKSPACE {
        if column > 0 {
          column := column - 1;
        } else if row > 0 {
          row := row - 1;
          column := width - 1;
        }
        PutEntry(SPACE);
      } else {
        PutEntry(c);
        var next: U16 := column + 1;
        if next >= width {
          NewLine();
        } else {
          column := next;
        }
      }
    }

    /** terminal_write. */
    method Write(s: seq<Byte>)
      requires Valid()
      modifies this`rows, this`row, this`column, mem
      ensures Valid() && Now() == PutAll(old(Now()), s, color, width, height)
    {
      ghost var start := Now();
      var i := 0;
      while i < |s|
        invariant 0 <= i <= |s| && Valid()
        invariant Now() == PutAll(start, s[..i], color, width, height)
      {
        PutChar(s[i]);
        assert s[..i + 1][..i] == s[..i];
        i := i + 1;
      }
      assert s[..i] == s;
    }
  }
}

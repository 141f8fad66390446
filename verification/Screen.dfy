/** The text terminal as a list of rows: what each character does to cells and cursor. */
module Screen {
  import opened Words

  const TAB_SIZE := 4
  const NEWLINE: Byte := 10
  const TAB: Byte := 9
  const BACKSPACE: Byte := 8
  const SPACE: Byte := 32
  /** Beyond this width the 16-bit column would wrap in a tab. */
  const MAX_WIDTH := 65532

  type Cell = x: int | 0 <= x < 0x1_0000

  /** vga_entry: the character in the low byte, its colour in the high byte. */
  function Entry(c: Byte, color: Byte): Cell {
    c + 256 * color as int
  }

  datatype Grid = Grid(rows: seq<seq<Cell>>, row: nat, column: nat)

  ghost predicate Valid(g: Grid, width: nat, height: nat) {
    && 0 < width && 0 < height
    && |g.rows| == height && (forall y :: 0 <= y < height ==> |g.rows[y]| == width)
    && g.row < height && g.column < width
  }

  function Blanks(width: nat, color: Byte): (r: seq<Cell>)
    ensures |r| == width
  {
    seq(width, _ => Entry(SPACE, color))
  }

  /** The top row is lost and a blank row appears at the bottom. */
  function Scrolled(rows: seq<seq<Cell>>, blank: seq<Cell>): seq<seq<Cell>>
    requires |rows| > 0
  {
    rows[1..] + [blank]
  }

  /** To the start of the next row, scrolling when there is none. */
  function NextRow(g: Grid, color: Byte): Grid
    requires |g.rows| > 0 && |g.rows[0]| > 0
  {
    if g.row + 1 < |g.rows| then Grid(g.rows, g.row + 1, 0)
    else Grid(Scrolled(g.rows, Blanks(|g.rows[0]|, color)), |g.rows| - 1, 0)
  }

  function WithCell(rows: seq<seq<Cell>>, y: nat, x: nat, c: Cell): seq<seq<Cell>>
    requires y < |rows| && x < |rows[y]|
  {
    var row: seq<Cell> := rows[y][x := c];
    rows[y := row]
  }

  function SetCell(g: Grid, c: Cell): Grid
    requires g.row < |g.rows| && g.column < |g.rows[g.row]|
  {
    g.(rows := WithCell(g.rows, g.row, g.column, c))
  }

  /** To column, or to the next row when that is past the edge. */
  function Advance(g: Grid, column: nat, color: Byte): Grid
    requires |g.rows| > 0 && |g.rows[0]| > 0
  {
    if column < |g.rows[0]| then g.(column := column) else NextRow(g, color)
  }

  function StepBack(g: Grid): Grid
    requires |g.rows| > 0 && |g.rows[0]| > 0
  {
    if g.column > 0 then g.(column := g.column - 1)
    else if g.row > 0 then g.(row := g.row - 1, column := |g.rows[0]| - 1)
    else g
  }

  /** terminal_putchar. */
  function Put(g: Grid, c: Byte, color: Byte, width: nat, height: nat): Grid
    requires Valid(g, width, height)
  {
    if c == NEWLINE then NextRow(g, color)
    else if c == TAB then Advance(g, g.column + TAB_SIZE - g.column % TAB_SIZE, color)
    else if c == BACKSPACE then SetCell(StepBack(g), Entry(SPACE, color))
    else Advance(SetCell(g, Entry(c, color)), g.column + 1, color)
  }

  lemma PutValid(g: Grid, c: Byte, color: Byte, width: nat, height: nat)
    requires Valid(g, width, height)
    ensures Valid(Put(g, c, color, width, height), width, height)
  {
  }

  function PutAll(g: Grid, s: seq<Byte>, color: Byte, width: nat, height: nat): (r: Grid)
    requires Valid(g, width, height)
    ensures Valid(r, width, height)
  {
    if s == [] then g
    else
      var front := PutAll(g, s[..|s| - 1], color, width, height);
      PutValid(front, s[|s| - 1], color, width, height);
      Put(front, s[|s| - 1], color, width, height)
  }

  predicate Plain(c: Byte) {
    c != NEWLINE && c != TAB && c != BACKSPACE
  }

  lemma OneCellScreen(rows: seq<seq<Cell>>, c: Cell)
    requires |rows| == 1 && |rows[0]| == 1
    ensures WithCell(rows, 0, 0, c) == [[c]]
  {
    assert rows[0][0 := c] == [c];
  }

  lemma Overwritten(row: seq<Cell>, x: nat, c: Cell, d: Cell)
    requires x < |row|
    ensures row[x := c][x := d] == row[x := d]
  {
  }

  /**
   Backspace takes back a plain character, leaving a blank, unless the character was put in the last
   cell of the screen: there the screen has scrolled. (On a one-cell screen that shows no difference.)
   */
  lemma BackspaceUndoes(g: Grid, c: Byte, color: Byte, width: nat, height: nat)
    requires Valid(g, width, height) && Plain(c)
    ensures Put(Put(g, c, color, width, height), BACKSPACE, color, width, height) == SetCell(g, Entry(SPACE, color))
      <==> g.row + 1 < height || g.column + 1 < width || (width == 1 && height == 1)
  {
    PutValid(g, c, color, width, height);
    var p := Put(g, c, color, width, height);
    if g.row + 1 < height || g.column + 1 < width {
      var y, x, blank := g.row, g.column, Entry(SPACE, color);
      Overwritten(g.rows[y], x, Entry(c, color), blank);
      assert p.rows[y := p.rows[y][x := blank]] == g.rows[y := g.rows[y][x := blank]];
    } else if width == 1 && height == 1 {
      OneCellScreen(p.rows, Entry(SPACE, color));
      OneCellScreen(g.rows, Entry(SPACE, color));
    }
  }

  function Cells(s: seq<Byte>, color: Byte): (r: seq<Cell>)
    ensures |r| == |s|
  {
    seq(|s|, i requires 0 <= i < |s| => Entry(s[i], color))
  }

  lemma OneCell(was: seq<Cell>, x: nat, done: seq<Cell>, c: Cell)
    requires x + |done| < |was|
    ensures (was[..x] + done + was[x + |done|..])[x + |done| := c] == was[..x] + (done + [c]) + was[x + |done| + 1..]
  {
  }

  /** Plain text that fits before the right edge lands in consecutive cells of its row and nowhere else. */
  lemma {:induction false} TextInRow(g: Grid, s: seq<Byte>, color: Byte, width: nat, height: nat)
    requires Valid(g, width, height) && g.column + |s| < width
    requires forall i :: 0 <= i < |s| ==> Plain(s[i])
    ensures var row: seq<Cell> := g.rows[g.row][..g.column] + Cells(s, color) + g.rows[g.row][g.column + |s|..];
      PutAll(g, s, color, width, height) == Grid(g.rows[g.row := row], g.row, g.column + |s|)
  {
    var was := g.rows[g.row];
    if s == [] {
      assert was[..g.column] + Cells(s, color) + was[g.column + |s|..] == was;
    } else {
      var front, c := s[..|s| - 1], s[|s| - 1];
      TextInRow(g, front, color, width, height);
      OneCell(was, g.column, Cells(front, color), Entry(c, color));
      assert Cells(s, color) == Cells(front, color) + [Entry(c, color)];
    }
  }

  lemma {:induction false} PutAllConcat(g: Grid, a: seq<Byte>, b: seq<Byte>, color: Byte, width: nat, height: nat)
    requires Valid(g, width, height)
    ensures PutAll(g, a + b, color, width, height)
      == PutAll(PutAll(g, a, color, width, height), b, color, width, height)
  {
    if b == [] {
      assert a + b == a;
    } else {
      assert (a + b)[..|a + b| - 1] == a + b[..|b| - 1];
      PutAllConcat(g, a, b[..|b| - 1], color, width, height);
    }
  }

  lemma TextAtStart(g: Grid, s: seq<Byte>, color: Byte, width: nat, height: nat)
    requires Valid(g, width, height) && |s| < width && g.column == 0
    requires forall i :: 0 <= i < |s| ==> Plain(s[i])
    ensures var row: seq<Cell> := Cells(s, color) + g.rows[g.row][|s|..];
      PutAll(g, s, color, width, height) == Grid(g.rows[g.row := row], g.row, |s|)
  {
    TextInRow(g, s, color, width, height);
    hide PutAll;
    assert g.rows[g.row][..0] + Cells(s, color) == Cells(s, color);
  }

  lemma NewlineMeans(g: Grid, color: Byte, width: nat, height: nat)
    requires Valid(g, width, height)
    ensures var blank: seq<Cell> := seq(width, _ => 32 + 256 * color as int);
      PutAll(g, [10], color, width, height) ==
        if g.row + 1 < height then Grid(g.rows, g.row + 1, 0) else Grid(g.rows[1..] + [blank], height - 1, 0)
  {
    assert [10][..0] == [];
    assert Blanks(width, color) == seq(width, _ => 32 + 256 * color as int);
  }

  /** Text after a newline lands at the start of the row below, which is a blank one if the screen scrolls. */
  lemma TextAfterNewline(g: Grid, s: seq<Byte>, color: Byte, width: nat, height: nat)
    requires Valid(g, width, height) && |s| < width
    requires forall i :: 0 <= i < |s| ==> Plain(s[i])
    ensures var blank: seq<Cell> := seq(width, _ => 32 + 256 * color as int);
      var (rows, y) := if g.row + 1 < height then (g.rows, g.row + 1) else (g.rows[1..] + [blank], height - 1);
      var row: seq<Cell> := Cells(s, color) + rows[y][|s|..];
      PutAll(g, [10] + s, color, width, height) == Grid(rows[y := row], y, |s|)
  {
    hide Put;
    hide Cells;
    hide Valid;
    PutAllConcat(g, [10], s, color, width, height);
    NewlineMeans(g, color, width, height);
    TextAtStart(PutAll(g, [10], color, width, height), s, color, width, height);
    hide PutAll;
  }

  lemma TabStop(column: nat)
    ensures column + 4 - column % 4 == column / 4 * 4 + 4
  {
  }

  /** A tab goes to the next multiple of four, or starts the next row when that is past the edge. */
  lemma TabMeans(g: Grid, color: Byte, width: nat, height: nat)
    requires Valid(g, width, height)
    ensures var r, t := Put(g, 9, color, width, height), 4 * (g.column / 4 + 1);
      if t < width then r == Grid(g.rows, g.row, t) else r == Put(g, 10, color, width, height) && r.column == 0
  {
    TabStop(g.column);
  }

  // ---------- The screen as a window on all that was ever written ----------

  /** A roll of paper that only grows: its rows, and where the next character goes. */
  datatype Paper = Paper(rows: seq<seq<Cell>>, line: nat, column: nat)

  ghost predicate OnPaper(p: Paper, width: nat, height: nat) {
    && 0 < width && 0 < height <= |p.rows|
    && (forall y :: 0 <= y < |p.rows| ==> |p.rows[y]| == width)
    && |p.rows| - height <= p.line < |p.rows| && p.column < width
  }

  function BlankRow(width: nat, color: Byte): (r: seq<Cell>)
    ensures |r| == width
  {
    seq(width, _ => 32 + 256 * color as int)
  }

  /** To the start of the next line, on a fresh row if there is none yet. */
  function NewLine(p: Paper, width: nat, color: Byte): Paper {
    Paper(if p.line + 1 < |p.rows| then p.rows else p.rows + [BlankRow(width, color)], p.line + 1, 0)
  }

  function Mark(p: Paper, c: Byte, color: Byte): Paper
    requires p.line < |p.rows| && p.column < |p.rows[p.line]|
  {
    var row: seq<Cell> := p.rows[p.line][p.column := c + 256 * color as int];
    p.(rows := p.rows[p.line := row])
  }

  /** To a column of this line, or to the next line when the line is not that long. */
  function MoveTo(p: Paper, column: nat, width: nat, color: Byte): Paper {
    if column < width then p.(column := column) else NewLine(p, width, color)
  }

  /** One place back, but not above the rows the screen shows. */
  function Back(p: Paper, width: nat, height: nat): Paper
    requires 0 < width
  {
    if p.column > 0 then p.(column := p.column - 1)
    else if p.line > 0 && p.line - 1 >= |p.rows| - height then p.(line := p.line - 1, column := width - 1)
    else p
  }

  /** Newline, tab to the next multiple of four, erasing one place back, and any other character in its place. */
  function Print(p: Paper, c: Byte, color: Byte, width: nat, height: nat): Paper
    requires OnPaper(p, width, height)
  {
    if c == 10 then NewLine(p, width, color)
    else if c == 9 then MoveTo(p, p.column / 4 * 4 + 4, width, color)
    else if c == 8 then Mark(Back(p, width, height), 32, color)
    else MoveTo(Mark(p, c, color), p.column + 1, width, color)
  }

  /** The screen shows the last rows of the paper. */
  ghost predicate Shown(g: Grid, p: Paper, width: nat, height: nat) {
    && Valid(g, width, height) && OnPaper(p, width, height)
    && g.rows == p.rows[|p.rows| - height..]
    && g.row == p.line - (|p.rows| - height) && g.column == p.column
  }

  lemma BlankRowIs(width: nat, color: Byte)
    ensures BlankRow(width, color) == Blanks(width, color)
  {
  }

  lemma LastRows(rows: seq<seq<Cell>>, height: nat, last: seq<Cell>)
    requires 0 < height <= |rows|
    ensures (rows + [last])[|rows| + 1 - height..] == rows[|rows| - height..][1..] + [last]
  {
  }

  lemma NewLineShown(g: Grid, p: Paper, color: Byte, width: nat, height: nat)
    requires Shown(g, p, width, height)
    ensures Shown(NextRow(g, color), NewLine(p, width, color), width, height)
  {
    BlankRowIs(width, color);
    LastRows(p.rows, height, Blanks(width, color));
    assert |g.rows[0]| == width;
    hide Blanks;
    hide BlankRow;
  }

  lemma MarkShown(g: Grid, p: Paper, c: Byte, color: Byte, width: nat, height: nat)
    requires Shown(g, p, width, height)
    ensures Shown(SetCell(g, Entry(c, color)), Mark(p, c, color), width, height)
  {
    assert g.rows[g.row] == p.rows[p.line];
    var q := Mark(p, c, color);
    assert q.rows[|q.rows| - height..] == SetCell(g, Entry(c, color)).rows;
  }

  lemma MoveShown(g: Grid, p: Paper, column: nat, color: Byte, width: nat, height: nat)
    requires Shown(g, p, width, height)
    ensures Shown(Advance(g, column, color), MoveTo(p, column, width, color), width, height)
  {
    NewLineShown(g, p, color, width, height);
  }

  lemma BackShown(g: Grid, p: Paper, width: nat, height: nat)
    requires Shown(g, p, width, height)
    ensures Shown(StepBack(g), Back(p, width, height), width, height)
  {
  }

  lemma ShownValid(g: Grid, p: Paper, width: nat, height: nat)
    requires Shown(g, p, width, height)
    ensures Valid(g, width, height) && OnPaper(p, width, height) && g.column == p.column
    ensures g.row < |g.rows| && g.column < |g.rows[g.row]| && |g.rows| > 0 && |g.rows[0]| > 0
    ensures p.line < |p.rows| && p.column < |p.rows[p.line]| && 0 < width
  {
  }

  lemma PutShown(g: Grid, p: Paper, c: Byte, color: Byte, width: nat, height: nat)
    requires Shown(g, p, width, height)
    ensures Shown(Put(g, c, color, width, height), Print(p, c, color, width, height), width, height)
  {
    hide Shown;
    hide Valid;
    hide OnPaper;
    hide NextRow;
    hide NewLine;
    hide MoveTo;
    hide Advance;
    hide SetCell;
    hide Mark;
    hide StepBack;
    hide Back;
    ShownValid(g, p, width, height);
    if c == 10 {
      NewLineShown(g, p, color, width, height);
    } else if c == 9 {
      TabStop(g.column);
      MoveShown(g, p, p.column / 4 * 4 + 4, color, width, height);
    } else if c == 8 {
      BackShown(g, p, width, height);
      ShownValid(StepBack(g), Back(p, width, height), width, height);
      MarkShown(StepBack(g), Back(p, width, height), 32, color, width, height);
    } else {
      MarkShown(g, p, c, color, width, height);
      ShownValid(SetCell(g, Entry(c, color)), Mark(p, c, color), width, height);
      MoveShown(SetCell(g, Entry(c, color)), Mark(p, c, color), g.column + 1, color, width, height);
    }
  }

  lemma PrintOnPaper(p: Paper, c: Byte, color: Byte, width: nat, height: nat)
    requires OnPaper(p, width, height)
    ensures OnPaper(Print(p, c, color, width, height), width, height)
  {
  }

  /** A text printed on paper, character by character. */
  ghost function PrintAll(p: Paper, s: seq<Byte>, color: Byte, width: nat, height: nat): (r: Paper)
    requires OnPaper(p, width, height)
    ensures OnPaper(r, width, height)
  {
    if s == [] then p
    else
      var front := PrintAll(p, s[..|s| - 1], color, width, height);
      PrintOnPaper(front, s[|s| - 1], color, width, height);
      Print(front, s[|s| - 1], color, width, height)
  }

  /**
   The terminal shows the last rows of a roll of paper on which the same text has been printed: no row
   is lost or changed by scrolling, and what has scrolled off the top is still on the paper.
   */
  lemma {:induction false} ScreenIsWindow(g: Grid, p: Paper, s: seq<Byte>, color: Byte, width: nat, height: nat)
    requires Shown(g, p, width, height)
    ensures Shown(PutAll(g, s, color, width, height), PrintAll(p, s, color, width, height), width, height)
  {
    hide Put;
    hide Print;
    if s != [] {
      var front := s[..|s| - 1];
      ScreenIsWindow(g, p, front, color, width, height);
      PutShown(PutAll(g, front, color, width, height), PrintAll(p, front, color, width, height), s[|s| - 1], color,
               width, height);
    }
  }

  function BlankRows(width: nat, height: nat, color: Byte): (r: seq<seq<Cell>>)
    ensures |r| == height && forall y :: 0 <= y < height ==> |r[y]| == width
  {
    seq(height, _ => Blanks(width, color))
  }

  /** A cleared screen shows a paper of blank rows. */
  lemma ClearedIsBlank(width: nat, height: nat, color: Byte)
    requires 0 < width && 0 < height
    ensures var rows := seq(height, _ => BlankRow(width, color));
      Shown(Grid(BlankRows(width, height, color), 0, 0), Paper(rows, 0, 0), width, height)
  {
    assert BlankRow(width, color) == Blanks(width, color);
    assert seq(height, _ => BlankRow(width, color)) == BlankRows(width, height, color);
  }

  // ---------- The flat buffer ----------

  function Flatten(rows: seq<seq<Cell>>): seq<Cell> {
    if rows == [] then [] else rows[0] + Flatten(rows[1..])
  }

  lemma OneRow(n: int, width: int)
    ensures width + n * width == (n + 1) * width
  {
  }

  lemma {:induction false} FlattenLength(rows: seq<seq<Cell>>, width: nat)
    requires forall y :: 0 <= y < |rows| ==> |rows[y]| == width
    ensures |Flatten(rows)| == |rows| * width
  {
    if rows != [] {
      FlattenLength(rows[1..], width);
      OneRow(|rows| - 1, width);
    }
  }

  lemma {:induction false} FlattenSnoc(rows: seq<seq<Cell>>, last: seq<Cell>)
    ensures Flatten(rows + [last]) == Flatten(rows) + last
  {
    if rows == [] {
      assert [last][1..] == [];
      assert Flatten([last]) == last + Flatten([]);
      assert rows + [last] == [last];
    } else {
      assert (rows + [last])[1..] == rows[1..] + [last];
      FlattenSnoc(rows[1..], last);
      assert rows[0] + (Flatten(rows[1..]) + last) == rows[0] + Flatten(rows[1..]) + last;
    }
  }

  /** Scrolling drops the first width cells and appends the blank row. */
  lemma FlattenScrolled(rows: seq<seq<Cell>>, blank: seq<Cell>)
    requires |rows| > 0
    ensures Flatten(Scrolled(rows, blank)) == Flatten(rows)[|rows[0]|..] + blank
  {
    FlattenSnoc(rows[1..], blank);
  }

  lemma UpdateBehind(a: seq<Cell>, b: seq<Cell>, i: nat, c: Cell)
    requires i < |b|
    ensures (a + b)[|a| + i := c] == a + b[i := c]
  {
  }

  /** Cell (y, x) is at y * width + x. */
  lemma {:induction false} FlattenUpdate(rows: seq<seq<Cell>>, width: nat, y: nat, x: nat, c: Cell)
    requires forall i :: 0 <= i < |rows| ==> |rows[i]| == width
    requires y < |rows| && x < width
    ensures 0 <= y * width + x < |Flatten(rows)|
    ensures Flatten(rows)[y * width + x := c] == Flatten(WithCell(rows, y, x, c))
    decreases y
  {
    FlattenLength(rows, width);
    var rows' := WithCell(rows, y, x, c);
    if y == 0 {
      assert rows'[1..] == rows[1..];
    } else {
      FlattenUpdate(rows[1..], width, y - 1, x, c);
      OneRow(y - 1, width);
      assert rows'[1..] == WithCell(rows[1..], y - 1, x, c);
      UpdateBehind(rows[0], Flatten(rows[1..]), (y - 1) * width + x, c);
    }
  }

  lemma {:induction false} FlattenBlank(width: nat, height: nat, color: Byte)
    ensures forall c <- Flatten(BlankRows(width, height, color)) :: c == Entry(SPACE, color)
  {
    if height > 0 {
      assert BlankRows(width, height, color)[1..] == BlankRows(width, height - 1, color);
      FlattenBlank(width, height - 1, color);
    }
  }
}

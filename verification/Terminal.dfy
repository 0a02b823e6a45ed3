/** The text terminal inside `sh_render`, and the unbounded page its screen is a window on. */
module Terminal {
  import opened Words

  const CARRIAGE_RETURN: Byte := 13
  const LINE_FEED: Byte := 10
  const SPACE: Byte := 32

  datatype Cell = Cell(character: Byte, color: Byte)

  function BlankRow(width: nat, color: Byte): seq<Cell> {
    seq(width, _ => Cell(SPACE, color))
  }

  // ---------------------------------------------------------------- the page

  /** A page of rows that only ever grows; the cursor is at row `row`, column `col`. */
  datatype Page = Page(rows: seq<seq<Cell>>, row: nat, col: nat) {

    /** A page starts with `height` rows and has a row for every line the cursor has reached. */
    ghost predicate Valid(width: nat, height: nat) {
      && |rows| == Max(height, row + 1)
      && col < width
      && forall i | 0 <= i < |rows| :: |rows[i]| == width
    }

    /** The first row on display. */
    function Top(height: nat): nat {
      Max(0, row - height + 1)
    }

    function NextLine(width: nat, color: Byte): Page {
      Page(if row + 1 < |rows| then rows else rows + [BlankRow(width, color)], row + 1, 0)
    }

    function Type(width: nat, c: Cell): Page
      requires row < |rows| && col < |rows[row]|
    {
      if c.character == CARRIAGE_RETURN then
        this.(col := 0)
      else if c.character == LINE_FEED then
        NextLine(width, c.color)
      else
        var typed := this.(rows := rows[row := rows[row][col := c]]);
        if col + 1 < width then typed.(col := col + 1) else typed.NextLine(width, c.color)
    }

    function TypeAll(width: nat, height: nat, text: seq<Cell>): (p: Page)
      requires Valid(width, height)
      ensures p.Valid(width, height)
      decreases text
    {
      if text == [] then this
      else
        var p := TypeAll(width, height, text[..|text| - 1]);
        p.TypeKeepsValid(width, height, text[|text| - 1]);
        p.Type(width, text[|text| - 1])
    }

    lemma TypeKeepsValid(width: nat, height: nat, c: Cell)
      requires Valid(width, height)
      ensures Type(width, c).Valid(width, height)
    {
    }
  }

  function BlankPage(width: nat, height: nat, color: Byte): Page {
    Page(seq(height, _ => BlankRow(width, color)), 0, 0)
  }

  /** Lines the cursor has left are never touched again. */
  lemma {:induction false} ScrollbackIsFinal(p: Page, width: nat, height: nat, text: seq<Cell>)
    requires p.Valid(width, height)
    ensures p.row <= p.TypeAll(width, height, text).row
    ensures p.TypeAll(width, height, text).rows[..p.row] == p.rows[..p.row]
    decreases text
  {
    if text != [] {
      ScrollbackIsFinal(p, width, height, text[..|text| - 1]);
    }
  }

  // ---------------------------------------------------------------- the screen

  /** The cells of the display, row after row, and the cursor as an index into them. */
  datatype Screen = Screen(cells: seq<Cell>, cursor: nat) {

    /** `sh_scroll` followed by moving the cursor up a row, when the cursor has left the screen. */
    function Scrolled(width: nat, color: Byte): Screen
      requires 0 < width <= |cells|
    {
      if cursor >= |cells| then Screen(cells[width..] + BlankRow(width, color), cursor - width) else this
    }

    function Put(width: nat, c: Cell): Screen
      requires 0 < width <= |cells|
    {
      if c.character == CARRIAGE_RETURN then
        this.(cursor := cursor - cursor % width)
      else if c.character == LINE_FEED then
        this.(cursor := cursor + (width - cursor % width)).Scrolled(width, c.color)
      else if cursor < |cells| then
        Screen(cells[cursor := c], cursor + 1).Scrolled(width, c.color)
      else
        this
    }

    function PutAll(width: nat, text: seq<Cell>): (s: Screen)
      requires 0 < width <= |cells|
      ensures |s.cells| == |cells|
      decreases text
    {
      if text == [] then this else PutAll(width, text[..|text| - 1]).Put(width, text[|text| - 1])
    }
  }

  lemma {:induction false} PutAllConcat(s: Screen, width: nat, a: seq<Cell>, b: seq<Cell>)
    requires 0 < width <= |s.cells|
    ensures s.PutAll(width, a + b) == s.PutAll(width, a).PutAll(width, b)
    decreases b
  {
    if b == [] {
      assert a + b == a;
    } else {
      var n := |b| - 1;
      PutAllConcat(s, width, a, b[..n]);
      assert (a + b)[..|a + b| - 1] == a + b[..n];
    }
  }

  /** A row of the screen ends within the screen, and so does the next one, if there is one. */
  lemma RowFits(row: nat, height: nat, width: nat)
    requires row < height
    ensures StartOf(row, width) + width == StartOf(row + 1, width) <= StartOf(height, width)
    ensures row + 1 < height ==> StartOf(row + 1, width) + width <= StartOf(height, width)
  {
    NextStart(row, width);
    NextStart(row + 1, width);
    MulMono(row + 1, height, width);
    if row + 1 < height {
      MulMono(row + 2, height, width);
    }
  }

  /** The column of a cell. */
  lemma ColumnOf(row: nat, width: nat, col: nat)
    requires col < width
    ensures (StartOf(row, width) + col) % width == col
  {
    QuotientRemainder(row, width, col);
  }

  function Flatten(rows: seq<seq<Cell>>): seq<Cell> {
    if rows == [] then [] else rows[0] + Flatten(rows[1..])
  }

  /** The screen shows the last `height` rows of the page, that is, rows
      `max(0, row - height + 1)` onward, and the two cursors point at the same cell. */
  ghost predicate Shows(s: Screen, p: Page, width: nat, height: nat) {
    && 0 < width && 0 < height
    && p.Valid(width, height)
    && s.cells == Flatten(p.rows[p.Top(height)..])
    && s.cursor == StartOf(p.row - p.Top(height), width) + p.col
  }

  // ---------------------------------------------------------------- rows and flat cells

  lemma {:induction false} FlattenSize(rows: seq<seq<Cell>>, width: nat)
    requires forall i | 0 <= i < |rows| :: |rows[i]| == width
    ensures |Flatten(rows)| == StartOf(|rows|, width)
  {
    hide StartOf;
    NextStart(0, width);
    if rows != [] {
      FlattenSize(rows[1..], width);
      NextStart(|rows| - 1, width);
    }
  }

  lemma {:induction false} FlattenAppend(rows: seq<seq<Cell>>, r: seq<Cell>)
    ensures Flatten(rows + [r]) == Flatten(rows) + r
  {
    if rows == [] {
      assert Flatten([r]) == r + Flatten([]);
    } else {
      FlattenAppend(rows[1..], r);
      assert (rows + [r])[1..] == rows[1..] + [r];
      assert Flatten(rows + [r]) == rows[0] + (Flatten(rows[1..]) + r);
    }
  }

  lemma {:induction false} FlattenUpdate(rows: seq<seq<Cell>>, width: nat, i: nat, j: nat, c: Cell)
    requires forall i | 0 <= i < |rows| :: |rows[i]| == width
    requires i < |rows| && j < width
    ensures StartOf(i, width) + j < |Flatten(rows)|
    ensures Flatten(rows[i := rows[i][j := c]]) == Flatten(rows)[StartOf(i, width) + j := c]
  {
    hide StartOf;
    NextStart(0, width);
    var updated := rows[i := rows[i][j := c]];
    FlattenSize(rows[1..], width);
    if i == 0 {
      assert updated[1..] == rows[1..];
    } else {
      FlattenUpdate(rows[1..], width, i - 1, j, c);
      assert updated[1..] == rows[1..][i - 1 := rows[1..][i - 1][j := c]];
      NextStart(i - 1, width);
    }
  }

  // ---------------------------------------------------------------- the refinement

  lemma WindowIsScreenful(s: Screen, p: Page, width: nat, height: nat)
    requires Shows(s, p, width, height)
    ensures s.cursor < |s.cells| == StartOf(height, width)
  {
    hide StartOf;
    var top := p.Top(height);
    FlattenSize(p.rows[top..], width);
    assert |p.rows[top..]| == height;
    RowFits(p.row - top, height, width);
  }

  /** Going to the next line on the page is moving to the next row start on the screen, and
      scrolling when that is off the screen. */
  lemma NextLineRefines(s: Screen, p: Page, width: nat, height: nat, color: Byte)
    requires Shows(s, p, width, height)
    requires width <= |s.cells|
    ensures Shows(Screen(s.cells, s.cursor - p.col + width).Scrolled(width, color), p.NextLine(width, color),
                  width, height)
  {
    hide Flatten, StartOf;
    WindowIsScreenful(s, p, width, height);
    var top := p.Top(height);
    RowFits(p.row - top, height, width);
    var q := p.NextLine(width, color);
    if p.row + 1 < |p.rows| {
      assert q.Top(height) == top;
    } else {
      assert p.row - top + 1 == height;
      ScrollRefines(p.rows[top..], width, color);
      assert q.rows[top + 1..] == p.rows[top..][1..] + [BlankRow(width, color)];
      assert q.row - q.Top(height) == p.row - top;
    }
  }

  lemma ScrollRefines(window: seq<seq<Cell>>, width: nat, color: Byte)
    requires window != [] && |window[0]| == width
    ensures |Flatten(window)| >= width
    ensures Flatten(window[1..] + [BlankRow(width, color)]) == Flatten(window)[width..] + BlankRow(width, color)
  {
    FlattenAppend(window[1..], BlankRow(width, color));
    assert Flatten(window) == window[0] + Flatten(window[1..]);
    assert Flatten(window)[width..] == Flatten(window[1..]);
  }

  /** One character: the screen steps as a window on the page. */
  lemma PutRefines(s: Screen, p: Page, width: nat, height: nat, c: Cell)
    requires Shows(s, p, width, height) && width <= |s.cells|
    ensures Shows(s.Put(width, c), p.Type(width, c), width, height)
  {
    hide Flatten, StartOf;
    WindowIsScreenful(s, p, width, height);
    ColumnOf(p.row - p.Top(height), width, p.col);
    assert s.cursor - s.cursor % width == s.cursor - p.col;
    if c.character == CARRIAGE_RETURN {
    } else if c.character == LINE_FEED {
      NextLineRefines(s, p, width, height, c.color);
    } else {
      StoreRefines(s, p, width, height, c);
    }
  }

  lemma StoreRefines(s: Screen, p: Page, width: nat, height: nat, c: Cell)
    requires Shows(s, p, width, height) && width <= |s.cells| && s.cursor < |s.cells|
    requires c.character != CARRIAGE_RETURN && c.character != LINE_FEED
    ensures Shows(s.Put(width, c), p.Type(width, c), width, height)
  {
    hide Flatten, StartOf;
    var top := p.Top(height);
    var window := p.rows[top..];
    var typed := p.(rows := p.rows[p.row := p.rows[p.row][p.col := c]]);
    var stored := Screen(s.cells[s.cursor := c], s.cursor);
    FlattenUpdate(window, width, p.row - top, p.col, c);
    assert typed.rows[top..] == window[p.row - top := window[p.row - top][p.col := c]];
    assert Shows(stored, typed, width, height);
    if p.col + 1 < width {
      var moved := Screen(stored.cells, s.cursor + 1);
      assert Shows(moved, typed.(col := p.col + 1), width, height);
      WindowIsScreenful(moved, typed.(col := p.col + 1), width, height);
    } else {
      NextLineRefines(stored, typed, width, height, c.color);
    }
  }

  /** Every text: the screen stays a window on the page and the cursor stays on the screen. */
  lemma {:induction false} TerminalRefinement(s: Screen, p: Page, width: nat, height: nat, text: seq<Cell>)
    requires Shows(s, p, width, height) && width <= |s.cells|
    ensures Shows(s.PutAll(width, text), p.TypeAll(width, height, text), width, height)
    ensures s.PutAll(width, text).cursor < |s.PutAll(width, text).cells| == StartOf(height, width)
    decreases text
  {
    if text != [] {
      var n := |text| - 1;
      TerminalRefinement(s, p, width, height, text[..n]);
      PutRefines(s.PutAll(width, text[..n]), p.TypeAll(width, height, text[..n]), width, height, text[n]);
    }
    WindowIsScreenful(s.PutAll(width, text), p.TypeAll(width, height, text), width, height);
  }

  /** The screen `sh_clear` leaves behind shows the blank page. */
  lemma ClearShowsBlankPage(width: nat, height: nat, color: Byte)
    requires 0 < width && 0 < height
    ensures Shows(Screen(BlankRow(StartOf(height, width), color), 0), BlankPage(width, height, color), width, height)
  {
    var page := BlankPage(width, height, color);
    FlattenBlank(width, height, color);
    assert page.rows[0..] == page.rows;
  }

  lemma {:induction false} FlattenBlank(width: nat, n: nat, color: Byte)
    ensures Flatten(seq(n, _ => BlankRow(width, color))) == BlankRow(StartOf(n, width), color)
  {
    hide StartOf;
    NextStart(0, width);
    var rows := seq(n, _ => BlankRow(width, color));
    FlattenSize(rows, width);
    if n > 0 {
      FlattenBlank(width, n - 1, color);
      assert rows[1..] == seq(n - 1, _ => BlankRow(width, color));
      NextStart(n - 1, width);
    }
  }

  // ---------------------------------------------------------------- what a page and a window are

  /** Cell by cell: screen row `i` is page row `max(0, row - height + 1) + i`. */
  lemma ShownCell(s: Screen, p: Page, width: nat, height: nat, i: nat, j: nat)
    requires Shows(s, p, width, height) && i < height && j < width
    ensures var top := if p.row < height then 0 else p.row - height + 1;
            && i * width + j < |s.cells| && top + i < |p.rows| && j < |p.rows[top + i]|
            && s.cells[i * width + j] == p.rows[top + i][j]
            && top <= p.row && s.cursor == (p.row - top) * width + p.col
  {
    var window := p.rows[p.Top(height)..];
    FlattenAt(window, width, i, j);
  }

  lemma {:induction false} FlattenAt(rows: seq<seq<Cell>>, width: nat, i: nat, j: nat)
    requires forall i | 0 <= i < |rows| :: |rows[i]| == width
    requires i < |rows| && j < width
    ensures StartOf(i, width) + j < |Flatten(rows)| && Flatten(rows)[StartOf(i, width) + j] == rows[i][j]
    decreases rows
  {
    hide StartOf;
    NextStart(0, width);
    FlattenSize(rows[1..], width);
    if i > 0 {
      FlattenAt(rows[1..], width, i - 1, j);
      NextStart(i - 1, width);
    }
  }

  /** A carriage return goes to the first column and a line feed to the next line; both leave the page
      as it is, but for the blank line, in the colour of the line feed, that a new last line begins as. */
  lemma ControlCharacters(p: Page, width: nat, height: nat, color: Byte)
    requires p.Valid(width, height)
    ensures p.Type(width, Cell('\r' as int, color)) == Page(p.rows, p.row, 0)
    ensures var q := p.Type(width, Cell('\n' as int, color));
            && q.row == p.row + 1 && q.col == 0
            && p.rows <= q.rows && |q.rows| == Max(|p.rows|, p.row + 2)
            && forall i, j | |p.rows| <= i < |q.rows| && 0 <= j < width :: q.rows[i][j] == Cell(' ' as int, color)
  {
  }

  /** Any other character goes where the cursor is, which moves on by one cell, at the end of a line to
      the next; no other cell of the page changes. */
  lemma PlainCharacter(p: Page, width: nat, height: nat, c: Cell)
    requires p.Valid(width, height) && c.character != '\r' as int && c.character != '\n' as int
    ensures var q := p.Type(width, c);
            && q.row * width + q.col == p.row * width + p.col + 1
            && q.Valid(width, height)
            && (forall i, j | 0 <= i < |p.rows| && 0 <= j < width ::
                  q.rows[i][j] == if i == p.row && j == p.col then c else p.rows[i][j])
            && (forall i, j | |p.rows| <= i < |q.rows| && 0 <= j < width :: q.rows[i][j] == Cell(' ' as int, c.color))
  {
    p.TypeKeepsValid(width, height, c);
    NextStart(p.row, width);
  }

  /** A text is typed character by character. */
  lemma TypedInOrder(p: Page, width: nat, height: nat, text: seq<Cell>, c: Cell)
    requires p.Valid(width, height)
    ensures p.TypeAll(width, height, []) == p
    ensures p.TypeAll(width, height, text + [c]) == p.TypeAll(width, height, text).Type(width, c)
  {
    assert (text + [c])[..|text|] == text;
  }

  lemma BlankPageIsBlank(width: nat, height: nat, color: Byte)
    ensures var p := BlankPage(width, height, color);
            && p.row == 0 && p.col == 0 && |p.rows| == height
            && forall i | 0 <= i < height ::
                 |p.rows[i]| == width && forall j | 0 <= j < width :: p.rows[i][j] == Cell(' ' as int, color)
  {
  }
}

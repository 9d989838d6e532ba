/**
 One 80x25 text screen: its video page, the cursor, and what writing a byte should do to
 them. The reference is a text wrapped eagerly at 80 columns into an unbounded list of
 rows; a screen shows its last 25.
 */
module TextScreen {
  import opened Bytes

  const COLS: nat := 80
  const ROWS: nat := 25
  const PAGE: nat := 4096
  const GRID_BYTES: nat := 4000
  const ATTRIB: byte := 7

  /** The page holds a character and an attribute byte per cell, then 96 unused bytes. */
  datatype Screen = Screen(cells: seq<byte>, x: nat, y: nat)

  predicate OnGrid(s: Screen) {
    |s.cells| == PAGE && s.x < COLS && s.y < ROWS
  }

  /** Whether the cursor's cell lies inside the page. */
  predicate InPage(s: Screen) {
    |s.cells| == PAGE && COLS * s.y + s.x < PAGE / 2
  }

  function Offset(s: Screen): nat { 2 * (COLS * s.y + s.x) }

  function PutCell(s: Screen, c: byte): (r: seq<byte>)
    requires InPage(s)
    ensures |r| == PAGE
  {
    s.cells[Offset(s) := c][Offset(s) + 1 := ATTRIB]
  }

  predicate IsBreak(c: byte) { c == NEWLINE || c == RETURN }

  /** Putting `c` at the cursor stores nothing outside the page. */
  predicate Storable(s: Screen, c: byte) {
    |s.cells| == PAGE && (IsBreak(c) || InPage(s))
  }

  /** putc: it never leaves the row when it wraps. */
  function PutChar(s: Screen, c: byte): (r: Screen)
    requires Storable(s, c)
    ensures |r.cells| == PAGE && r.x < COLS
  {
    if IsBreak(c) then s.(x := 0, y := s.y + 1)
    else Screen(PutCell(s, c), (s.x + 1) % COLS, s.y % ROWS)
  }

  function BlankByte(k: nat): byte { if k % 2 == 0 then SPACE else ATTRIB }

  function ScrolledByte(cells: seq<byte>, k: nat): byte
    requires |cells| == PAGE && k < PAGE
  {
    if k >= GRID_BYTES then cells[k]
    else if k % 2 == 0 && k < GRID_BYTES - 2 * COLS then cells[k + 2 * COLS]
    else BlankByte(k)
  }

  /** Every row moves up one, the last becomes blank; the unused tail stays. */
  function Scrolled(cells: seq<byte>): (r: seq<byte>)
    requires |cells| == PAGE
    ensures |r| == PAGE
  {
    seq(PAGE, k requires 0 <= k < PAGE => ScrolledByte(cells, k))
  }

  /** Cell (r, k) of a page holds character `c` in the standard attribute. */
  predicate CellIs(cells: seq<byte>, r: nat, k: nat, c: byte)
    requires |cells| == PAGE && r < ROWS && k < COLS
  {
    cells[2 * (COLS * r + k)] == c && cells[2 * (COLS * r + k) + 1] == ATTRIB
  }

  /** Cell (r, k) of `after` holds what stood one row lower in `before`; the last row is blank. */
  predicate MovedUp(before: seq<byte>, after: seq<byte>, r: nat, k: nat)
    requires |before| == |after| == PAGE && r < ROWS && k < COLS
  {
    CellIs(after, r, k, if r < ROWS - 1 then before[2 * (COLS * (r + 1) + k)] else SPACE)
  }

  lemma ScrolledMovesUp(cells: seq<byte>)
    requires |cells| == PAGE
    ensures forall r, k :: 0 <= r < ROWS && 0 <= k < COLS ==> MovedUp(cells, Scrolled(cells), r, k)
  {}

  function Cleared(cells: seq<byte>): (r: seq<byte>)
    requires |cells| == PAGE
  {
    seq(PAGE, k requires 0 <= k < PAGE => if k < GRID_BYTES then BlankByte(k) else cells[k])
  }

  // ---------- What a written byte should do ----------

  function Newline(s: Screen): Screen
    requires |s.cells| == PAGE
  {
    if s.y != ROWS - 1 then s.(x := 0, y := s.y + 1) else Screen(Scrolled(s.cells), 0, ROWS - 1)
  }

  /** Print one byte at the cursor. Carriage return is not the newline it is meant to be: it
      moves two rows from the last column, and off the grid from the bottom row. A character
      printed below the grid goes to the unused tail of the page, and the cursor wraps round
      to the top. */
  function Emit(s: Screen, c: byte): (r: Screen)
    requires Storable(s, c)
    ensures |r.cells| == PAGE && (s.x < COLS ==> r.x < COLS)
  {
    if c == NEWLINE || (c == RETURN && s.x == COLS - 1 && s.y == ROWS - 1) then Newline(s)
    else if c == RETURN then s.(x := 0, y := s.y + if s.x == COLS - 1 then 2 else 1)
    else
      var put := s.(cells := PutCell(s, c), y := s.y % ROWS);
      if s.x < COLS - 1 then put.(x := s.x + 1) else Newline(put)
  }

  /** Exactly the carriage returns near the bottom lose the grid. */
  predicate LeavesGrid(s: Screen, c: byte) {
    c == RETURN && ((s.y == ROWS - 1 && s.x < COLS - 1) || (s.y == ROWS - 2 && s.x == COLS - 1))
  }

  lemma EmitStaysOnGrid(s: Screen, c: byte)
    requires OnGrid(s)
    ensures OnGrid(Emit(s, c)) <==> !LeavesGrid(s, c)
  {}

  /** Elsewhere a carriage return is a newline, or two from the last column. */
  lemma ReturnAboveBottom(s: Screen)
    requires OnGrid(s) && s.y < ROWS - 2
    ensures Emit(s, RETURN) == Screen(s.cells, 0, s.y + if s.x == COLS - 1 then 2 else 1)
  {}

  /** Every byte of `text` can be printed without a store outside the page. */
  predicate Printable(s: Screen, text: seq<byte>)
    decreases |text|
  {
    text == [] || (Storable(s, text[0]) && Printable(Emit(s, text[0]), text[1..]))
  }

  function EmitAll(s: Screen, text: seq<byte>): (r: Screen)
    requires Printable(s, text)
    ensures |s.cells| == PAGE ==> |r.cells| == PAGE
    ensures s.x < COLS ==> r.x < COLS
    decreases |text|
  {
    if text == [] then s else EmitAll(Emit(s, text[0]), text[1..])
  }

  /** A carriage return on the bottom row: the next character disappears and the cursor goes on
      in the top row; after a second return the next character would be stored outside the
      page. */
  lemma {:induction false} ReturnOnBottomRow(s: Screen, c: byte)
    requires OnGrid(s) && s.y == ROWS - 1 && s.x < COLS - 1 && !IsBreak(c)
    ensures var below := Emit(s, RETURN);
      && !OnGrid(below) && Storable(below, c) && Emit(below, c).x == 1 && Emit(below, c).y == 0
      && Emit(below, c).cells[..GRID_BYTES] == s.cells[..GRID_BYTES]
      && !Storable(Emit(below, RETURN), c)
  {
    var below := Emit(s, RETURN);
    assert Offset(below) == GRID_BYTES;
  }

  lemma {:induction false} PlainTextIsPrintable(s: Screen, text: seq<byte>)
    requires OnGrid(s) && RETURN !in text
    ensures Printable(s, text) && OnGrid(EmitAll(s, text))
    decreases |text|
  {
    if text != [] {
      EmitStaysOnGrid(s, text[0]);
      PlainTextIsPrintable(Emit(s, text[0]), text[1..]);
    }
  }

  // ---------- The reference: wrapped text ----------

  /** Appends a byte to a list of rows; a row that reaches 80 characters is closed at once. */
  function AddByte(rows: seq<seq<byte>>, c: byte): (r: seq<seq<byte>>)
    requires rows != []
    ensures r != []
  {
    var last := rows[|rows| - 1];
    if c == NEWLINE then rows + [[]]
    else
      var r := rows[|rows| - 1 := last + [c]];
      if |last| + 1 == COLS then r + [[]] else r
  }

  function AddAll(rows: seq<seq<byte>>, text: seq<byte>): (r: seq<seq<byte>>)
    requires rows != []
    ensures r != []
    decreases |text|
  {
    if text == [] then rows else AddAll(AddByte(rows, text[0]), text[1..])
  }

  function Wrap(text: seq<byte>): (r: seq<seq<byte>>) {
    AddAll([[]], text)
  }

  function Flat(rows: seq<seq<byte>>): seq<byte> {
    if rows == [] then [] else Flat(rows[..|rows| - 1]) + rows[|rows| - 1]
  }

  function WithoutNewlines(text: seq<byte>): seq<byte> {
    if text == [] then [] else (if text[0] == NEWLINE then [] else [text[0]]) + WithoutNewlines(text[1..])
  }

  function Newlines(text: seq<byte>): nat {
    if text == [] then 0 else (if text[0] == NEWLINE then 1 else 0) + Newlines(text[1..])
  }

  function FullRows(rows: seq<seq<byte>>): nat {
    if rows == [] then 0
    else FullRows(rows[..|rows| - 1]) + if |rows[|rows| - 1]| == COLS then 1 else 0
  }

  /** No row is longer than 80, and the last one has room. */
  ghost predicate RowsFit(rows: seq<seq<byte>>) {
    rows != [] && |rows[|rows| - 1]| < COLS && forall k :: 0 <= k < |rows| ==> |rows[k]| <= COLS
  }

  lemma {:induction false} FlatLast(rows: seq<seq<byte>>, last: seq<byte>)
    ensures Flat(rows + [last]) == Flat(rows) + last
    ensures FullRows(rows + [last]) == FullRows(rows) + if |last| == COLS then 1 else 0
  {
    assert (rows + [last])[..|rows|] == rows;
  }

  lemma {:induction false} Associate(a: seq<byte>, b: seq<byte>, c: seq<byte>)
    ensures a + b + c == a + (b + c)
  {}

  lemma {:induction false} AddByteKeeps(rows: seq<seq<byte>>, c: byte)
    requires rows != [] && RowsFit(rows)
    ensures var r := AddByte(rows, c);
      && Flat(r) == Flat(rows) + (if c == NEWLINE then [] else [c]) && RowsFit(r)
      && |r| - FullRows(r) == |rows| - FullRows(rows) + if c == NEWLINE then 1 else 0
  {
    hide Flat, FullRows;
    var n := |rows| - 1;
    var init, last := rows[..n], rows[n];
    assert rows == init + [last];
    FlatLast(init, last);
    if c == NEWLINE {
      FlatLast(rows, []);
      assert Flat(rows) + [] == Flat(rows);
    } else {
      var longer := init + [last + [c]];
      assert rows[n := last + [c]] == longer;
      FlatLast(init, last + [c]);
      FlatLast(longer, []);
      Associate(Flat(init), last, [c]);
      assert Flat(longer) + [] == Flat(longer);
    }
  }

  lemma {:induction false} AddAllKeeps(rows: seq<seq<byte>>, text: seq<byte>)
    requires rows != [] && RowsFit(rows)
    ensures var r := AddAll(rows, text);
      && Flat(r) == Flat(rows) + WithoutNewlines(text) && RowsFit(r)
      && |r| - FullRows(r) == |rows| - FullRows(rows) + Newlines(text)
    decreases |text|
  {
    hide Flat, FullRows, AddByte, RowsFit;
    if text == [] {
      assert Flat(rows) + [] == Flat(rows);
    } else {
      var c, rest := text[0], text[1..];
      AddByteKeeps(rows, c);
      AddAllKeeps(AddByte(rows, c), rest);
      Associate(Flat(rows), if c == NEWLINE then [] else [c], WithoutNewlines(rest));
    }
  }

  /** Wrapping keeps every character in order, and starts a new row exactly for each newline and
      after each row of 80. */
  lemma {:induction false} WrapKeepsEveryByte(text: seq<byte>)
    ensures Flat(Wrap(text)) == WithoutNewlines(text)
    ensures |Wrap(text)| == 1 + Newlines(text) + FullRows(Wrap(text))
    ensures RowsFit(Wrap(text))
  {
    AddAllKeeps([[]], text);
    var none: seq<seq<byte>> := [];
    FlatLast(none, []);
    assert none + [[]] == [[]];
    assert Flat([[]]) == [] && [] + WithoutNewlines(text) == WithoutNewlines(text);
  }

  /** The character of row `r`, column `k` of a window on the last 25 rows, written over the
      page `back`, whose rows move up with the text. */
  function ShownAt(rows: seq<seq<byte>>, back: seq<byte>, r: nat, k: nat): byte
    requires |back| == PAGE && k < COLS
  {
    var i := r + if |rows| <= ROWS then 0 else |rows| - ROWS;
    if i < |rows| && k < |rows[i]| then rows[i][k]
    else if i < ROWS then back[2 * (COLS * i + k)]
    else SPACE
  }

  /** Its attribute: the background's until the cell is written or the screen scrolls. */
  function AttribAt(rows: seq<seq<byte>>, back: seq<byte>, r: nat, k: nat): byte
    requires |back| == PAGE && r < ROWS && k < COLS
  {
    if |rows| > ROWS || (r < |rows| && k < |rows[r]|) then ATTRIB else back[2 * (COLS * r + k) + 1]
  }

  ghost predicate CellsShow(cells: seq<byte>, rows: seq<seq<byte>>, back: seq<byte>) {
    && |cells| == |back| == PAGE
    && forall r, k :: 0 <= r < ROWS && 0 <= k < COLS ==> CellShows(cells, rows, back, r, k)
  }

  predicate CellShows(cells: seq<byte>, rows: seq<seq<byte>>, back: seq<byte>, r: int, k: int)
    requires |cells| == |back| == PAGE && 0 <= r < ROWS && 0 <= k < COLS
  {
    var i := 2 * (COLS * r + k);
    cells[i] == ShownAt(rows, back, r, k) && cells[i + 1] == AttribAt(rows, back, r, k)
  }

  /** The grid is the last 25 rows over `back` and the cursor stands at the end of the text. */
  ghost predicate Shows(s: Screen, rows: seq<seq<byte>>, back: seq<byte>) {
    && rows != [] && CellsShow(s.cells, rows, back)
    && s.y == (if |rows| <= ROWS then |rows| else ROWS) - 1
    && s.x == |rows[|rows| - 1]| < COLS
  }

  lemma PutCellShows(s: Screen, rows: seq<seq<byte>>, back: seq<byte>, c: byte)
    requires Shows(s, rows, back)
    ensures CellsShow(PutCell(s, c), rows[|rows| - 1 := rows[|rows| - 1] + [c]], back)
  {
    var rows' := rows[|rows| - 1 := rows[|rows| - 1] + [c]];
    var cells' := PutCell(s, c);
    forall r, k | 0 <= r < ROWS && 0 <= k < COLS
      ensures CellShows(cells', rows', back, r, k)
    {
      assert CellShows(s.cells, rows, back, r, k);
    }
  }

  lemma NewlineShows(s: Screen, rows: seq<seq<byte>>, back: seq<byte>)
    requires rows != [] && CellsShow(s.cells, rows, back)
    requires s.y == (if |rows| <= ROWS then |rows| else ROWS) - 1
    ensures Shows(Newline(s), rows + [[]], back)
  {
    var rows' := rows + [[]];
    var cells' := Newline(s).cells;
    forall r, k | 0 <= r < ROWS && 0 <= k < COLS
      ensures CellShows(cells', rows', back, r, k)
    {
      if s.y < ROWS - 1 {
        assert CellShows(s.cells, rows, back, r, k);
      } else if r < ROWS - 1 {
        assert CellShows(s.cells, rows, back, r + 1, k);
      }
    }
  }

  lemma EmitShows(s: Screen, rows: seq<seq<byte>>, back: seq<byte>, c: byte)
    requires Shows(s, rows, back) && c != RETURN
    ensures Shows(Emit(s, c), AddByte(rows, c), back)
  {
    if c == NEWLINE {
      NewlineShows(s, rows, back);
    } else {
      PutCellShows(s, rows, back, c);
      if s.x == COLS - 1 {
        NewlineShows(s.(cells := PutCell(s, c)), rows[|rows| - 1 := rows[|rows| - 1] + [c]], back);
      }
    }
  }

  lemma {:induction false} EmitAllShows(s: Screen, rows: seq<seq<byte>>, back: seq<byte>, text: seq<byte>)
    requires Shows(s, rows, back) && RETURN !in text
    ensures Printable(s, text) && Shows(EmitAll(s, text), AddAll(rows, text), back)
    decreases |text|
  {
    PlainTextIsPrintable(s, text);
    if text != [] {
      EmitShows(s, rows, back, text[0]);
      EmitAllShows(Emit(s, text[0]), AddByte(rows, text[0]), back, text[1..]);
    }
  }

  /** With the cursor home a screen shows no text over whatever it holds. */
  lemma HomeShowsNothing(cells: seq<byte>)
    requires |cells| == PAGE
    ensures Shows(Screen(cells, 0, 0), Wrap([]), cells)
  {
    forall r, k | 0 <= r < ROWS && 0 <= k < COLS
      ensures CellShows(cells, [[]], cells, r, k)
    {}
  }

  /** Over a cleared page every cell is a character of the text or a blank. */
  lemma ShownOverBlank(s: Screen, rows: seq<seq<byte>>, cells: seq<byte>, r: nat, k: nat)
    requires |cells| == PAGE && Shows(s, rows, Cleared(cells)) && r < ROWS && k < COLS
    ensures var i := r + if |rows| <= ROWS then 0 else |rows| - ROWS;
      && s.cells[2 * (COLS * r + k)] == (if i < |rows| && k < |rows[i]| then rows[i][k] else SPACE)
      && s.cells[2 * (COLS * r + k) + 1] == ATTRIB
  {
    assert CellShows(s.cells, rows, Cleared(cells), r, k);
  }

  lemma {:induction false} AddAllConcat(rows: seq<seq<byte>>, a: seq<byte>, b: seq<byte>)
    requires rows != []
    ensures AddAll(rows, a + b) == AddAll(AddAll(rows, a), b)
    decreases |a|
  {
    if a == [] {
      assert a + b == b;
    } else {
      assert (a + b)[1..] == a[1..] + b;
      AddAllConcat(AddByte(rows, a[0]), a[1..], b);
    }
  }
}

/**
 What written text looks like on a screen, said without stepping from byte to byte: rows
 of text, of which a screen shows the last ones.
 */
module ScreenText {
  import opened Common
  import opened Screens

  ghost predicate IsLine(text: seq<byte>) {
    NEWLINE !in text && RETURN !in text
  }

  // --------------------------------------------------------------------- one line

  /** The cell of row `y` for byte `k` of a line whose first byte is in column `x`. */
  function Place(x: nat, y: nat, k: nat): nat {
    COLS * y + (x + k) % COLS
  }

  /** One of the first `n` bytes of the line lands in cell `i`. */
  ghost predicate Lands(x: nat, y: nat, n: nat, i: nat) {
    exists k: nat :: k < n && Place(x, y, k) == i
  }

  lemma PlacesDiffer(x: nat, y: nat, k: nat, n: nat)
    requires k < n < k + COLS
    ensures Place(x, y, k) != Place(x, y, n)
  {
  }

  lemma NextColumn(x: nat, n: nat)
    ensures ((x + n) % COLS + 1) % COLS == (x + n + 1) % COLS
  {
  }

  lemma LastByte(s: Screen, text: seq<byte>)
    requires OnScreen(s) && text != []
    ensures PutBytes(s, text) == PutByte(PutBytes(s, text[..|text| - 1]), text[|text| - 1])
  {
  }

  /**
   A text without line breaks, of any length, stays in the cursor's row: behind the last
   column it goes on at the first one, so that its last COLS bytes are what remains of it.
   */
  lemma {:induction false} LineWritten(s: Screen, line: seq<byte>)
    requires OnScreen(s) && IsLine(line)
    ensures var r := PutBytes(s, line);
      && r.y == s.y && r.x == (s.x + |line|) % COLS
      && (forall k: nat :: k < |line| <= k + COLS ==>
           Place(s.x, s.y, k) < CELLS && r.cells[Place(s.x, s.y, k)] == Cell(line[k], ATTRIB))
      && forall i: nat :: i < CELLS && !Lands(s.x, s.y, |line|, i) ==> r.cells[i] == s.cells[i]
    decreases |line|
  {
    hide PutBytes;
    if line == [] {
      PutNothing(s);
    } else {
      var n := |line| - 1;
      LineWritten(s, line[..n]);
      LastByte(s, line);
      NextColumn(s.x, n);
      var before, r := PutBytes(s, line[..n]), PutBytes(s, line);
      assert r.cells == before.cells[Place(s.x, s.y, n) := Cell(line[n], ATTRIB)];
      forall k: nat | k < |line| <= k + COLS
        ensures Place(s.x, s.y, k) < CELLS && r.cells[Place(s.x, s.y, k)] == Cell(line[k], ATTRIB)
      {
        if k < n {
          PlacesDiffer(s.x, s.y, k, n);
        }
      }
      forall i: nat | i < CELLS && !Lands(s.x, s.y, |line|, i) ensures r.cells[i] == s.cells[i] {
        assert !Lands(s.x, s.y, n, i) && Place(s.x, s.y, n) != i;
      }
    }
  }

  /** A line break starts the row below, and on the last row moves all rows up by one instead. */
  lemma BreakWritten(s: Screen, c: byte)
    requires OnScreen(s) && (c == NEWLINE || c == RETURN)
    ensures var r, shift := PutBytes(s, [c]), if s.y == ROWS - 1 then COLS else 0;
      && r.x == 0 && r.y == Min(s.y + 1, ROWS - 1)
      && forall i: nat :: i < CELLS ==> r.cells[i] == if i + shift < CELLS then s.cells[i + shift] else EMPTY
  {
    PutNothing(s);
    assert PutBytes(s, [c]) == PutByte(s, c);
  }

  /** A line break and a line of any length after it, from any screen. */
  lemma NextLineWritten(s: Screen, c: byte, line: seq<byte>)
    requires OnScreen(s) && (c == NEWLINE || c == RETURN) && IsLine(line)
    ensures var r, y, shift := PutBytes(s, [c] + line), Min(s.y + 1, ROWS - 1), if s.y == ROWS - 1 then COLS else 0;
      && r.y == y && r.x == |line| % COLS
      && (forall k: nat :: k < |line| <= k + COLS ==> r.cells[COLS * y + k % COLS] == Cell(line[k], ATTRIB))
      && forall i: nat :: i < CELLS && !(COLS * y <= i < COLS * y + Min(|line|, COLS)) ==>
           r.cells[i] == if i + shift < CELLS then s.cells[i + shift] else EMPTY
  {
    hide PutBytes, PutByte, Lands;
    PutBytesConcat(s, [c], line);
    BreakWritten(s, c);
    var next, y := PutBytes(s, [c]), Min(s.y + 1, ROWS - 1);
    LineWritten(next, line);
    forall k: nat | k < |line| <= k + COLS ensures Place(0, y, k) == COLS * y + k % COLS {
    }
    forall i: nat | Lands(0, y, |line|, i) ensures COLS * y <= i < COLS * y + Min(|line|, COLS) {
      LandsInRow(y, |line|, i);
    }
  }

  lemma LandsInRow(y: nat, n: nat, i: nat)
    requires Lands(0, y, n, i)
    ensures COLS * y <= i < COLS * y + Min(n, COLS)
  {
    var k: nat :| k < n && Place(0, y, k) == i;
  }

  // -------------------------------------------------------------------- all lines

  /** The lines of a text; a break at its end starts an empty one. */
  function Rows(text: seq<byte>): (rows: seq<seq<byte>>)
    ensures |rows| > 0
  {
    if text == [] then [[]]
    else
      var rows, c := Rows(text[..|text| - 1]), text[|text| - 1];
      if c == NEWLINE || c == RETURN then rows + [[]] else rows[|rows| - 1 := rows[|rows| - 1] + [c]]
  }

  /** Row `y` of the cells holds the last COLS bytes of a line that began at its first column, and is empty elsewhere. */
  ghost predicate RowShows(cells: seq<Cell>, y: nat, line: seq<byte>) {
    && |cells| == CELLS && y < ROWS
    && (forall k: nat :: k < |line| <= k + COLS ==>
         Place(0, y, k) < CELLS && cells[Place(0, y, k)] == Cell(line[k], ATTRIB))
    && forall j: nat :: |line| <= j < COLS ==> Place(0, y, j) < CELLS && cells[Place(0, y, j)] == EMPTY
  }

  /** Line number shown in row `y`, when the cursor, on the last line, is in row `last`. */
  function LineIn(rows: seq<seq<byte>>, last: nat, y: nat): seq<byte>
    requires last < |rows|
  {
    if y <= last then rows[|rows| - 1 - last + y] else []
  }

  /** The screen shows the last ROWS lines, or all of them from the top, with the cursor behind the last one. */
  ghost predicate ShowsRows(s: Screen, rows: seq<seq<byte>>)
    requires |rows| > 0
  {
    && s.y == Min(|rows| - 1, ROWS - 1) && s.x == |rows[|rows| - 1]| % COLS
    && forall y: nat :: y < ROWS ==> RowShows(s.cells, y, LineIn(rows, s.y, y))
  }

  lemma PlacesInRow(y: nat, z: nat, k: nat, n: nat)
    requires y != z || (k < n < k + COLS)
    ensures Place(0, y, k) != Place(0, z, n)
  {
  }

  /** One more byte of the line in a row. */
  lemma RowGrows(cells: seq<Cell>, y: nat, line: seq<byte>, c: byte)
    requires RowShows(cells, y, line)
    ensures Place(0, y, |line|) < CELLS
    ensures RowShows(cells[Place(0, y, |line|) := Cell(c, ATTRIB)], y, line + [c])
  {
    var n, cells' := |line|, cells[Place(0, y, |line|) := Cell(c, ATTRIB)];
    forall k: nat | k < n < k + COLS ensures Place(0, y, k) != Place(0, y, n) {
      PlacesInRow(y, y, k, n);
    }
    forall j: nat | n < j < COLS ensures Place(0, y, n) != Place(0, y, j) {
      PlacesInRow(y, y, n, j);
    }
  }

  lemma OtherRowStays(cells: seq<Cell>, y: nat, line: seq<byte>, z: nat, n: nat, cell: Cell)
    requires RowShows(cells, y, line) && y != z && Place(0, z, n) < CELLS
    ensures RowShows(cells[Place(0, z, n) := cell], y, line)
  {
    forall k: nat ensures Place(0, y, k) != Place(0, z, n) {
      PlacesInRow(y, z, k, n);
    }
  }

  lemma RowMoves(cells: seq<Cell>, y: nat, line: seq<byte>, cells': seq<Cell>)
    requires RowShows(cells, y + 1, line) && |cells'| == CELLS
    requires forall i: nat :: i + COLS < CELLS ==> cells'[i] == cells[i + COLS]
    ensures RowShows(cells', y, line)
  {
    forall k: nat ensures Place(0, y, k) + COLS == Place(0, y + 1, k) < CELLS {
    }
  }

  lemma ByteKeepsRows(s: Screen, rows: seq<seq<byte>>, c: byte)
    requires OnScreen(s) && |rows| > 0 && ShowsRows(s, rows) && c != NEWLINE && c != RETURN
    ensures ShowsRows(PutBytes(s, [c]), rows[|rows| - 1 := rows[|rows| - 1] + [c]])
  {
    hide RowShows;
    var line, r := rows[|rows| - 1], PutBytes(s, [c]);
    var rows' := rows[|rows| - 1 := line + [c]];
    LineWritten(s, [c]);
    NextColumn(0, |line|);
    assert RowShows(s.cells, s.y, LineIn(rows, s.y, s.y));
    RowGrows(s.cells, s.y, line, c);
    assert r.cells == s.cells[Place(0, s.y, |line|) := Cell(c, ATTRIB)] by {
      OneCell(s, c, r);
    }
    forall y: nat | y < ROWS ensures RowShows(r.cells, y, LineIn(rows', r.y, y)) {
      assert RowShows(s.cells, y, LineIn(rows, s.y, y));
      if y != s.y {
        OtherRowStays(s.cells, y, LineIn(rows, s.y, y), s.y, |line|, Cell(c, ATTRIB));
      }
    }
  }

  /** A single byte changes the cell at the cursor only. */
  lemma OneCell(s: Screen, c: byte, r: Screen)
    requires OnScreen(s) && c != NEWLINE && c != RETURN && r == PutBytes(s, [c])
    ensures r.cells == s.cells[COLS * s.y + s.x := Cell(c, ATTRIB)]
  {
    hide PutBytes;
    PutNothing(s);
    LastByte(s, [c]);
    assert [c][..0] == [];
  }

  lemma BreakKeepsRows(s: Screen, rows: seq<seq<byte>>, c: byte)
    requires OnScreen(s) && |rows| > 0 && ShowsRows(s, rows) && (c == NEWLINE || c == RETURN)
    ensures ShowsRows(PutBytes(s, [c]), rows + [[]])
  {
    hide RowShows, PutBytes;
    var r, rows' := PutBytes(s, [c]), rows + [[]];
    BreakWritten(s, c);
    forall y: nat | y < ROWS ensures RowShows(r.cells, y, LineIn(rows', r.y, y)) {
      if s.y < ROWS - 1 {
        assert RowShows(s.cells, y, LineIn(rows, s.y, y));
        assert r.cells == s.cells;
      } else if y < ROWS - 1 {
        assert RowShows(s.cells, y + 1, LineIn(rows, s.y, y + 1));
        RowMoves(s.cells, y, LineIn(rows, s.y, y + 1), r.cells);
      } else {
        EmptyRow(r.cells, y);
      }
    }
  }

  lemma EmptyRow(cells: seq<Cell>, y: nat)
    requires |cells| == CELLS && y < ROWS && forall i: nat :: COLS * y <= i < COLS * y + COLS ==> cells[i] == EMPTY
    ensures RowShows(cells, y, [])
  {
  }

  /** Every text: a blank screen that is sent it shows its last lines. */
  lemma {:induction false} TextOnScreen(text: seq<byte>)
    ensures ShowsRows(PutBytes(BLANK, text), Rows(text))
    decreases |text|
  {
    hide PutBytes, ShowsRows;
    if text == [] {
      PutNothing(BLANK);
      BlankShowsNothing();
    } else {
      var n := |text| - 1;
      TextOnScreen(text[..n]);
      PutBytesConcat(BLANK, text[..n], [text[n]]);
      assert text[..n] + [text[n]] == text;
      if text[n] == NEWLINE || text[n] == RETURN {
        BreakKeepsRows(PutBytes(BLANK, text[..n]), Rows(text[..n]), text[n]);
      } else {
        ByteKeepsRows(PutBytes(BLANK, text[..n]), Rows(text[..n]), text[n]);
      }
    }
  }

  /** The same for a single row, cell by cell. */
  lemma CellsOfText(text: seq<byte>, y: nat)
    requires y < ROWS
    ensures var r, rows := PutBytes(BLANK, text), Rows(text);
      && r.y == Min(|rows| - 1, ROWS - 1) && r.x == |rows[|rows| - 1]| % COLS
      && var line := if y <= r.y then rows[|rows| - 1 - r.y + y] else [];
         && (forall k: nat :: k < |line| <= k + COLS ==> r.cells[COLS * y + k % COLS] == Cell(line[k], ATTRIB))
         && forall i: nat :: COLS * y + |line| <= i < COLS * y + COLS ==> r.cells[i] == EMPTY
  {
    hide PutBytes, Rows;
    TextOnScreen(text);
    var r, rows := PutBytes(BLANK, text), Rows(text);
    var line := LineIn(rows, r.y, y);
    assert RowShows(r.cells, y, line);
    forall k: nat ensures Place(0, y, k) == COLS * y + k % COLS {
    }
    forall i: nat | COLS * y + |line| <= i < COLS * y + COLS ensures r.cells[i] == EMPTY {
      assert Place(0, y, i - COLS * y) == i;
    }
  }

  lemma BlankShowsNothing()
    ensures ShowsRows(BLANK, [[]])
  {
    forall y: nat | y < ROWS ensures RowShows(BLANK.cells, y, []) {
      EmptyRow(BLANK.cells, y);
    }
  }

  /** In every run each open terminal shows the last lines of the bytes it was sent since it opened. */
  lemma TerminalsShowTheirText(desks: seq<Desk>, events: seq<Event>, t: nat, sofar: seq<byte>)
    requires IsHistory(desks, events) && t < TERMINALS
    requires desks[0].open[t] ==> desks[0].screens[t] == PutBytes(BLANK, sofar)
    ensures DeskOk(desks[|events|])
    ensures desks[|events|].open[t] ==> ShowsRows(desks[|events|].screens[t], Rows(Transcript(desks, events, t, sofar)))
  {
    hide PutBytes, After, Extend, ShowsRows, Rows;
    ScreensAreIndependent(desks, events, t, sofar);
    TextOnScreen(Transcript(desks, events, t, sofar));
  }
}

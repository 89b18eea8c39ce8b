/**
 Video memory and the code that writes it: putc and putm (lib.c), terminal_write and
 the terminal switches (terminal.c). Page 0 is the live screen, page t + 1 the saved
 screen of terminal t; a page is 4096 bytes, that is 2048 cells.
 */
module Console {
  import opened Common
  import opened Scheduling
  import opened Screens

  const PAGE: nat := 2048

  /** The screen fields of one entry of terminals[]. */
  datatype Saved = Saved(open: bool, x: nat, y: nat)

  function PageOf(t: nat): nat {
    PAGE * (t + 1)
  }

  /** The fields of the class below as a value. */
  datatype Memory = Memory(vram: seq<Cell>, terminals: seq<Saved>, x: nat, y: nat, displayed: nat, curr: nat, next: nat)

  ghost predicate Shaped(m: Memory) {
    && |m.vram| == PAGE * (TERMINALS + 1) && |m.terminals| == TERMINALS
    && m.displayed < TERMINALS && m.curr < TERMINALS && m.next < TERMINALS
  }

  /** The screen a terminal has, wherever it is kept. */
  ghost function Logical(m: Memory, t: nat): Screen
    requires Shaped(m) && t < TERMINALS
  {
    if t == m.displayed then Screen(m.vram[..CELLS], m.x, m.y)
    else Screen(m.vram[PageOf(t)..PageOf(t) + CELLS], m.terminals[t].x, m.terminals[t].y)
  }

  /** Three independent screens, as the memory represents them. */
  ghost function DeskOf(m: Memory): Desk
    requires Shaped(m)
  {
    Desk([Logical(m, 0), Logical(m, 1), Logical(m, 2)], [m.terminals[0].open, m.terminals[1].open, m.terminals[2].open],
         m.displayed, m.curr, m.next)
  }

  /** Everything outside the page at `base` is the same. */
  ghost predicate OnlyPage(base: nat, was: seq<Cell>, vram: seq<Cell>) {
    base + PAGE <= |was| == |vram| && forall j :: 0 <= j < base || base + PAGE <= j < |was| ==> vram[j] == was[j]
  }

  /** The page at `base`, with cursor (x, y), is the given screen. */
  ghost predicate Shows(vram: seq<Cell>, base: nat, x: nat, y: nat, s: Screen) {
    base + PAGE <= |vram| && s == Screen(vram[base..base + CELLS], x, y)
  }

  /** The desk after terminal `t`'s storage alone was written and now shows `s`. */
  lemma OneScreenWritten(m: Memory, m': Memory, t: nat, s: Screen)
    requires Shaped(m) && Shaped(m') && t < TERMINALS
    requires m'.displayed == m.displayed && m'.curr == m.curr && m'.next == m.next
    requires OnlyPage(if t == m.displayed then 0 else PageOf(t), m.vram, m'.vram) && Logical(m', t) == s
    requires t != m.displayed ==> m'.x == m.x && m'.y == m.y
    requires m'.terminals[t].open == m.terminals[t].open
    requires forall u :: 0 <= u < TERMINALS && u != t ==> m'.terminals[u] == m.terminals[u]
    ensures DeskOf(m') == DeskOf(m).(screens := DeskOf(m).screens[t := s])
  {
    forall u | 0 <= u < TERMINALS && u != t ensures Logical(m', u) == Logical(m, u) {
      assert Logical(m', u).cells == Logical(m, u).cells;
    }
    assert DeskOf(m').screens == DeskOf(m).screens[t := s];
  }

  lemma DeskScreens(d: Desk)
    requires DeskOk(d)
    ensures |d.screens| == TERMINALS && OnScreen(d.screens[d.displayed]) && OnScreen(d.screens[d.curr])
  {
  }

  /** Output changes one screen only. */
  lemma AfterOutput(d: Desk, text: seq<byte>)
    requires DeskOk(d)
    ensures After(d, Print(text)) == d.(screens := d.screens[d.displayed := PutBytes(d.screens[d.displayed], text)])
    ensures After(d, Write(text)) == d.(screens := d.screens[d.curr := PutBytes(d.screens[d.curr], text)])
    ensures DeskOk(After(d, Print(text))) && DeskOk(After(d, Write(text)))
  {
  }

  /** The displayed terminal's own page and cursor hold a copy of the live screen. */
  ghost predicate Synced(m: Memory)
    requires Shaped(m)
  {
    Screen(m.vram[PageOf(m.displayed)..PageOf(m.displayed) + CELLS], m.terminals[m.displayed].x, m.terminals[m.displayed].y)
      == Logical(m, m.displayed)
  }

  /** Pages other than the one at `base` keep their screens. */
  lemma PageKept(was: seq<Cell>, vram: seq<Cell>, base: nat, other: nat)
    requires OnlyPage(base, was, vram) && other + PAGE <= |was| && (other + PAGE <= base || base + PAGE <= other)
    ensures vram[other..other + CELLS] == was[other..other + CELLS]
  {
  }

  /** Saving the displayed screen changes no terminal's screen. */
  lemma SavedScreen(m: Memory, m': Memory)
    requires Shaped(m) && Shaped(m')
    requires m' == m.(vram := m'.vram,
                      terminals := m.terminals[m.displayed := m.terminals[m.displayed].(x := m.x, y := m.y)])
    requires OnlyPage(PageOf(m.displayed), m.vram, m'.vram)
    requires m'.vram[PageOf(m.displayed)..PageOf(m.displayed) + PAGE] == m.vram[..PAGE]
    ensures Synced(m') && DeskOf(m') == DeskOf(m)
  {
    PageKept(m.vram, m'.vram, PageOf(m.displayed), 0);
    assert m'.vram[PageOf(m.displayed)..PageOf(m.displayed) + PAGE][..CELLS] == m.vram[..PAGE][..CELLS];
    OneScreenKept(m, m', PageOf(m.displayed));
    assert DeskOf(m').screens == DeskOf(m).screens;
  }

  lemma OneScreenKept(m: Memory, m': Memory, base: nat)
    requires Shaped(m) && Shaped(m') && m'.displayed == m.displayed && base == PageOf(m.displayed)
    requires OnlyPage(base, m.vram, m'.vram) && m'.x == m.x && m'.y == m.y
    requires forall u :: 0 <= u < TERMINALS && u != m.displayed ==> m'.terminals[u] == m.terminals[u]
    ensures forall u :: 0 <= u < TERMINALS ==> Logical(m', u) == Logical(m, u)
  {
    forall u | 0 <= u < TERMINALS ensures Logical(m', u) == Logical(m, u) {
      PageKept(m.vram, m'.vram, base, 0);
      if u != m.displayed {
        PageKept(m.vram, m'.vram, base, PageOf(u));
      }
    }
  }

  /** Once the old screen is saved, only terminal `t` can change when the live page is given to it. */
  lemma LivePageGiven(m: Memory, m': Memory, t: nat)
    requires Shaped(m) && Shaped(m') && Synced(m) && t < TERMINALS && t != m.displayed && m'.displayed == t
    requires OnlyPage(0, m.vram, m'.vram)
    requires forall u :: 0 <= u < TERMINALS && u != t ==> m'.terminals[u] == m.terminals[u]
    ensures DeskOf(m') == DeskOf(m).(screens := DeskOf(m).screens[t := Logical(m', t)],
      open := DeskOf(m).open[t := m'.terminals[t].open], displayed := t, curr := m'.curr, next := m'.next)
  {
    forall u | 0 <= u < TERMINALS && u != t ensures Logical(m', u) == Logical(m, u) {
      PageKept(m.vram, m'.vram, 0, PageOf(u));
    }
    assert DeskOf(m').screens == DeskOf(m).screens[t := Logical(m', t)];
  }

  /** Giving it the live page with its own saved screen changes nothing but who is displayed. */
  lemma ShownAgain(m: Memory, m': Memory, t: nat)
    requires Shaped(m) && Shaped(m') && Synced(m) && t < TERMINALS && t != m.displayed
    requires OnlyPage(0, m.vram, m'.vram) && m'.vram[..PAGE] == m.vram[PageOf(t)..PageOf(t) + PAGE]
    requires m' == m.(vram := m'.vram, displayed := t, x := m.terminals[t].x, y := m.terminals[t].y)
    ensures DeskOf(m') == DeskOf(m).(displayed := t)
  {
    LivePageGiven(m, m', t);
    assert m'.vram[..PAGE][..CELLS] == m.vram[PageOf(t)..PageOf(t) + PAGE][..CELLS];
    assert m.vram[PageOf(t)..PageOf(t) + CELLS] == m.vram[PageOf(t)..PageOf(t) + PAGE][..CELLS];
    assert Logical(m', t) == Logical(m, t);
    assert DeskOf(m).screens[t := Logical(m, t)] == DeskOf(m).screens;
    assert DeskOf(m).open[t := m.terminals[t].open] == DeskOf(m).open;
  }

  class Video {
    const vram: array<Cell>
    const terminals: array<Saved>
    var screenX: nat
    var screenY: nat
    var displayed: nat
    var curr: nat
    var next: nat

    ghost function Fields(): Memory
      reads this, vram, terminals
    {
      Memory(vram[..], terminals[..], screenX, screenY, displayed, curr, next)
    }

    ghost predicate Valid()
      reads this, vram, terminals
    {
      Shaped(Fields()) && DeskOk(DeskOf(Fields()))
    }

    ghost function View(): Desk
      reads this, vram, terminals
      requires Valid()
    {
      DeskOf(Fields())
    }

    /** terminal_init after clear(): one open terminal with a blank screen. */
    constructor ()
      ensures Valid() && fresh(vram) && fresh(terminals)
      ensures View().open == [true, false, false] && View().screens[0] == BLANK
      ensures displayed == curr == next == 0
    {
      vram := new Cell[PAGE * (TERMINALS + 1)](_ => EMPTY);
      terminals := new Saved[TERMINALS](i => Saved(i == 0, 0, 0));
      screenX, screenY, displayed, curr, next := 0, 0, 0, 0, 0;
      new;
      assert vram[..CELLS] == BLANK.cells;
    }

    /** reset_video, and the same loops in putm: rows 1 to 24 of the page at `base` move up. */
    method ResetVideo(base: nat)
      requires base + CELLS <= vram.Length
      modifies vram
      ensures forall j :: base <= j < base + CELLS - COLS ==> vram[j] == Cell(old(vram[j + COLS]).ch, ATTRIB)
      ensures forall j :: 0 <= j < base || base + CELLS - COLS <= j < vram.Length ==> vram[j] == old(vram[j])
    {
      ghost var was := vram[..];
      for a := 0 to ROWS - 1
        invariant forall j :: base <= j < base + COLS * a ==> vram[j] == Cell(was[j + COLS].ch, ATTRIB)
        invariant forall j :: 0 <= j < base || base + COLS * a <= j < vram.Length ==> vram[j] == was[j]
      {
        for b := 0 to COLS
          invariant forall j :: base <= j < base + COLS * a + b ==> vram[j] == Cell(was[j + COLS].ch, ATTRIB)
          invariant forall j :: 0 <= j < base || base + COLS * a + b <= j < vram.Length ==> vram[j] == was[j]
        {
          vram[base + COLS * a + b] := Cell(vram[base + COLS * (a + 1) + b].ch, ATTRIB);
        }
      }
    }

    /** clear_row, and the same loop in putm: the last row of the page at `base` becomes blank. */
    method ClearRow(base: nat)
      requires base + CELLS <= vram.Length
      modifies vram
      ensures forall j :: base + CELLS - COLS <= j < base + CELLS ==> vram[j] == EMPTY
      ensures forall j :: 0 <= j < base + CELLS - COLS || base + CELLS <= j < vram.Length ==> vram[j] == old(vram[j])
    {
      for a := 0 to COLS
        invariant forall j :: base + CELLS - COLS <= j < base + CELLS - COLS + a ==> vram[j] == EMPTY
        invariant forall j :: 0 <= j < base + CELLS - COLS || base + CELLS - COLS + a <= j < vram.Length ==>
          vram[j] == old(vram[j])
      {
        vram[base + COLS * (ROWS - 1) + a] := EMPTY;
      }
    }

    /** The scrolling newline on one page, whichever storage the cursor is in. */
    method Scroll(base: nat, ghost s: Screen, ghost c: byte)
      requires c == NEWLINE || c == RETURN
      requires Shows(vram[..], base, s.x, s.y, s) && OnScreen(s) && s.y == ROWS - 1
      modifies vram
      ensures Shows(vram[..], base, 0, ROWS - 1, PutByte(s, c)) && OnlyPage(base, old(vram[..]), vram[..])
    {
      ghost var was := vram[..];
      ResetVideo(base);
      ClearRow(base);
      ghost var after := PutByte(s, c);
      forall i | 0 <= i < CELLS ensures vram[base + i] == after.cells[i] {
        if i < CELLS - COLS {
          assert was[base + i + COLS] == s.cells[i + COLS];
        }
      }
      assert vram[base..base + CELLS] == after.cells;
    }

    /** The two stores of an ordinary byte at (x, y) of the page at `base`. */
    method Store(base: nat, x: nat, y: nat, c: byte, ghost s: Screen)
      requires Shows(vram[..], base, x, y, s) && OnScreen(s)
      modifies vram
      ensures Shows(vram[..], base, x, y, s.(cells := s.cells[COLS * y + x := Cell(c, ATTRIB)]))
      ensures OnlyPage(base, old(vram[..]), vram[..])
    {
      vram[base + COLS * y + x] := Cell(c, ATTRIB);
    }

    /** putc: one byte to the live page, with the cursor in screen_x and screen_y. */
    method Putc(c: byte, ghost s: Screen)
      requires Shows(vram[..], 0, screenX, screenY, s) && OnScreen(s)
      modifies this`screenX, this`screenY, vram
      ensures Shows(vram[..], 0, screenX, screenY, PutByte(s, c)) && OnlyPage(0, old(vram[..]), vram[..])
    {
      if c == NEWLINE || c == RETURN {
        if screenY == ROWS - 1 {
          screenX := 0;
          screenY := ROWS - 1;
          Scroll(0, s, c);
          return;
        }
        screenY := screenY + 1;
        screenX := 0;
      } else {
        Store(0, screenX, screenY, c, s);
        screenX := screenX + 1;
        screenX := screenX % COLS;
        screenY := (screenY + screenX / COLS) % ROWS;
      }
    }

    /** putm: the same byte to the saved page of the scheduled terminal, with the cursor in terminals[]. */
    method Putm(c: byte, ghost s: Screen)
      requires curr < TERMINALS == terminals.Length
      requires Shows(vram[..], PageOf(curr), terminals[curr].x, terminals[curr].y, s) && OnScreen(s)
      modifies terminals, vram
      ensures Shows(vram[..], PageOf(curr), terminals[curr].x, terminals[curr].y, PutByte(s, c))
      ensures OnlyPage(PageOf(curr), old(vram[..]), vram[..])
      ensures terminals[..] ==
          old(terminals[..])[curr := Saved(old(terminals[curr].open), terminals[curr].x, terminals[curr].y)]
    {
      var page := PageOf(curr);
      if c == NEWLINE || c == RETURN {
        if terminals[curr].y == ROWS - 1 {
          terminals[curr] := terminals[curr].(x := 0);
          terminals[curr] := terminals[curr].(y := ROWS - 1);
          Scroll(page, s, c);
          return;
        }
        terminals[curr] := terminals[curr].(y := terminals[curr].y + 1);
        terminals[curr] := terminals[curr].(x := 0);
      } else {
        Store(page, terminals[curr].x, terminals[curr].y, c, s);
        terminals[curr] := terminals[curr].(x := terminals[curr].x + 1);
        terminals[curr] := terminals[curr].(x := terminals[curr].x % COLS);
        terminals[curr] := terminals[curr].(y := (terminals[curr].y + terminals[curr].x / COLS) % ROWS);
      }
    }

    /** The loop of puts, and of terminal_write on the displayed terminal. */
    method PutcAll(text: seq<byte>, ghost s: Screen)
      requires Shows(vram[..], 0, screenX, screenY, s) && OnScreen(s)
      modifies this`screenX, this`screenY, vram
      ensures Shows(vram[..], 0, screenX, screenY, PutBytes(s, text)) && OnlyPage(0, old(vram[..]), vram[..])
    {
      hide PutByte, PutBytes;
      PutNothing(s);
      var i := 0;
      while i < |text|
        invariant i <= |text|
        invariant Shows(vram[..], 0, screenX, screenY, PutBytes(s, text[..i])) && OnlyPage(0, old(vram[..]), vram[..])
      {
        PutBytesNext(s, text, i);
        Putc(text[i], PutBytes(s, text[..i]));
        i := i + 1;
      }
      assert text[..|text|] == text;
    }

    /** The loop of terminal_write on a terminal that is not displayed. */
    method PutmAll(text: seq<byte>, ghost s: Screen)
      requires curr < TERMINALS == terminals.Length
      requires Shows(vram[..], PageOf(curr), terminals[curr].x, terminals[curr].y, s) && OnScreen(s)
      modifies terminals, vram
      ensures Shows(vram[..], PageOf(curr), terminals[curr].x, terminals[curr].y, PutBytes(s, text))
      ensures OnlyPage(PageOf(curr), old(vram[..]), vram[..])
      ensures terminals[..] ==
          old(terminals[..])[curr := Saved(old(terminals[curr].open), terminals[curr].x, terminals[curr].y)]
    {
      hide PutByte, PutBytes;
      PutNothing(s);
      var i := 0;
      while i < |text|
        invariant i <= |text|
        invariant Shows(vram[..], PageOf(curr), terminals[curr].x, terminals[curr].y, PutBytes(s, text[..i]))
        invariant OnlyPage(PageOf(curr), old(vram[..]), vram[..])
        invariant terminals[..] ==
          old(terminals[..])[curr := Saved(old(terminals[curr].open), terminals[curr].x, terminals[curr].y)]
      {
        PutBytesNext(s, text, i);
        Putm(text[i], PutBytes(s, text[..i]));
        i := i + 1;
      }
      assert text[..|text|] == text;
    }

    /** puts and printf of finished text: the bytes go to the displayed terminal. */
    method Puts(text: seq<byte>)
      requires Valid()
      modifies this`screenX, this`screenY, vram
      ensures Valid() && View() == After(old(View()), Print(text))
    {
      hide PutByte, PutBytes, NextFrom, After, AlreadyIn, DeskOk;
      ghost var was, s := View(), Logical(Fields(), displayed);
      DeskScreens(was);
      AfterOutput(was, text);
      PutcAll(text, s);
      OneScreenWritten(old(Fields()), Fields(), displayed, PutBytes(s, text));
    }

    /** terminal_write by the scheduled process. */
    method TerminalWrite(buf: seq<byte>, nbytes: int) returns (r: int)
      requires Valid() && nbytes <= |buf|
      modifies this`screenX, this`screenY, terminals, vram
      ensures r == nbytes
      ensures Valid() && View() == After(old(View()), Write(if nbytes < 0 then [] else buf[..nbytes]))
    {
      hide PutByte, PutBytes, NextFrom, After, DeskOk;
      DeskScreens(View());
      var text := if nbytes < 0 then [] else buf[..nbytes];
      ghost var s := Logical(Fields(), curr);
      AfterOutput(View(), text);
      if curr == displayed {
        PutcAll(text, s);
      } else {
        PutmAll(text, s);
      }
      OneScreenWritten(old(Fields()), Fields(), curr, PutBytes(s, text));
      r := nbytes;
    }

    /** memcpy of one page of video memory to another. */
    method CopyPage(to: nat, from: nat)
      requires from + PAGE <= to <= vram.Length - PAGE || to + PAGE <= from <= vram.Length - PAGE
      modifies vram
      ensures OnlyPage(to, old(vram[..]), vram[..]) && vram[to..to + PAGE] == old(vram[from..from + PAGE])
    {
      ghost var was := vram[..];
      for i := 0 to PAGE
        invariant forall j :: to <= j < to + i ==> vram[j] == was[j - to + from]
        invariant forall j :: 0 <= j < to || to + i <= j < vram.Length ==> vram[j] == was[j]
      {
        vram[to + i] := vram[from + i];
      }
    }

    /** clear(): the live page's cells become blank. */
    method Clear()
      requires vram.Length >= PAGE
      modifies vram
      ensures OnlyPage(0, old(vram[..]), vram[..]) && vram[..CELLS] == BLANK.cells
    {
      ghost var was := vram[..];
      for i := 0 to CELLS
        invariant forall j :: 0 <= j < i ==> vram[j] == EMPTY
        invariant forall j :: i <= j < vram.Length ==> vram[j] == was[j]
      {
        vram[i] := EMPTY;
      }
    }

    /** The first half of a switch: cursor and live page are saved. */
    method SaveDisplayed()
      requires Valid()
      modifies terminals, vram
      ensures Valid() && View() == old(View()) && Synced(Fields())
    {
      hide DeskOk;
      terminals[displayed] := terminals[displayed].(x := screenX, y := screenY);
      CopyPage(PageOf(displayed), 0);
      SavedScreen(old(Fields()), Fields());
    }

    /** The second half for a terminal that is not open yet. */
    method OpenTerminal(t: nat)
      requires Valid() && Synced(Fields()) && t < TERMINALS && !terminals[t].open
      modifies this`screenX, this`screenY, this`displayed, this`curr, terminals, vram
      ensures Valid() && View() == old(View()).(screens := old(View()).screens[t := BLANK],
        open := old(View()).open[t := true], displayed := t, curr := t)
    {
      assert t != displayed;
      terminals[t] := terminals[t].(open := true);
      Clear();
      screenX, screenY := 0, 0;
      displayed := t;
      curr := displayed;
      LivePageGiven(old(Fields()), Fields(), t);
    }

    /** The second half for a terminal that is open. */
    method ShowTerminal(t: nat)
      requires Valid() && Synced(Fields()) && t < TERMINALS && terminals[t].open && t != displayed
      modifies this`screenX, this`screenY, this`displayed, vram
      ensures Valid() && View() == old(View()).(displayed := t)
    {
      displayed := t;
      CopyPage(0, PageOf(displayed));
      screenX, screenY := terminals[displayed].x, terminals[displayed].y;
      ShownAgain(old(Fields()), Fields(), t);
    }

    /** switch_to_terminal_1/2/3, as far as it concerns the screens. */
    method SwitchTo(t: nat)
      requires Valid() && t < TERMINALS
      modifies this`screenX, this`screenY, this`displayed, this`curr, terminals, vram
      ensures Valid() && View() == After(old(View()), Switch(t)) && displayed == t
    {
      hide PutByte, PutBytes, NextFrom, AlreadyIn, Synced;
      if displayed == t {
        Puts(AlreadyIn(t));
        AfterOutput(old(View()), AlreadyIn(t));
        return;
      }
      SaveDisplayed();
      if !terminals[t].open {
        OpenTerminal(t);
      } else {
        ShowTerminal(t);
      }
    }

    /** pit_handler's choice of the next terminal. */
    method PitHandler()
      requires Valid()
      modifies this`curr, this`next
      ensures Valid() && View() == After(old(View()), Timer) && View() == old(View()).(curr := curr, next := curr)
      ensures FirstAfter(old(View()).open, old(curr), old(next), curr)
    {
      AfterOk(View(), Timer);
      ScheduleEffects(View());
      var open := [terminals[0].open, terminals[1].open, terminals[2].open];
      next := Select(open, curr, next);
      curr := next;
    }

    /** execute moves the schedule to the displayed terminal. */
    method ExecuteStarts()
      requires Valid()
      modifies this`curr
      ensures Valid() && View() == After(old(View()), Exec) && View() == old(View()).(curr := displayed)
    {
      AfterOk(View(), Exec);
      curr := displayed;
    }
  }
}

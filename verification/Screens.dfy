/**
 The three terminals' screens as values: what one byte does to a screen, what each
 event does to the terminals, and the bytes each terminal has been sent. The class in
 Console.dfy keeps them in one live page and three saved pages of video memory.
 */
module Screens {
  import opened Common
  import opened Scheduling

  const CELLS: nat := ROWS * COLS
  const ATTRIB: byte := 7
  const TERMINALS: nat := 3

  /** Two bytes of video memory: a character and its attribute. */
  datatype Cell = Cell(ch: byte, attrib: byte)

  const EMPTY: Cell := Cell(SPACE, ATTRIB)

  datatype Screen = Screen(cells: seq<Cell>, x: nat, y: nat)

  function Repeat(n: nat): (r: seq<Cell>)
    ensures |r| == n && forall i :: 0 <= i < n ==> r[i] == EMPTY
  {
    seq(n, _ => EMPTY)
  }

  const BLANK: Screen := Screen(Repeat(CELLS), 0, 0)

  predicate OnScreen(s: Screen) {
    |s.cells| == CELLS && s.x < COLS && s.y < ROWS && forall i :: 0 <= i < CELLS ==> s.cells[i].attrib == ATTRIB
  }

  /**
   One byte written to a screen. A newline or carriage return starts the next row,
   scrolling when there is none; any other byte is stored, and behind the last column
   writing goes on at the start of the same row.
   */
  function PutByte(s: Screen, c: byte): (r: Screen)
    requires OnScreen(s)
    ensures OnScreen(r)
  {
    if c == NEWLINE || c == RETURN then
      if s.y == ROWS - 1 then Screen(s.cells[COLS..] + Repeat(COLS), 0, s.y)
      else Screen(s.cells, 0, s.y + 1)
    else Screen(s.cells[COLS * s.y + s.x := Cell(c, ATTRIB)], (s.x + 1) % COLS, s.y)
  }

  function PutBytes(s: Screen, text: seq<byte>): (r: Screen)
    requires OnScreen(s)
    ensures OnScreen(r)
  {
    if text == [] then s else PutByte(PutBytes(s, text[..|text| - 1]), text[|text| - 1])
  }

  lemma {:induction false} PutBytesConcat(s: Screen, a: seq<byte>, b: seq<byte>)
    requires OnScreen(s)
    ensures PutBytes(s, a + b) == PutBytes(PutBytes(s, a), b)
  {
    if b == [] {
      assert a + b == a;
    } else {
      PutBytesConcat(s, a, b[..|b| - 1]);
      assert (a + b)[..|a + b| - 1] == a + b[..|b| - 1];
    }
  }

  lemma PutBytesNext(s: Screen, text: seq<byte>, i: nat)
    requires OnScreen(s) && i < |text|
    ensures PutBytes(s, text[..i + 1]) == PutByte(PutBytes(s, text[..i]), text[i])
  {
    assert text[..i + 1][..i] == text[..i];
  }

  // ---------------------------------------------------------------------- events

  /** `displayed` is the terminal on the monitor, `curr` the scheduled one, `next` the timer's last choice. */
  datatype Desk = Desk(screens: seq<Screen>, open: seq<bool>, displayed: nat, curr: nat, next: nat)

  /**
   terminal_write by the scheduled process, a kernel printf, a key that switches
   terminals, the timer, and the effect of execute on the schedule.
   */
  datatype Event = Write(text: seq<byte>) | Print(text: seq<byte>) | Switch(t: nat) | Timer | Exec

  predicate DeskOk(d: Desk) {
    && |d.screens| == |d.open| == TERMINALS && d.displayed < TERMINALS && d.curr < TERMINALS && d.next < TERMINALS
    && d.open[d.displayed] && d.open[d.curr] && d.open[d.next]
    && forall t :: 0 <= t < TERMINALS && d.open[t] ==> OnScreen(d.screens[t])
  }

  predicate EventOk(e: Event) {
    e.Switch? ==> e.t < TERMINALS
  }

  function Message(text: string): (r: seq<byte>)
    requires forall i :: 0 <= i < |text| ==> text[i] < 256 as char
  {
    seq(|text|, i requires 0 <= i < |text| => text[i] as int)
  }

  /** What switching to the terminal that is displayed already prints. */
  function AlreadyIn(t: nat): (r: seq<byte>)
    requires t < TERMINALS
    ensures |r| == 21 && r[20] == 49 + t
  {
    Message("already in terminal ") + [49 + t]
  }

  function Put(d: Desk, t: nat, text: seq<byte>): Desk
    requires DeskOk(d) && t < TERMINALS && d.open[t]
  {
    d.(screens := d.screens[t := PutBytes(d.screens[t], text)])
  }

  function After(d: Desk, e: Event): Desk
    requires DeskOk(d) && EventOk(e)
  {
    match e
    case Write(text) => Put(d, d.curr, text)
    case Print(text) => Put(d, d.displayed, text)
    case Switch(t) =>
      if t == d.displayed then Put(d, t, AlreadyIn(t))
      else if d.open[t] then d.(displayed := t)
      else d.(screens := d.screens[t := BLANK], open := d.open[t := true], displayed := t, curr := t)
    case Timer =>
      var n := NextTerminal(d.open, d.curr, d.next);
      d.(curr := n, next := n)
    case Exec => d.(curr := d.displayed)
  }

  /** Output changes the screen of the scheduled or of the displayed terminal, and nothing else. */
  lemma OutputEffects(d: Desk, text: seq<byte>)
    requires DeskOk(d)
    ensures After(d, Write(text)) == d.(screens := d.screens[d.curr := PutBytes(d.screens[d.curr], text)])
    ensures After(d, Print(text)) == d.(screens := d.screens[d.displayed := PutBytes(d.screens[d.displayed], text)])
  {
  }

  /** After a switch the terminal is displayed and open; all screens that were open stay, and a new one is blank. */
  lemma SwitchEffects(d: Desk, t: nat)
    requires DeskOk(d) && t < TERMINALS
    ensures var d' := After(d, Switch(t));
      && d'.displayed == t && d'.open == d.open[t := true] && d'.next == d.next && |d'.screens| == |d.screens|
      && d'.curr == (if d.open[t] then d.curr else t)
      && (forall u :: 0 <= u < TERMINALS && u != t ==> d'.screens[u] == d.screens[u])
      && d'.screens[t] == (if t == d.displayed then PutBytes(d.screens[t], AlreadyIn(t))
                           else if d.open[t] then d.screens[t] else BLANK)
  {
    hide PutBytes, AlreadyIn;
  }

  /** The timer schedules the next open terminal, execute the displayed one; no screen changes. */
  lemma ScheduleEffects(d: Desk)
    requires DeskOk(d)
    ensures var n := After(d, Timer).curr;
      After(d, Timer) == d.(curr := n, next := n) && FirstAfter(d.open, d.curr, d.next, n)
    ensures After(d, Exec) == d.(curr := d.displayed)
  {
    NextFromFinds(d.open, d.curr, d.next, 1);
  }

  lemma AfterOk(d: Desk, e: Event)
    requires DeskOk(d) && EventOk(e)
    ensures DeskOk(After(d, e))
  {
    hide PutBytes, PutByte, NextFrom;
    if e.Timer? {
      TickAdvances(d.open, d.curr, d.next);
    }
  }

  // ------------------------------------------------------------------- histories

  /** The bytes an event sends to terminal `t`; only who is displayed and who is scheduled matters. */
  function Sent(d: Desk, e: Event, t: nat): seq<byte>
    requires EventOk(e)
  {
    match e
    case Write(text) => if t == d.curr then text else []
    case Print(text) => if t == d.displayed then text else []
    case Switch(u) => if t == u == d.displayed then AlreadyIn(t) else []
    case Timer => []
    case Exec => []
  }

  function Opens(d: Desk, e: Event, t: nat): bool {
    e == Switch(t) && t < |d.open| && !d.open[t]
  }

  ghost predicate IsHistory(desks: seq<Desk>, events: seq<Event>) {
    && |desks| == |events| + 1 && DeskOk(desks[0])
    && forall i :: 0 <= i < |events| ==>
      DeskOk(desks[i]) && EventOk(events[i]) && desks[i + 1] == After(desks[i], events[i])
  }

  /** All bytes sent to terminal `t` since it opened, `sofar` being those from before the run. */
  function Transcript(desks: seq<Desk>, events: seq<Event>, t: nat, sofar: seq<byte>): seq<byte>
    requires |desks| == |events| + 1 && forall i :: 0 <= i < |events| ==> EventOk(events[i])
    decreases |events|
  {
    if events == [] then sofar
    else
      var n := |events| - 1;
      Extend(desks[n], events[n], t, Transcript(desks[..n + 1], events[..n], t, sofar))
  }

  /** What `t` has been sent once an event is over. */
  function Extend(d: Desk, e: Event, t: nat, before: seq<byte>): seq<byte>
    requires EventOk(e)
  {
    if Opens(d, e, t) then [] else before + Sent(d, e, t)
  }

  lemma EventKeepsTranscript(d: Desk, e: Event, t: nat, before: seq<byte>)
    requires DeskOk(d) && EventOk(e) && t < TERMINALS
    requires d.open[t] ==> d.screens[t] == PutBytes(BLANK, before)
    ensures DeskOk(After(d, e))
    ensures After(d, e).open[t] ==> After(d, e).screens[t] == PutBytes(BLANK, Extend(d, e, t, before))
  {
    hide PutBytes, PutByte, NextFrom;
    AfterOk(d, e);
    PutBytesConcat(BLANK, before, Sent(d, e, t));
    PutNothing(BLANK);
    PutNothing(PutBytes(BLANK, before));
  }

  lemma PutNothing(s: Screen)
    requires OnScreen(s)
    ensures PutBytes(s, []) == s
  {
  }

  /**
   Independence: after every run, each open terminal shows exactly what a screen of its
   own would show that opened blank and was sent that terminal's bytes and no others.
   */
  lemma {:induction false} ScreensAreIndependent(desks: seq<Desk>, events: seq<Event>, t: nat, sofar: seq<byte>)
    requires IsHistory(desks, events) && t < TERMINALS
    requires desks[0].open[t] ==> desks[0].screens[t] == PutBytes(BLANK, sofar)
    ensures DeskOk(desks[|events|])
    ensures desks[|events|].open[t] ==>
      desks[|events|].screens[t] == PutBytes(BLANK, Transcript(desks, events, t, sofar))
    decreases |events|
  {
    hide PutBytes, After, Extend;
    if events != [] {
      var n := |events| - 1;
      ScreensAreIndependent(desks[..n + 1], events[..n], t, sofar);
      EventKeepsTranscript(desks[n], events[n], t, Transcript(desks[..n + 1], events[..n], t, sofar));
    }
  }
}

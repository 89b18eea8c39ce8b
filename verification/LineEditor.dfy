/**
 From keys to terminal_read: the capped edit buffer (keyboard.c), its hand-over to the
 terminal's buffer, and the reader (terminal.c). Keys are already decoded; of the screen
 only the two copies of the cursor position are kept, because backspace looks at them.
 */
module LineEditor {
  import opened Common

  const BUF: nat := 128

  /** A printable key. */
  type Printable = c: byte | c != NUL && c != NEWLINE && c != RETURN witness 97

  datatype Key = Char(c: Printable) | Backspace | ClearScreen | Enter

  // -------------------------------------------------------------------- reference

  /** The line being typed, after one more key. */
  function Edited(line: seq<byte>, key: Key): seq<byte> {
    match key
    case Char(c) => if |line| < BUF then line + [c] else line
    case Backspace => if line == [] then line else line[..|line| - 1]
    case ClearScreen => []
    case Enter => []
  }

  /**
   What terminal_read returns for a line ended with Enter. A buffer without room for the
   newline and a NUL is read on into the field behind it, the buffer's index, 128.
   */
  function Delivery(line: seq<byte>): seq<byte> {
    if |line| < BUF - 1 then line + [NEWLINE]
    else if |line| == BUF - 1 then line + [NEWLINE, BUF]
    else line + [BUF]
  }

  /**
   A line is delivered as typed plus a newline exactly when it has at most 126 characters;
   longer ones are followed by a byte 128, and the longest lose their newline.
   */
  lemma DeliveredAsTypedIff(line: seq<byte>)
    ensures Delivery(line) == line + [NEWLINE] <==> |line| <= 126
    ensures |line| == 127 ==> Delivery(line) == line + [NEWLINE, 128]
    ensures |line| >= 128 ==> Delivery(line) == line + [128]
  {
    if |line| == BUF - 1 {
      assert |Delivery(line)| == |line| + 2;
    } else if |line| >= BUF {
      assert Delivery(line)[|line|] == BUF != (line + [NEWLINE])[|line|];
    }
  }

  /** The lines finished by Enter, when typing starts with `line`. */
  function Finished(line: seq<byte>, keys: seq<Key>): seq<seq<byte>>
    decreases |keys|
  {
    if keys == [] then []
    else (if keys[0] == Enter then [line] else []) + Finished(Edited(line, keys[0]), keys[1..])
  }

  /** The line being typed after some keys. */
  function LineAfter(line: seq<byte>, keys: seq<Key>): seq<byte>
    decreases |keys|
  {
    if keys == [] then line else LineAfter(Edited(line, keys[0]), keys[1..])
  }

  lemma {:induction false} FinishedConcat(line: seq<byte>, a: seq<Key>, b: seq<Key>)
    ensures Finished(line, a + b) == Finished(line, a) + Finished(LineAfter(line, a), b)
    decreases |a|
  {
    hide Edited;
    if a == [] {
      assert a + b == b;
    } else {
      FinishedConcat(Edited(line, a[0]), a[1..], b);
      assert (a + b)[1..] == a[1..] + b;
    }
  }

  lemma FirstFinished(line: seq<byte>, key: Key, rest: seq<Key>)
    ensures Finished(line, [key] + rest) == (if key == Enter then [line] else []) + Finished(Edited(line, key), rest)
  {
    hide Edited;
    assert ([key] + rest)[1..] == rest;
  }

  /**
   What single keys do to the lines that get finished, wherever they are pressed: a
   character is undone by a backspace, and dropped when the line is full; backspace at the
   start of a line does nothing; Ctrl-L forgets the line.
   */
  lemma KeyLaws(line: seq<byte>, a: seq<Key>, c: Printable, b: seq<Key>)
    ensures |LineAfter(line, a)| < 128 ==> Finished(line, a + ([Char(c), Backspace] + b)) == Finished(line, a + b)
    ensures |LineAfter(line, a)| >= 128 ==> Finished(line, a + ([Char(c)] + b)) == Finished(line, a + b)
    ensures LineAfter(line, a) == [] ==> Finished(line, a + ([Backspace] + b)) == Finished(line, a + b)
    ensures Finished(line, a + ([ClearScreen] + b)) == Finished(line, a) + Finished([], b)
  {
    hide Finished;
    var typed := LineAfter(line, a);
    FinishedConcat(line, a, b);
    FinishedConcat(line, a, [Char(c), Backspace] + b);
    FinishedConcat(line, a, [Char(c)] + b);
    FinishedConcat(line, a, [Backspace] + b);
    FinishedConcat(line, a, [ClearScreen] + b);
    assert [Char(c), Backspace] + b == [Char(c)] + ([Backspace] + b);
    FirstFinished(typed, Char(c), [Backspace] + b);
    FirstFinished(Edited(typed, Char(c)), Backspace, b);
    FirstFinished(typed, Char(c), b);
    FirstFinished(typed, Backspace, b);
    FirstFinished(typed, ClearScreen, b);
  }

  /** The keys for a text and Enter. */
  function TypeLine(text: seq<Printable>): seq<Key> {
    seq(|text|, i requires 0 <= i < |text| => Char(text[i])) + [Enter]
  }

  function TypeLines(texts: seq<seq<Printable>>): seq<Key> {
    if texts == [] then [] else TypeLine(texts[0]) + TypeLines(texts[1..])
  }

  /** Characters are appended up to the cap, and Enter finishes the line and starts an empty one. */
  lemma {:induction false} TypedLineIsFinished(line: seq<byte>, text: seq<Printable>, rest: seq<Key>)
    requires |line| + |text| <= 128
    ensures Finished(line, TypeLine(text) + rest) == [line + text] + Finished([], rest)
    decreases |text|
  {
    hide Finished;
    if text == [] {
      assert TypeLine(text) + rest == [Enter] + rest && line + text == line;
      FirstFinished(line, Enter, rest);
    } else {
      var after := TypeLine(text[1..]) + rest;
      TypedLineIsFinished(line + [text[0]], text[1..], rest);
      assert TypeLine(text) + rest == [Char(text[0])] + after;
      FirstFinished(line, Char(text[0]), after);
      assert line + [text[0]] + text[1..] == line + text;
    }
  }

  lemma {:induction false} TypedLinesAreFinished(texts: seq<seq<Printable>>)
    requires forall i :: 0 <= i < |texts| ==> |texts[i]| <= 128
    ensures Finished([], TypeLines(texts)) == texts
  {
    hide Finished;
    if texts == [] {
      NothingFinished([]);
    } else {
      TypedLinesAreFinished(texts[1..]);
      TypedLineIsFinished([], texts[0], TypeLines(texts[1..]));
      assert [] + texts[0] == texts[0];
    }
  }

  lemma NothingFinished(line: seq<byte>)
    ensures Finished(line, []) == []
  {
  }

  // --------------------------------------------------------------------- sessions

  datatype Action = Press(key: Key) | ReadLine

  /** The line being typed, and what is waiting to be read. */
  datatype Editor = Editor(line: seq<byte>, waiting: Option<seq<byte>>)

  /** Each Enter is read before the next, and a read waits for an Enter. */
  predicate Enabled(e: Editor, a: Action) {
    match a
    case Press(key) => key == Enter ==> e.waiting.None?
    case ReadLine => e.waiting.Some?
  }

  function Next(e: Editor, a: Action): Editor {
    match a
    case Press(key) => Editor(Edited(e.line, key), if key == Enter then Some(Delivery(e.line)) else e.waiting)
    case ReadLine => Editor(e.line, None)
  }

  ghost predicate IsSession(es: seq<Editor>, acts: seq<Action>) {
    |es| == |acts| + 1 && forall i :: 0 <= i < |acts| ==> Enabled(es[i], acts[i]) && es[i + 1] == Next(es[i], acts[i])
  }

  function Keys(acts: seq<Action>): seq<Key> {
    if acts == [] then [] else (if acts[0].Press? then [acts[0].key] else []) + Keys(acts[1..])
  }

  /** What the reads of a session return, with what is left waiting at its end. */
  function Results(es: seq<Editor>, acts: seq<Action>): seq<seq<byte>>
    requires |es| == |acts| + 1
  {
    if acts == [] then Waiting(es[0])
    else (if acts[0].ReadLine? then Waiting(es[0]) else []) + Results(es[1..], acts[1..])
  }

  function Waiting(e: Editor): seq<seq<byte>> {
    match e.waiting
    case None => []
    case Some(text) => [text]
  }

  function Deliveries(lines: seq<seq<byte>>): seq<seq<byte>> {
    if lines == [] then [] else [Delivery(lines[0])] + Deliveries(lines[1..])
  }

  lemma FirstKey(line: seq<byte>, key: Key, rest: seq<Key>)
    ensures Deliveries(Finished(line, [key] + rest)) ==
      (if key == Enter then [Delivery(line)] else []) + Deliveries(Finished(Edited(line, key), rest))
  {
    hide Edited, Delivery, Finished;
    FirstFinished(line, key, rest);
    var lines := Finished(Edited(line, key), rest);
    assert ([line] + lines)[1..] == lines && [] + lines == lines;
  }

  lemma NoActions(es: seq<Editor>, acts: seq<Action>)
    requires |es| == 1 && acts == []
    ensures Results(es, acts) == Waiting(es[0]) && Keys(acts) == []
  {
  }

  lemma FirstAction(es: seq<Editor>, acts: seq<Action>)
    requires |es| == |acts| + 1 > 1
    ensures var results := Results(es[1..], acts[1..]);
      Results(es, acts) == if acts[0].ReadLine? then Waiting(es[0]) + results else results
    ensures Keys(acts) == if acts[0].Press? then [acts[0].key] + Keys(acts[1..]) else Keys(acts[1..])
  {
  }

  /** A session's reads return the deliveries of exactly the finished lines, once each and in order. */
  lemma {:induction false} ReadsAreTheFinishedLines(es: seq<Editor>, acts: seq<Action>)
    requires IsSession(es, acts)
    ensures Results(es, acts) == Waiting(es[0]) + Deliveries(Finished(es[0].line, Keys(acts)))
    decreases |acts|
  {
    hide Edited, Delivery, Finished, Deliveries, Results, Keys;
    if acts == [] {
      NothingTyped(es[0].line);
      NoActions(es, acts);
      assert Waiting(es[0]) + [] == Waiting(es[0]);
    } else {
      ReadsAreTheFinishedLines(es[1..], acts[1..]);
      assert Enabled(es[0], acts[0]) && es[1] == Next(es[0], acts[0]);
      FirstAction(es, acts);
      if acts[0].Press? {
        FirstKey(es[0].line, acts[0].key, Keys(acts[1..]));
      }
    }
  }

  lemma NothingTyped(line: seq<byte>)
    ensures Deliveries(Finished(line, [])) == []
  {
  }

  function WithNewlines(texts: seq<seq<byte>>): seq<seq<byte>> {
    if texts == [] then [] else [texts[0] + [NEWLINE]] + WithNewlines(texts[1..])
  }

  lemma {:induction false} DeliveredWithNewlines(texts: seq<seq<byte>>)
    requires forall i :: 0 <= i < |texts| ==> |texts[i]| <= 126
    ensures Deliveries(texts) == WithNewlines(texts)
  {
    if texts != [] {
      DeliveredWithNewlines(texts[1..]);
    }
  }

  /** Lines of at most 126 characters that are simply typed are read as typed, each with its newline. */
  lemma TypedLinesAreRead(es: seq<Editor>, acts: seq<Action>, texts: seq<seq<Printable>>)
    requires IsSession(es, acts) && es[0] == Editor([], None) && Keys(acts) == TypeLines(texts)
    requires forall i :: 0 <= i < |texts| ==> |texts[i]| <= 126
    ensures Results(es, acts) == WithNewlines(texts)
  {
    hide Results, Keys, Finished, TypeLines, Deliveries;
    ReadsAreTheFinishedLines(es, acts);
    TypedLinesAreFinished(texts);
    DeliveredWithNewlines(texts);
  }

  /** A character that is taken back at once changes no read, unless the line was full. */
  lemma ErasedCharacterIsNotRead(es: seq<Editor>, acts: seq<Action>, es': seq<Editor>, acts': seq<Action>,
                                 a: seq<Key>, c: Printable, b: seq<Key>)
    requires IsSession(es, acts) && IsSession(es', acts') && es[0] == es'[0]
    requires Keys(acts) == a + b && Keys(acts') == a + ([Char(c), Backspace] + b)
    requires |LineAfter(es[0].line, a)| < 128
    ensures Results(es', acts') == Results(es, acts)
  {
    hide Results, Keys, Finished, LineAfter, Deliveries;
    ReadsAreTheFinishedLines(es, acts);
    ReadsAreTheFinishedLines(es', acts');
    KeyLaws(es[0].line, a, c, b);
  }

  // ------------------------------------------------------------------------- code

  class Keyboard {
    const keyboardbuf: array<byte>
    const termBuf: array<byte>
    var bufIndex: nat
    var count: nat
    var vdX: nat
    var vdY: nat
    var screenX: nat
    var screenY: nat
    var enterFlag: bool
    var termIndex: nat
    var readFlag: bool

    /** The cursor copies: in range, and while a line is typed, never back at the origin before its first character. */
    ghost predicate CursorOk()
      reads this`count, this`screenX, this`screenY, this`vdX, this`vdY
    {
      && screenX < COLS && screenY < ROWS && vdX < COLS && vdY <= ROWS
      && (count > 0 ==> count <= COLS * vdY + vdX)
      && (count > 0 ==>
        (vdX == screenX && vdY == screenY) || (vdX == screenX == 0 && vdY == ROWS && screenY == ROWS - 1))
      && (count == 0 && screenX == COLS - 1 && screenY == 0 ==> vdX == COLS - 1)
    }

    ghost predicate Valid()
      reads this, keyboardbuf, termBuf
    {
      && keyboardbuf != termBuf && keyboardbuf.Length == BUF == termBuf.Length
      && count == bufIndex <= BUF && NUL !in keyboardbuf[..bufIndex] && CursorOk() && TerminalOk()
    }

    /** The terminal's buffer holds a line exactly when one may be read, and only NULs behind it. */
    ghost predicate TerminalOk()
      reads this`termIndex, this`readFlag, termBuf
      requires termBuf.Length == BUF
    {
      && termIndex <= BUF && (readFlag <==> termIndex > 0)
      && NUL !in termBuf[..termIndex] && forall i :: termIndex <= i < BUF ==> termBuf[i] == NUL
    }

    /** The typed line, and what a read would return now. */
    ghost function View(): Editor
      reads this, keyboardbuf, termBuf
      requires Valid()
    {
      Editor(keyboardbuf[..bufIndex], if readFlag then Some(Readable()) else None)
    }

    /** terminal_read's bytes: the buffer up to its NUL, or with the index that lies behind it. */
    ghost function Readable(): seq<byte>
      reads this`termIndex, termBuf
      requires termBuf.Length == BUF && termIndex <= BUF
    {
      termBuf[..termIndex] + if termIndex == BUF then [BUF] else []
    }

    /** clear(), ini_keyboard and terminal_init. */
    constructor ()
      ensures Valid() && View() == Editor([], None) && fresh(keyboardbuf) && fresh(termBuf)
    {
      keyboardbuf := new byte[BUF](_ => NUL);
      termBuf := new byte[BUF](_ => NUL);
      bufIndex, count, vdX, vdY, screenX, screenY, termIndex := 0, 0, 0, 0, 0, 0, 0;
      enterFlag, readFlag := false, false;
    }

    /** putc's effect on the position, which it hands on to the keyboard's copy. */
    method Putc(c: byte)
      modifies this`screenX, this`screenY, this`vdX, this`vdY, this`enterFlag
      ensures if c == NEWLINE || c == RETURN
              then screenX == 0 && screenY == if old(screenY) == ROWS - 1 then ROWS - 1 else old(screenY) + 1
              else screenX == (old(screenX) + 1) % COLS && (old(screenY) < ROWS ==> screenY == old(screenY))
      ensures vdX == screenX && vdY == screenY
    {
      if c == NEWLINE || c == RETURN {
        if screenY == ROWS - 1 {
          enterFlag := true;
          screenX := 0;
          screenY := ROWS - 1;
          vdX, vdY := screenX, screenY;
          return;
        }
        screenY := screenY + 1;
        screenX := 0;
      } else {
        screenX := screenX + 1;
        screenX := screenX % COLS;
        screenY := (screenY + screenX / COLS) % ROWS;
      }
      vdX, vdY := screenX, screenY;
    }

    /** Output by a process while no line is being typed: any printing leaves both copies equal. */
    method ProcessOutput(text: seq<byte>)
      requires Valid() && count == 0
      modifies this`screenX, this`screenY, this`vdX, this`vdY, this`enterFlag
      ensures Valid() && View() == old(View())
    {
      var i := 0;
      while i < |text|
        invariant Valid() && View() == old(View()) && count == 0
      {
        Putc(text[i]);
        i := i + 1;
      }
    }

    /** prout: buffers and prints one character. */
    method Prout(c: byte)
      requires Valid() && c != NUL && c != RETURN
      modifies this`bufIndex, this`count, this`screenX, this`screenY, this`vdX, this`vdY, this`enterFlag, keyboardbuf
      ensures count == bufIndex == if old(count) == BUF then BUF else old(count) + 1
      ensures keyboardbuf[..bufIndex] ==
        if old(count) == BUF then old(keyboardbuf[..bufIndex]) else old(keyboardbuf[..bufIndex]) + [c]
      ensures screenX < COLS && screenY < ROWS && vdX < COLS && vdY <= ROWS
      ensures c != NEWLINE ==> CursorOk()
      ensures c == NEWLINE && old(count) < BUF ==> screenX == 0
      ensures c == NEWLINE && old(count) == BUF ==> screenY > 0
    {
      if count == BUF {
        return;
      }
      if bufIndex <= BUF - 1 {
        keyboardbuf[bufIndex] := c;
      }
      bufIndex := bufIndex + 1;
      vdX := vdX + 1;
      if vdX == COLS {
        Putc(c);
        count := count + 1;
        vdY := vdY + 1;
        vdX := 0;
        if vdY == 25 {
          screenX, screenY := vdX, vdY - 1;
          return;
        }
        screenX, screenY := vdX, vdY;
      } else {
        Putc(c);
        count := count + 1;
      }
    }

    /** backspace. */
    method BackspaceKey()
      requires Valid()
      modifies this`bufIndex, this`count, this`screenX, this`screenY, this`vdX, this`vdY, keyboardbuf
      ensures Valid() && View() == Next(old(View()), Press(Backspace))
      ensures count == bufIndex == if old(count) > 0 then old(count) - 1 else 0
      ensures keyboardbuf[..bufIndex] == old(keyboardbuf[..bufIndex])[..bufIndex]
    {
      hide TerminalOk;
      if count == 0 {
        return;
      }
      if vdX == 0 && vdY == 0 {
        return;
      }
      if vdX == 0 {
        vdX := COLS - 1;
        vdY := vdY - 1;
      } else {
        vdX := vdX - 1;
      }
      screenX, screenY := vdX, vdY;
      if count > 0 && bufIndex > 0 {
        count := count - 1;
        bufIndex := bufIndex - 1;
        keyboardbuf[bufIndex] := NUL;
        assert keyboardbuf[..bufIndex] == old(keyboardbuf[..bufIndex])[..bufIndex];
      }
    }

    /** Ctrl-L. */
    method ClearKey()
      requires Valid()
      modifies this`bufIndex, this`count, this`screenX, this`screenY, this`vdX, this`vdY
      ensures Valid() && View() == Next(old(View()), Press(ClearScreen)) && count == bufIndex == 0
    {
      screenX, screenY := 0, 0;
      count := 0;
      bufIndex := 0;
      vdX := 0;
      vdY := 0;
    }

    method CharKey(c: Printable)
      requires Valid()
      modifies this`bufIndex, this`count, this`screenX, this`screenY, this`vdX, this`vdY, this`enterFlag, keyboardbuf
      ensures Valid() && View() == Next(old(View()), Press(Char(c)))
    {
      Prout(c);
    }

    /** copy_to_teminal: hands the typed bytes to the terminal's buffer. */
    method CopyToTerminal(index: nat)
      requires keyboardbuf != termBuf && keyboardbuf.Length == BUF == termBuf.Length && index <= BUF
      modifies this`readFlag, this`termIndex, termBuf
      ensures readFlag && termIndex == old(termIndex) + index
      ensures termBuf[..index] == keyboardbuf[..index]
      ensures forall j :: index <= j < BUF ==> termBuf[j] == old(termBuf[j])
    {
      readFlag := true;
      for i := 0 to index
        invariant readFlag && termIndex == old(termIndex) + i
        invariant termBuf[..i] == keyboardbuf[..i]
        invariant forall j :: i <= j < BUF ==> termBuf[j] == old(termBuf[j])
      {
        termBuf[i] := keyboardbuf[i];
        termIndex := termIndex + 1;
      }
    }

    method ClearKeyboardBuffer()
      modifies keyboardbuf
      ensures forall j :: 0 <= j < keyboardbuf.Length ==> keyboardbuf[j] == NUL
    {
      for x := 0 to keyboardbuf.Length
        invariant forall j :: 0 <= j < x ==> keyboardbuf[j] == NUL
      {
        keyboardbuf[x] := NUL;
      }
    }

    /** Enter's hand-over of the typed bytes, newline included, and clearing of the keyboard's buffer. */
    method HandOver()
      requires keyboardbuf != termBuf && keyboardbuf.Length == BUF == termBuf.Length && TerminalOk() && !readFlag
      requires 0 < bufIndex <= BUF && NUL !in keyboardbuf[..bufIndex]
      modifies this`readFlag, this`termIndex, termBuf, keyboardbuf
      ensures TerminalOk() && readFlag && termIndex == bufIndex && termBuf[..termIndex] == old(keyboardbuf[..bufIndex])
    {
      CopyToTerminal(bufIndex);
      ClearKeyboardBuffer();
    }

    /** Enter's move of the cursor copies to the start of the next row. */
    method NextRow()
      requires screenX < COLS && screenY < ROWS && vdX < COLS && vdY <= ROWS && (screenX == 0 || screenY > 0)
      modifies this`bufIndex, this`count, this`screenX, this`screenY, this`vdX, this`vdY, this`enterFlag
      ensures bufIndex == count == 0 && CursorOk()
    {
      if vdY <= 24 {
        vdX := 0;
        vdY := vdY + 1;
        bufIndex := 0;
        count := 0;
      } else {
        vdX := 0;
        vdY := 24;
        screenX, screenY := vdX, vdY;
        bufIndex := 0;
        count := 0;
        enterFlag := false;
      }
    }

    /** The Enter case of print_keyboard, the previous line having been read. */
    method EnterKey()
      requires Valid() && !readFlag
      modifies this, keyboardbuf, termBuf
      ensures Valid() && View() == Next(old(View()), Press(Enter)) && count == bufIndex == 0
      ensures old(bufIndex) <= 126 ==> Readable() == old(keyboardbuf[..bufIndex]) + [NEWLINE]
    {
      hide TerminalOk, CursorOk;
      ghost var line := keyboardbuf[..bufIndex];
      Prout(NEWLINE);
      assert keyboardbuf[..bufIndex] == if |line| == BUF then line else line + [NEWLINE];
      HandOver();
      assert Readable() == Delivery(line);
      NextRow();
    }

    /** Byte `i` of the memory that starts with the terminal's buffer and goes on with its 32-bit index. */
    function Memory(i: nat): byte
      reads this, termBuf
      requires termBuf.Length == BUF && termIndex <= BUF
    {
      if i < BUF then termBuf[i] else if i == BUF then termIndex else 0
    }

    /** terminal_read, once a line is waiting and the terminal is scheduled. */
    method TerminalRead(buf: array<byte>) returns (size: nat)
      requires Valid() && readFlag && |Readable()| <= buf.Length && buf != keyboardbuf && buf != termBuf
      modifies this`termIndex, this`readFlag, termBuf, buf
      ensures Valid() && View() == Next(old(View()), ReadLine)
      ensures size <= buf.Length && Some(buf[..size]) == old(View()).waiting
      ensures forall j :: 0 <= j < BUF ==> termBuf[j] == NUL
    {
      ghost var text := Readable();
      assert forall j :: 0 <= j < |text| ==> text[j] == Memory(j) != NUL;
      size := 0;
      while Memory(size) != NUL
        invariant size <= |text|
        decreases |text| - size
      {
        size := size + 1;
      }
      assert size == |text|;
      for i := 0 to size
        invariant termIndex == old(termIndex) && termBuf[..] == old(termBuf[..]) && buf[..i] == text[..i]
      {
        buf[i] := Memory(i);
      }
      for i := 0 to termIndex
        invariant forall j :: 0 <= j < i || termIndex <= j < BUF ==> termBuf[j] == NUL
        invariant termIndex == old(termIndex) && buf[..size] == text
      {
        termBuf[i] := NUL;
      }
      termIndex := 0;
      readFlag := false;
    }
  }
}

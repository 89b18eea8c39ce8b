/**
 Printing of numbers: itoa with the in-place strrev, and the number cases of printf
 (lib.c; ece391support.c has the same two functions).
 */
module Numbers {
  import opened Common
  import opened Residues

  const ZERO: byte := 48
  const MINUS: byte := 45

  /** The entry of itoa's lookup string. */
  function Digit(d: nat): byte
    requires d < 36
  {
    if d < 10 then 48 + d else 55 + d
  }

  /** The digits are 0 to 9 and the capital letters. */
  lemma DigitsAreTheLookupString(d: nat)
    requires d < 36
    ensures Digit(d) == "0123456789ABCDEFGHIJKLMNOPQRSTUVWXYZ"[d] as int
  {
  }

  predicate IsDigit(c: byte, radix: nat) {
    0 <= DigitValue(c) < radix
  }

  function DigitValue(c: byte): int {
    if 48 <= c < 58 then c - 48 else if 65 <= c < 91 then c - 55 else -1
  }

  predicate Digits(s: seq<byte>, radix: nat) {
    forall i :: 0 <= i < |s| ==> IsDigit(s[i], radix)
  }

  /** Positional evaluation, independent of how the digits were made. */
  function Value(s: seq<byte>, radix: nat): (v: nat)
    requires Digits(s, radix)
  {
    if s == [] then 0 else Value(s[..|s| - 1], radix) * radix + DigitValue(s[|s| - 1])
  }

  function Reversed(s: seq<byte>): (r: seq<byte>)
    ensures |r| == |s| && forall i :: 0 <= i < |s| ==> r[i] == s[|s| - 1 - i]
  {
    seq<byte>(|s|, i requires 0 <= i < |s| => s[|s| - 1 - i])
  }

  /** The digits in the order itoa's loop writes them, lowest first. */
  function LowFirst(v: nat, radix: nat): (s: seq<byte>)
    requires 2 <= radix <= 36
    decreases v
  {
    if v == 0 then []
    else
      Shrinks(v, radix);
      [Digit(v % radix)] + LowFirst(v / radix, radix)
  }

  /** What itoa leaves in the buffer. */
  function Text(v: nat, radix: nat): seq<byte>
    requires 2 <= radix <= 36
  {
    if v == 0 then [ZERO] else Reversed(LowFirst(v, radix))
  }

  // ---------------------------------------------------------------------- theorems

  lemma ReversedStep(c: byte, s: seq<byte>)
    ensures Reversed([c] + s) == Reversed(s) + [c]
  {
  }

  lemma NoDigits(radix: nat)
    ensures Digits([], radix) && Value([], radix) == 0
  {
  }

  lemma AppendDigit(high: seq<byte>, d: nat, radix: nat)
    requires 2 <= radix <= 36 && d < radix && Digits(high, radix)
    ensures Digits(high + [Digit(d)], radix) && Value(high + [Digit(d)], radix) == Value(high, radix) * radix + d
  {
    assert DigitValue(Digit(d)) == d;
    assert (high + [Digit(d)])[..|high|] == high;
  }

  lemma {:induction false} LowFirstValue(v: nat, radix: nat)
    requires 2 <= radix <= 36
    ensures Digits(Reversed(LowFirst(v, radix)), radix) && Value(Reversed(LowFirst(v, radix)), radix) == v
    decreases v
  {
    hide Digits, Value, Digit;
    if v == 0 {
      NoDigits(radix);
    } else {
      LowFirstValue(v / radix, radix);
      ReversedStep(Digit(v % radix), LowFirst(v / radix, radix));
      AppendDigit(Reversed(LowFirst(v / radix, radix)), v % radix, radix);
      assert v == v / radix * radix + v % radix;
    }
  }

  lemma {:induction false} LeadingDigit(v: nat, radix: nat)
    requires 2 <= radix <= 36 && v > 0
    ensures LowFirst(v, radix) != [] && LowFirst(v, radix)[|LowFirst(v, radix)| - 1] != ZERO
    decreases v
  {
    if v / radix > 0 {
      LeadingDigit(v / radix, radix);
    } else {
      ModIs(v, 0, v, radix);
    }
  }

  /** itoa's text has the value it was made from, in every radix, and no leading zero. */
  lemma TextIsTheNumber(v: nat, radix: nat)
    requires 2 <= radix <= 36
    ensures Digits(Text(v, radix), radix) && Value(Text(v, radix), radix) == v
    ensures |Text(v, radix)| > 1 ==> Text(v, radix)[0] != ZERO
    ensures NUL !in Text(v, radix)
  {
    LowFirstValue(v, radix);
    if v > 0 {
      LeadingDigit(v, radix);
    }
  }

  /** The text is the only one: any digits without a leading zero that have the value are the text. */
  lemma {:induction false} TextIsUnique(s: seq<byte>, radix: nat)
    requires 2 <= radix <= 36 && Digits(s, radix) && s != [] && (|s| > 1 ==> s[0] != ZERO)
    ensures s == Text(Value(s, radix), radix)
    decreases |s|
  {
    var high, low := s[..|s| - 1], DigitValue(s[|s| - 1]);
    var v := Value(s, radix);
    ModIs(v, Value(high, radix), low, radix);
    assert Digit(low) == s[|s| - 1] by {
      assert IsDigit(s[|s| - 1], radix);
    }
    if high == [] {
      assert s == [Digit(low)];
      assert low > 0 ==> LowFirst(v, radix) == [Digit(low)] + LowFirst(0, radix);
    } else {
      PositiveValue(high, radix);
      TextIsUnique(high, radix);
      ReversedStep(Digit(low), LowFirst(v / radix, radix));
      assert s == high + [Digit(low)];
    }
  }

  lemma {:induction false} PositiveValue(s: seq<byte>, radix: nat)
    requires 2 <= radix <= 36 && Digits(s, radix) && s != [] && s[0] != ZERO
    ensures Value(s, radix) > 0
    decreases |s|
  {
    assert IsDigit(s[0], radix);
    if |s| > 1 {
      PositiveValue(s[..|s| - 1], radix);
      MulMonotone(1, Value(s[..|s| - 1], radix), radix);
    }
  }

  /** Leading zeros add nothing, so the text is also the shortest with its value. */
  lemma {:induction false} TextIsShortest(s: seq<byte>, radix: nat)
    requires 2 <= radix <= 36 && Digits(s, radix) && s != []
    ensures |Text(Value(s, radix), radix)| <= |s|
    decreases |s|
  {
    if |s| > 1 && s[0] == ZERO {
      DropZero(s, radix);
      TextIsShortest(s[1..], radix);
    } else {
      TextIsUnique(s, radix);
    }
  }

  lemma {:induction false} DropZero(s: seq<byte>, radix: nat)
    requires 2 <= radix <= 36 && Digits(s, radix) && |s| > 1 && s[0] == ZERO
    ensures Digits(s[1..], radix) && Value(s[1..], radix) == Value(s, radix)
    decreases |s|
  {
    var high := s[..|s| - 1];
    assert s[1..][..|s| - 2] == high[1..];
    if |s| > 2 {
      DropZero(high, radix);
    } else {
      assert high == [ZERO] && high[1..] == [];
      assert Value(high, radix) == Value(high[..0], radix) * radix + 0 == 0;
    }
  }

  lemma {:induction false} LowFirstLength(v: nat, radix: nat, m: nat)
    requires 2 <= radix <= 36 && v < Power(radix, m)
    ensures |LowFirst(v, radix)| <= m
    decreases m
  {
    if v > 0 {
      QuotientBelow(v, radix, Power(radix, m - 1));
      LowFirstLength(v / radix, radix, m - 1);
    }
  }

  function Power(b: nat, e: nat): nat {
    if e == 0 then 1 else b * Power(b, e - 1)
  }

  /** 2 to the 32nd in the radices printf uses, and in the smallest. */
  lemma WordLengths(v: nat)
    requires v < WORD
    ensures |LowFirst(v, 16)| <= 8 && |LowFirst(v, 10)| <= 10
    ensures forall radix :: 2 <= radix <= 36 ==> |LowFirst(v, radix)| <= 32
  {
    assert Power(16, 8) == WORD && Power(10, 10) >= WORD;
    assert Power(2, 8) == 0x100;
    assert Power(2, 16) == 0x1_0000;
    assert Power(2, 24) == 0x100_0000;
    assert Power(2, 32) == WORD;
    LowFirstLength(v, 16, 8);
    LowFirstLength(v, 10, 10);
    forall radix | 2 <= radix <= 36 ensures |LowFirst(v, radix)| <= 32 {
      PowerGrows(2, radix, 32);
      LowFirstLength(v, radix, 32);
    }
  }

  lemma {:induction false} PowerGrows(a: nat, b: nat, e: nat)
    requires a <= b
    ensures Power(a, e) <= Power(b, e)
  {
    if e > 0 {
      PowerGrows(a, b, e - 1);
      MulMonotone(a, b, Power(a, e - 1));
      MulMonotone(Power(a, e - 1), Power(b, e - 1), b);
    }
  }

  // -------------------------------------------------------------------------- code

  method Strlen(buf: array<byte>, at: nat, ghost s: seq<byte>) returns (len: nat)
    requires Holds(buf[..], at, s)
    ensures len == |s|
  {
    len := 0;
    while buf[at + len] != NUL
      invariant len <= |s| && (len < |s| ==> s[len] == buf[at..at + |s|][len])
      decreases |s| - len
    {
      len := len + 1;
    }
  }

  lemma HoldsReversed(mem: seq<byte>, at: nat, s: seq<byte>)
    requires at + |s| < |mem| && mem[at + |s|] == NUL && NUL !in s
    requires forall j :: at <= j < at + |s| ==> mem[j] == s[|s| - 1 - (j - at)]
    ensures Holds(mem, at, Reversed(s))
  {
    assert mem[at..at + |s|] == Reversed(s);
  }

  /** strrev: reverses the string at `at` in place. */
  method Strrev(buf: array<byte>, at: nat, ghost s: seq<byte>)
    requires Holds(buf[..], at, s)
    modifies buf
    ensures Holds(buf[..], at, Reversed(s))
    ensures forall j :: 0 <= j < at || at + |s| <= j < buf.Length ==> buf[j] == old(buf[j])
  {
    hide Reversed;
    var len := Strlen(buf, at, s);
    var beg: int, end: int := 0, len;
    end := end - 1;
    while beg < end
      invariant 0 <= beg <= end + 2 && beg + end == |s| - 1
      invariant forall j :: at <= j < at + beg || at + end < j < at + |s| ==> buf[j] == s[|s| - 1 - (j - at)]
      invariant forall j :: at + beg <= j <= at + end ==> buf[j] == s[j - at]
      invariant forall j :: 0 <= j < at || at + |s| <= j < buf.Length ==> buf[j] == old(buf[j])
    {
      var tmp := buf[at + end];
      buf[at + end] := buf[at + beg];
      buf[at + beg] := tmp;
      beg := beg + 1;
      end := end - 1;
    }
    HoldsReversed(buf[..], at, s);
  }

  /** itoa into the buffer from `at` on: the digits lowest first, a NUL, and the reversal. */
  method Itoa(value: nat, buf: array<byte>, at: nat, radix: nat)
    requires value < WORD && 2 <= radix <= 36 && at + |Text(value, radix)| < buf.Length
    modifies buf
    ensures Holds(buf[..], at, Text(value, radix))
    ensures var t := Text(value, radix); buf[at..at + |t|] == t && buf[at + |t|] == NUL
    ensures forall j :: 0 <= j < at || at + |Text(value, radix)| < j < buf.Length ==> buf[j] == old(buf[j])
  {
    hide Value, Digits, LowFirst;
    TextIsTheNumber(value, radix);
    if value == 0 {
      buf[at] := ZERO;
      buf[at + 1] := NUL;
      return;
    }
    ghost var s := LowFirst(value, radix);
    LowFirstNoNul(value, radix);
    WriteDigits(value, buf, at, radix);
    Strrev(buf, at, s);
  }

  lemma NextDigit(v: nat, radix: nat)
    requires 2 <= radix <= 36 && v > 0
    ensures 0 <= v / radix < v && 0 <= v % radix < radix
    ensures LowFirst(v, radix) == [Digit(v % radix)] + LowFirst(v / radix, radix)
  {
    Shrinks(v, radix);
  }

  lemma LowFirstNoNul(v: nat, radix: nat)
    requires 2 <= radix <= 36
    ensures NUL !in LowFirst(v, radix)
    ensures v > 0 ==> Text(v, radix) == Reversed(LowFirst(v, radix))
  {
    TextIsTheNumber(v, radix);
    if v > 0 {
      var s := LowFirst(v, radix);
      assert forall i :: 0 <= i < |s| ==> s[i] == Text(v, radix)[|s| - 1 - i];
    }
  }

  /** The loop of itoa and the NUL behind it. */
  method WriteDigits(value: nat, buf: array<byte>, at: nat, radix: nat)
    requires 2 <= radix <= 36 && at + |LowFirst(value, radix)| < buf.Length && NUL !in LowFirst(value, radix)
    modifies buf
    ensures Holds(buf[..], at, LowFirst(value, radix))
    ensures forall j :: 0 <= j < at || at + |LowFirst(value, radix)| < j < buf.Length ==> buf[j] == old(buf[j])
  {
    hide LowFirst, Digit;
    ghost var s := LowFirst(value, radix);
    var newbuf, newval: nat := at, value;
    ghost var k: nat := 0;
    while newval > 0
      invariant newbuf == at + k && k <= |s| && s[k..] == LowFirst(newval, radix)
      invariant buf[at..newbuf] == s[..k]
      invariant forall j :: 0 <= j < at || newbuf <= j < buf.Length ==> buf[j] == old(buf[j])
      decreases newval
    {
      NextDigit(newval, radix);
      var i: nat := newval % radix;
      assert s[k] == s[k..][0] == Digit(i) && s[k + 1..] == s[k..][1..];
      buf[newbuf] := Digit(i);
      newbuf := newbuf + 1;
      newval := newval / radix;
      k := k + 1;
    }
    NoLowFirst(radix);
    assert s[..k] == s;
    buf[newbuf] := NUL;
  }

  lemma NoLowFirst(radix: nat)
    requires 2 <= radix <= 36
    ensures LowFirst(0, radix) == []
  {
  }

  /** puts: the text up to the NUL. */
  method Puts(buf: array<byte>, at: nat, ghost s: seq<byte>) returns (text: seq<byte>)
    requires Holds(buf[..], at, s)
    ensures text == s
  {
    text := [];
    var index := 0;
    while buf[at + index] != NUL
      invariant index <= |s| && text == s[..index]
      invariant index < |s| ==> s[index] == buf[at..at + |s|][index]
      decreases |s| - index
    {
      text := text + [buf[at + index]];
      index := index + 1;
    }
  }

  function Zeros(n: nat): (r: seq<byte>)
    ensures |r| == n && forall i :: 0 <= i < n ==> r[i] == ZERO
  {
    if n == 0 then [] else [ZERO] + Zeros(n - 1)
  }

  lemma PrependZero(s: seq<byte>, radix: nat)
    requires 2 <= radix <= 36 && Digits(s, radix) && s != []
    ensures Digits([ZERO] + s, radix) && Value([ZERO] + s, radix) == Value(s, radix)
  {
    hide Value;
    var t := [ZERO] + s;
    assert t[1..] == s;
    assert IsDigit(ZERO, radix);
    DropZero(t, radix);
  }

  /** Leading zeros do not change the value. */
  lemma {:induction false} ZerosBefore(n: nat, s: seq<byte>, radix: nat)
    requires 2 <= radix <= 36 && Digits(s, radix) && s != []
    ensures Digits(Zeros(n) + s, radix) && Value(Zeros(n) + s, radix) == Value(s, radix)
  {
    hide Value, Digits;
    if n == 0 {
      assert Zeros(n) + s == s;
    } else {
      ZerosBefore(n - 1, s, radix);
      PrependZero(Zeros(n - 1) + s, radix);
      assert Zeros(n) + s == [ZERO] + (Zeros(n - 1) + s);
    }
  }

  /**
   printf's %#x. itoa writes behind the first 8 bytes of the buffer, and the zeros go
   right in front of the digits, so the printed text starts where the digits' count says.
   */
  method PrintHexPadded(value: nat) returns (text: seq<byte>)
    requires value < WORD
    ensures |text| == 8 && Digits(text, 16) && Value(text, 16) == value
    ensures |Text(value, 16)| <= 8 && text == Zeros(8 - |Text(value, 16)|) + Text(value, 16)
  {
    hide Digits, Value, Text, LowFirst;
    TextFits(value);
    TextIsTheNumber(value, 16);
    ghost var digits := Text(value, 16);
    var convBuf := new byte[64](_ => NUL);
    Itoa(value, convBuf, 8, 16);
    var startingIndex := Strlen(convBuf, 8, digits);
    var i := startingIndex;
    while i < 8
      invariant startingIndex <= i <= 8 && Holds(convBuf[..], 8, digits)
      invariant forall j :: startingIndex <= j < i ==> convBuf[j] == ZERO
    {
      convBuf[i] := ZERO;
      assert convBuf[8..8 + |digits|] == digits;
      i := i + 1;
    }
    ghost var padded := Zeros(8 - |digits|) + digits;
    assert Holds(convBuf[..], startingIndex, padded) by {
      assert convBuf[startingIndex..startingIndex + |padded|] == padded;
    }
    text := Puts(convBuf, startingIndex, padded);
    ZerosBefore(8 - |digits|, digits, 16);
  }

  /** printf's %d, for every 32-bit signed value: the negation wraps, and itoa takes it as unsigned. */
  method PrintDecimal(value: int) returns (text: seq<byte>)
    requires -0x8000_0000 <= value < 0x8000_0000
    ensures text == if value < 0 then [MINUS] + Text(-value, 10) else Text(value, 10)
  {
    hide Digits, Value, Text, LowFirst;
    var convBuf := new byte[36](_ => NUL);
    if value < 0 {
      TextFits(-value);
      TextIsTheNumber(-value, 10);
      convBuf[0] := MINUS;
      Itoa(-value % WORD, convBuf, 1, 10);
      ghost var s := [MINUS] + Text(-value, 10);
      assert convBuf[0..|s|] == s by {
        assert convBuf[1..|s|] == Text(-value, 10);
      }
      text := Puts(convBuf, 0, s);
    } else {
      TextFits(value);
      Itoa(value, convBuf, 0, 10);
      text := Puts(convBuf, 0, Text(value, 10));
    }
  }

  /** The texts of 32-bit numbers fit printf's buffers. */
  lemma TextFits(v: nat)
    requires v < WORD
    ensures 1 <= |Text(v, 16)| <= 8 && 1 <= |Text(v, 10)| <= 10
  {
    WordLengths(v);
    if v > 0 {
      LeadingDigit(v, 16);
      LeadingDigit(v, 10);
    }
  }
}

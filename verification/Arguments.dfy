/**
 Command lines of the emulation layer (ece391emulate.c): ece391_execute's in-place
 tokeniser and ece391_getargs' joiner, and how they undo each other.
 */
module Arguments {
  import opened Common

  const MAX_COMMAND: nat := 1023
  const BUFFER: nat := 1026
  const MAX_ARGS: nat := 1024
  const DOT: byte := 46
  const SLASH: byte := 47

  predicate Separator(c: byte) {
    c == SPACE || c == NEWLINE
  }

  // -------------------------------------------------------------------- reference

  /** Length of the longest prefix without a separator. */
  function WordLength(s: seq<byte>): (n: nat)
    ensures n <= |s| && (n < |s| ==> Separator(s[n])) && forall i :: 0 <= i < n ==> !Separator(s[i])
  {
    if s == [] || Separator(s[0]) then 0 else 1 + WordLength(s[1..])
  }

  /** The text behind the separator that ends the first word. */
  function AfterWord(s: seq<byte>): seq<byte> {
    if WordLength(s) == |s| then [] else s[WordLength(s) + 1..]
  }

  /**
   The words of a text. Spaces in front of a word are skipped; a newline ends a word like
   a space does, but where a word would start it ends the whole text.
   */
  function Words(s: seq<byte>): seq<seq<byte>>
    decreases |s|
  {
    if s == [] || s[0] == NEWLINE then []
    else if s[0] == SPACE then Words(s[1..])
    else [s[..WordLength(s)]] + Words(AfterWord(s))
  }

  /** The program and its arguments. */
  function Tokens(command: seq<byte>): (r: seq<seq<byte>>)
    ensures r != []
  {
    [command[..WordLength(command)]] + Words(AfterWord(command))
  }

  /** The arguments with one space between each two. */
  function Join(args: seq<seq<byte>>): seq<byte> {
    if args == [] then [] else if |args| == 1 then args[0] else args[0] + [SPACE] + Join(args[1..])
  }

  predicate CleanWord(w: seq<byte>) {
    forall i :: 0 <= i < |w| ==> w[i] != NUL && !Separator(w[i])
  }

  predicate CleanArguments(args: seq<seq<byte>>) {
    forall i :: 0 <= i < |args| ==> args[i] != [] && CleanWord(args[i])
  }

  // --------------------------------------------------------------------- theorems

  lemma {:induction false} WordLengthOf(w: seq<byte>, rest: seq<byte>)
    requires CleanWord(w) && (rest == [] || Separator(rest[0]))
    ensures WordLength(w + rest) == |w|
  {
    if w == [] {
      assert w + rest == rest;
    } else {
      WordLengthOf(w[1..], rest);
      assert (w + rest)[1..] == w[1..] + rest;
      assert !Separator(w[0]);
    }
  }

  lemma FirstWord(w: seq<byte>, rest: seq<byte>)
    requires w != [] && CleanWord(w) && (rest == [] || Separator(rest[0]))
    ensures Words(w + rest) == [w] + Words(if rest == [] then [] else rest[1..])
  {
    WordLengthOf(w, rest);
    assert (w + rest)[0] == w[0] && !Separator(w[0]);
    assert (w + rest)[..|w|] == w;
    assert rest != [] ==> (w + rest)[|w| + 1..] == rest[1..];
  }

  /** A word that is not empty ends at the first space or newline; a newline where a word would start ends the text. */
  lemma WordBoundaries(w: seq<byte>, rest: seq<byte>)
    requires w != [] && NUL !in w && SPACE !in w && NEWLINE !in w
    ensures Words(w + ([SPACE] + rest)) == [w] + Words(rest) == Words(w + ([NEWLINE] + rest)) && Words(w) == [w]
    ensures Words([SPACE] + rest) == Words(rest) && Words([NEWLINE] + rest) == [] == Words([])
  {
    hide Words;
    assert CleanWord(w) by {
      assert forall i :: 0 <= i < |w| ==> w[i] in w;
    }
    FirstWord(w, [SPACE] + rest);
    FirstWord(w, [NEWLINE] + rest);
    FirstWord(w, []);
    assert w + [] == w && ([SPACE] + rest)[1..] == rest == ([NEWLINE] + rest)[1..];
    SpaceSkipped([SPACE] + rest);
    NoWords([NEWLINE] + rest);
    NoWords([]);
  }

  lemma {:induction false} WordsOfJoin(args: seq<seq<byte>>)
    requires CleanArguments(args)
    ensures Words(Join(args)) == args
  {
    hide Words, CleanWord;
    if args == [] {
      NoWords([]);
    } else if |args| == 1 {
      FirstWord(args[0], []);
      NoWords([]);
      assert args[0] + [] == args[0];
    } else {
      WordsOfJoin(args[1..]);
      FirstWord(args[0], [SPACE] + Join(args[1..]));
      assert args[0] + [SPACE] + Join(args[1..]) == args[0] + ([SPACE] + Join(args[1..]));
    }
  }

  lemma NoWords(s: seq<byte>)
    requires s == [] || s[0] == NEWLINE
    ensures Words(s) == []
  {
  }

  /** Tokenising the program and the joined arguments gives back the program and the arguments. */
  lemma JoinThenTokenise(program: seq<byte>, args: seq<seq<byte>>)
    requires CleanWord(program) && CleanArguments(args)
    ensures Tokens(program + [SPACE] + Join(args)) == [program] + args
  {
    var rest := [SPACE] + Join(args);
    WordLengthOf(program, rest);
    WordsOfJoin(args);
    assert program + [SPACE] + Join(args) == program + rest;
    assert (program + rest)[..|program|] == program && (program + rest)[|program| + 1..] == Join(args);
  }

  /** A text of n bytes has at most (n + 1) / 2 words, all clean. */
  lemma {:induction false} WordsAreCleanAndFew(s: seq<byte>)
    requires NUL !in s
    ensures CleanArguments(Words(s)) && 2 * |Words(s)| <= |s| + 1
    decreases |s|
  {
    if s != [] && s[0] != NEWLINE {
      if s[0] == SPACE {
        WordsAreCleanAndFew(s[1..]);
      } else {
        WordsAreCleanAndFew(AfterWord(s));
        assert s[..WordLength(s)] != [];
      }
    }
  }

  /** Any command's arguments can be joined and tokenised again without change. */
  lemma TokenisedArgumentsSurvive(command: seq<byte>)
    requires NUL !in command
    ensures Tokens(Tokens(command)[0] + [SPACE] + Join(Tokens(command)[1..])) == Tokens(command)
  {
    WordsAreCleanAndFew(AfterWord(command));
    JoinThenTokenise(command[..WordLength(command)], Words(AfterWord(command)));
  }

  // ------------------------------------------------------------------------- code

  /** The first `n` argument pointers lead to the strings `words`, which end at `end` or before. */
  ghost predicate PointTo(mem: seq<byte>, args: seq<nat>, n: nat, words: seq<seq<byte>>, end: nat) {
    n == |words| <= |args| && forall i :: 0 <= i < n ==> Holds(mem, args[i], words[i]) && args[i] + |words[i]| <= end
  }

  /** The inner loops that look for the end of a word. */
  method ScanWord(buf: array<byte>, from: nat, ghost text: seq<byte>) returns (scan: nat)
    requires Holds(buf[..], from, text)
    ensures scan == from + WordLength(text)
  {
    scan := from;
    ghost var k := 0;
    while buf[scan] != NUL && buf[scan] != SPACE && buf[scan] != NEWLINE
      invariant scan == from + k && k <= WordLength(text)
      invariant k < |text| ==> buf[scan] == buf[from..from + |text|][k]
      decreases |text| - k
    {
      scan := scan + 1;
      k := k + 1;
    }
  }

  lemma SpaceSkipped(text: seq<byte>)
    requires text != [] && text[0] == SPACE
    ensures Words(text) == Words(text[1..])
  {
  }

  /** The loop that skips spaces. */
  method SkipSpaces(buf: array<byte>, from: nat, ghost text: seq<byte>) returns (scan: nat)
    requires Holds(buf[..], from, text)
    ensures from <= scan <= from + |text| && buf[scan] != SPACE
    ensures Words(text) == Words(text[scan - from..])
  {
    hide Words;
    scan := from;
    while buf[scan] == SPACE
      invariant from <= scan <= from + |text| && Words(text) == Words(text[scan - from..])
      decreases from + |text| - scan
    {
      assert scan < from + |text|;
      assert text[scan - from] == buf[from..from + |text|][scan - from];
      assert text[scan - from..][1..] == text[scan + 1 - from..];
      SpaceSkipped(text[scan - from..]);
      scan := scan + 1;
    }
  }

  /** Storing a NUL where the parsed part ends, or behind it, keeps the strings found so far. */
  lemma StillPoint(mem: seq<byte>, args: seq<nat>, n: nat, words: seq<seq<byte>>, end: nat, at: nat, last: nat)
    requires PointTo(mem, args, n, words, end) && end <= at < |mem| && n < |args|
    ensures PointTo(mem[at := NUL], args[n := last], n, words, end)
  {
    forall i | 0 <= i < n ensures Holds(mem[at := NUL], args[i], words[i]) {
      assert mem[at := NUL][args[i]..args[i] + |words[i]|] == mem[args[i]..args[i] + |words[i]|];
    }
  }

  /** Cutting the text off behind its first word: the word stands in front of the cut, the rest behind it. */
  lemma WordCut(mem: seq<byte>, from: nat, text: seq<byte>)
    requires Holds(mem, from, text)
    ensures var end := from + WordLength(text);
      && end < |mem| && Holds(mem[end := NUL], from, text[..WordLength(text)])
      && (mem[end] == NUL <==> WordLength(text) == |text|)
      && Holds(mem[end := NUL], if mem[end] == NUL then end else end + 1, AfterWord(text))
      && |AfterWord(text)| == (if mem[end] == NUL then 0 else |text| - WordLength(text) - 1)
      && NUL !in AfterWord(text)
  {
    hide WordLength;
    var k := WordLength(text);
    var end, mem' := from + k, mem[from + k := NUL];
    assert mem'[from..end] == mem[from..from + |text|][..k];
    assert k < |text| ==> mem[end] == mem[from..from + |text|][k];
    if k < |text| {
      assert mem'[end + 1..from + |text|] == mem[from..from + |text|][k + 1..] == AfterWord(text);
      assert Holds(mem', end + 1, AfterWord(text));
      assert NUL !in text[k + 1..];
    } else {
      assert AfterWord(text) == [] && Holds(mem', end, []);
    }
  }

  /** One more pointer, to a string that ends at `end` or before. */
  lemma OneMore(mem: seq<byte>, args: seq<nat>, n: nat, words: seq<seq<byte>>, w: seq<byte>, end: nat)
    requires PointTo(mem, args, n, words, end) && n < |args| && Holds(mem, args[n], w) && args[n] + |w| <= end
    ensures PointTo(mem, args, n + 1, words + [w], end)
  {
  }

  lemma PointToLater(mem: seq<byte>, args: seq<nat>, n: nat, words: seq<seq<byte>>, end: nat, end': nat)
    requires PointTo(mem, args, n, words, end) && end <= end'
    ensures PointTo(mem, args, n, words, end')
  {
  }

  /** A round of the argument loop at the start of a word: its pointer is stored and its end cut off. */
  method TakeWord(buf: array<byte>, args: array<nat>, from: nat, n: nat, ghost text: seq<byte>, ghost words: seq<seq<byte>>)
    returns (scan: nat)
    requires Holds(buf[..], from, text) && text != [] && !Separator(text[0])
    requires PointTo(buf[..], args[..], n, words, from) && n < args.Length
    modifies buf, args
    ensures Holds(buf[..], scan, AfterWord(text)) && from <= scan && scan + |AfterWord(text)| <= from + |text|
    ensures PointTo(buf[..], args[..], n + 1, words + [text[..WordLength(text)]], scan)
  {
    hide PointTo, Holds, WordLength, AfterWord;
    ghost var mem, pointers := buf[..], args[..];
    WordCut(mem, from, text);
    args[n] := from;
    scan := ScanWord(buf, from, text);
    ghost var end := scan;
    StillPoint(mem, pointers, n, words, from, end, from);
    if buf[scan] != NUL {
      buf[scan] := NUL;
      scan := scan + 1;
    }
    assert buf[..] == mem[end := NUL] && args[..] == pointers[n := from];
    PointToLater(buf[..], args[..], n, words, from, scan);
    OneMore(buf[..], args[..], n, words, text[..WordLength(text)], scan);
  }

  lemma LaterPart(mem: seq<byte>, args: seq<nat>, n: nat, words: seq<seq<byte>>, from: nat, text: seq<byte>, k: nat)
    requires Holds(mem, from, text) && k <= |text| && PointTo(mem, args, n, words, from)
    ensures Holds(mem, from + k, text[k..]) && PointTo(mem, args, n, words, from + k)
    ensures mem[from + k] == if k < |text| then text[k] else NUL
  {
    assert mem[from + k..from + |text|] == mem[from..from + |text|][k..];
    assert k < |text| ==> mem[from + k] == mem[from..from + |text|][k];
  }

  lemma TextFits(mem: seq<byte>, at: nat, text: seq<byte>)
    requires Holds(mem, at, text)
    ensures at + |text| < |mem| && (text == [] <==> mem[at] == NUL) && (text != [] ==> text[0] == mem[at])
  {
    assert text != [] ==> text[0] == mem[at..at + |text|][0];
  }

  lemma WordsStep(text: seq<byte>)
    requires text != [] && !Separator(text[0])
    ensures Words(text) == [text[..WordLength(text)]] + Words(AfterWord(text)) && |AfterWord(text)| < |text|
  {
  }

  /** The argument loop, from behind the program's name on. */
  method ParseArguments(buf: array<byte>, args: array<nat>, from: nat, ghost text: seq<byte>, ghost first: seq<byte>)
    returns (n: nat)
    requires Holds(buf[..], from, text) && |Words(text)| + 2 < args.Length
    requires PointTo(buf[..], args[..], 1, [first], from)
    modifies buf, args
    ensures n == 1 + |Words(text)| && PointTo(buf[..], args[..], n, [first] + Words(text), from + |text|)
  {
    hide Words, WordLength, PointTo, AfterWord, Holds;
    var scan: nat := from;
    n := 1;
    ghost var words, rest := [first], text;
    while true
      invariant from <= scan && scan + |rest| <= from + |text| && Holds(buf[..], scan, rest)
      invariant n == |words| && words + Words(rest) == [first] + Words(text)
      invariant PointTo(buf[..], args[..], n, words, scan)
      decreases |rest|
    {
      var start := SkipSpaces(buf, scan, rest);
      LaterPart(buf[..], args[..], n, words, scan, rest, start - scan);
      rest := rest[start - scan..];
      assert n + |Words(rest)| == 1 + |Words(text)|;
      scan := start;
      TextFits(buf[..], scan, rest);
      if buf[scan] == NUL || buf[scan] == NEWLINE {
        ghost var mem, pointers := buf[..], args[..];
        StillPoint(mem, pointers, n, words, scan, scan, args[n]);
        buf[scan] := NUL;
        assert buf[..] == mem[scan := NUL] && args[..] == pointers[n := pointers[n]];
        NoWords(rest);
        assert words == [first] + Words(text);
        PointToLater(buf[..], args[..], n, words, scan, from + |text|);
        break;
      }
      WordsStep(rest);
      scan := TakeWord(buf, args, scan, n, rest, words);
      n := n + 1;
      words, rest := words + [rest[..WordLength(rest)]], AfterWord(rest);
    }
  }

  /** The "./" and the strcpy behind it. */
  method CopyCommand(command: seq<byte>, buf: array<byte>)
    requires NUL !in command && buf.Length == BUFFER && |command| <= MAX_COMMAND
    modifies buf
    ensures buf[0] == DOT && buf[1] == SLASH && Holds(buf[..], 2, command)
  {
    buf[0] := DOT;
    buf[1] := SLASH;
    for i := 0 to |command|
      invariant buf[0] == DOT && buf[1] == SLASH && buf[2..2 + i] == command[..i]
    {
      buf[2 + i] := command[i];
    }
    buf[2 + |command|] := NUL;
    assert buf[2..2 + |command|] == command;
  }

  lemma WithDotSlash(mem: seq<byte>, w: seq<byte>)
    requires Holds(mem, 2, w) && mem[0] == DOT && mem[1] == SLASH
    ensures Holds(mem, 0, [DOT, SLASH] + w)
  {
    assert mem[0..2 + |w|] == [mem[0], mem[1]] + mem[2..2 + |w|];
  }

  /**
   The parsing part of ece391_execute: on success the first `n` entries of `args` are
   the offsets of the argument strings in `buf`, which start with "./" and the program.
   */
  method Tokenise(command: seq<byte>, buf: array<byte>, args: array<nat>) returns (ok: bool, n: nat)
    requires NUL !in command && buf.Length == BUFFER && args.Length == MAX_ARGS
    modifies buf, args
    ensures ok <==> |command| <= MAX_COMMAND
    ensures ok ==> 1 <= n < MAX_ARGS && n == |Tokens(command)|
    ensures ok ==> var mem, argv := buf[..], args[..];
      forall i :: 0 <= i < n ==>
        var w := if i == 0 then [DOT, SLASH] + Tokens(command)[0] else Tokens(command)[i];
        argv[i] + |w| < |mem| && mem[argv[i]..argv[i] + |w|] == w && mem[argv[i] + |w|] == NUL
  {
    hide Words, WordLength, AfterWord, Holds, PointTo;
    if MAX_COMMAND < |command| {
      return false, 0;
    }
    CopyCommand(command, buf);
    ghost var mem := buf[..];
    WordCut(mem, 2, command);
    ghost var program, rest := command[..WordLength(command)], AfterWord(command);
    var scan := ScanWord(buf, 2, command);
    args[0] := 0;
    n := 1;
    ghost var end := scan;
    WithDotSlash(mem[end := NUL], program);
    FirstPointer(mem[end := NUL], args[..], [DOT, SLASH] + program);
    WordsAreCleanAndFew(rest);
    if buf[scan] != NUL {
      buf[scan] := NUL;
      scan := scan + 1;
      assert buf[..] == mem[end := NUL];
      PointToLater(buf[..], args[..], 1, [[DOT, SLASH] + program], end, scan);
      n := ParseArguments(buf, args, scan, rest, [DOT, SLASH] + program);
      PointToLater(buf[..], args[..], n, [[DOT, SLASH] + program] + Words(rest), scan + |rest|, BUFFER);
    } else {
      assert buf[..] == mem[end := NUL];
      NoWords(rest);
      PointToLater(buf[..], args[..], n, [[DOT, SLASH] + program] + Words(rest), end, BUFFER);
    }
    PointersLead(buf[..], args[..], n, command);
    ok := true;
  }

  lemma PointersLead(mem: seq<byte>, argv: seq<nat>, n: nat, command: seq<byte>)
    requires PointTo(mem, argv, n, [[DOT, SLASH] + Tokens(command)[0]] + Tokens(command)[1..], BUFFER)
    ensures n == |Tokens(command)| <= |argv|
    ensures forall i :: 0 <= i < n ==>
      var w := if i == 0 then [DOT, SLASH] + Tokens(command)[0] else Tokens(command)[i];
      argv[i] + |w| < |mem| && mem[argv[i]..argv[i] + |w|] == w && mem[argv[i] + |w|] == NUL
  {
    hide Tokens;
    var words := [[DOT, SLASH] + Tokens(command)[0]] + Tokens(command)[1..];
    assert forall i :: 0 < i < n ==> words[i] == Tokens(command)[i];
  }

  lemma FirstPointer(mem: seq<byte>, args: seq<nat>, first: seq<byte>)
    requires |args| > 0 && args[0] == 0 && Holds(mem, 0, first)
    ensures PointTo(mem, args, 1, [first], |first|)
  {
  }

  // ---------------------------------------------------------------------- getargs

  /** The first `k` arguments, joined, fill `nbytes` exactly. */
  predicate FilledBy(args: seq<seq<byte>>, nbytes: int, k: nat) {
    1 <= k <= |args| && |Join(args[..k])| == nbytes
  }

  /** ece391_getargs stores a byte behind the `nbytes` it was given. */
  predicate Overruns(args: seq<seq<byte>>, nbytes: int) {
    exists k: nat :: k <= |args| && FilledBy(args, nbytes, k)
  }

  /** Joining one argument more. */
  lemma {:induction false} JoinSnoc(args: seq<seq<byte>>, w: seq<byte>)
    ensures Join(args + [w]) == Join(args) + (if args == [] then [] else [SPACE]) + w
  {
    hide Join;
    JoinStep(args + [w]);
    NoArguments();
    if args == [] {
      assert [] + [w] == [w];
    } else {
      JoinStep(args);
      JoinSnoc(args[1..], w);
      assert (args + [w])[1..] == args[1..] + [w];
    }
  }

  lemma {:induction false} JoinGrows(args: seq<seq<byte>>, i: nat, j: nat)
    requires 1 <= i < j <= |args|
    ensures |Join(args[..i])| < |Join(args[..j])|
    decreases j
  {
    hide Join;
    assert args[..j] == args[..j - 1] + [args[j - 1]];
    JoinSnoc(args[..j - 1], args[j - 1]);
    if i < j - 1 {
      JoinGrows(args, i, j - 1);
    }
  }

  /** Whether copying argument `k` fills the buffer, after those before it left room. */
  lemma OverrunDecided(args: seq<seq<byte>>, nbytes: int, k: nat)
    requires 1 <= k <= |args| && (k > 1 ==> |Join(args[..k - 1])| < nbytes)
    ensures var length := |Join(args[..k])|;
      && (length == nbytes ==> Overruns(args, nbytes))
      && (length > nbytes || (length < nbytes && k == |args|) ==> !Overruns(args, nbytes))
  {
    hide Join;
    if |Join(args[..k])| == nbytes {
      assert FilledBy(args, nbytes, k);
    }
    forall j: nat | 1 <= j <= |args| && j != k
      ensures if j < k then |Join(args[..j])| < nbytes else |Join(args[..k])| < |Join(args[..j])|
    {
      if j < k - 1 {
        JoinGrows(args, j, k - 1);
      } else if j > k {
        JoinGrows(args, k, j);
      }
    }
  }

  /** A single argument of exactly `nbytes` bytes is a case. */
  lemma FullArgumentOverruns(arg: seq<byte>)
    ensures Overruns([arg], |arg|)
  {
    assert [arg][..1] == [arg];
    assert FilledBy([arg], |arg|, 1);
  }

  lemma {:induction false} JoinedWordsAreShort(s: seq<byte>)
    ensures |Join(Words(s))| <= |s|
    decreases |s|
  {
    hide Join;
    NoArguments();
    if s != [] && s[0] != NEWLINE {
      if s[0] == SPACE {
        JoinedWordsAreShort(s[1..]);
      } else {
        JoinedWordsAreShort(AfterWord(s));
        JoinStep(Words(s));
      }
    }
  }

  /** The arguments of a command that ece391_execute accepts never fill a buffer of 1024 bytes, nor overrun it. */
  lemma CommandsNeverOverrun(command: seq<byte>, nbytes: int)
    requires |command| <= MAX_COMMAND < nbytes
    ensures |Join(Tokens(command)[1..])| < nbytes && !Overruns(Tokens(command)[1..], nbytes)
  {
    hide Join, Words;
    var args := Words(AfterWord(command));
    JoinedWordsAreShort(AfterWord(command));
    assert Tokens(command)[1..] == args;
    forall k: nat | 1 <= k <= |args| ensures |Join(args[..k])| < nbytes {
      assert args[..|args|] == args;
      if k < |args| {
        JoinGrows(args, k, |args|);
      }
    }
  }

  lemma NoOverrun(args: seq<seq<byte>>, nbytes: int)
    ensures args == [] ==> !Overruns(args, nbytes)
  {
  }

  lemma LastIsLongest(args: seq<seq<byte>>, k: nat)
    requires 1 <= k <= |args|
    ensures |Join(args[..k])| + (if k < |args| then 1 else 0) <= |Join(args)|
  {
    hide Join;
    assert args[..|args|] == args;
    if k < |args| {
      JoinGrows(args, k, |args|);
    }
  }

  /** What copying argument `idx` behind the earlier ones and a space does. */
  lemma NextArgument(args: seq<seq<byte>>, nbytes: int, idx: nat)
    requires idx < |args| && (idx > 0 ==> |Join(args[..idx])| < nbytes)
    ensures Join(args[..idx + 1]) == (if idx == 0 then [] else Join(args[..idx]) + [SPACE]) + args[idx]
    ensures var length := |Join(args[..idx + 1])|;
      && length + (if idx + 1 < |args| then 1 else 0) <= |Join(args)|
      && (length == nbytes ==> Overruns(args, nbytes))
      && (length > nbytes || (length < nbytes && idx + 1 == |args|) ==> !Overruns(args, nbytes))
  {
    hide Join, Overruns;
    assert args[..idx + 1] == args[..idx] + [args[idx]];
    JoinSnoc(args[..idx], args[idx]);
    NoArguments();
    OverrunDecided(args, nbytes, idx + 1);
    LastIsLongest(args, idx + 1);
  }

  /**
   ece391_getargs. Copying an argument also stores its NUL, which comes to stand one byte
   behind the `nbytes` asked for exactly when some arguments from the first on just fill
   them; the buffer needs that byte only then.
   */
  method GetArgs(args: seq<seq<byte>>, buf: array<byte>, nbytes: int) returns (r: int)
    requires forall i :: 0 <= i < |args| ==> NUL !in args[i]
    requires nbytes <= buf.Length && (nbytes == buf.Length ==> !Overruns(args, nbytes))
    modifies buf
    ensures r == if |Join(args)| < nbytes then 0 else -1
    ensures r == 0 ==> |Join(args)| < buf.Length && buf[..|Join(args)|] == Join(args) && buf[|Join(args)|] == NUL
    ensures 0 <= nbytes < buf.Length ==> buf[nbytes] == if Overruns(args, nbytes) then NUL else old(buf[nbytes])
    ensures forall j :: 0 <= j < buf.Length && j > nbytes ==> buf[j] == old(buf[j])
  {
    hide Join, Overruns;
    var left: int, at: nat, idx: nat := nbytes, 0, 0;
    NoArguments();
    NoOverrun(args, nbytes);
    while idx < |args|
      invariant at + left == nbytes && (at > 0 ==> left >= 0) && idx <= |args| && (idx == 0 ==> at == 0)
      invariant idx < |args| || args == []
      invariant idx > 0 ==> at == |Join(args[..idx])| + 1 && buf[..at] == Join(args[..idx]) + [SPACE]
      invariant NUL !in buf[..at]
      invariant forall j :: 0 <= j < buf.Length && j >= nbytes ==> buf[j] == old(buf[j])
    {
      var arg := args[idx];
      NextArgument(args, nbytes, idx);
      if |arg| > left {
        return -1;
      }
      ghost var before := buf[..at];
      Strcpy(buf, at, arg);
      at := at + |arg|;
      left := left - |arg|;
      idx := idx + 1;
      if idx >= |args| {
        break;
      }
      if left < 1 {
        return -1;
      }
      buf[at] := SPACE;
      at := at + 1;
      left := left - 1;
      assert buf[..at] == before + arg + [SPACE];
    }
    assert args[..idx] == args;
    if left < 1 {
      return -1;
    }
    buf[at] := NUL;
    return 0;
  }

  lemma NoArguments()
    ensures Join([]) == []
  {
  }

  lemma JoinStep(args: seq<seq<byte>>)
    requires args != []
    ensures Join(args) == args[0] + if |args| == 1 then [] else [SPACE] + Join(args[1..])
  {
  }

  /** ece391_strcpy at an offset. */
  method Strcpy(buf: array<byte>, at: nat, s: seq<byte>)
    requires at + |s| < buf.Length
    modifies buf
    ensures buf[..at + |s|] == old(buf[..at]) + s && buf[at + |s|] == NUL
    ensures forall j :: at + |s| < j < buf.Length ==> buf[j] == old(buf[j])
  {
    for i := 0 to |s|
      invariant buf[..at + i] == old(buf[..at]) + s[..i]
      invariant forall j :: at + i <= j < buf.Length ==> buf[j] == old(buf[j])
    {
      buf[at + i] := s[i];
    }
    buf[at + |s|] := NUL;
  }
}

/**
 The line search of the grep program: a 1024-byte buffer is refilled, scanned
 and shifted. It is compared with splitting the file into lines and keeping
 those that contain the pattern.
 */
module Grep {
  import opened Common

  const BUFSIZE: nat := 1024

  // ---------------------------------------------------------------- reference

  /** The file's lines, without their newlines; a final newline starts no line. */
  function Lines(file: seq<byte>): seq<seq<byte>>
    decreases |file|
  {
    if file == [] then []
    else
      var k := Find(file, NEWLINE, 0);
      [file[..k]] + if k == |file| then [] else Lines(file[k + 1..])
  }

  ghost predicate Contains(line: seq<byte>, pat: seq<byte>) {
    exists k: nat :: OccursAt(line, pat, k)
  }

  ghost predicate OccursAt(line: seq<byte>, pat: seq<byte>, k: nat) {
    k + |pat| <= |line| && line[k..k + |pat|] == pat
  }

  lemma OccursShifted(line: seq<byte>, pat: seq<byte>, k: nat)
    requires k < |line|
    ensures OccursAt(line, pat, k) <==> OccursAt(line[k..], pat, 0)
    ensures OccursAt(line, pat, k) && pat != [] ==> line[k] == pat[0]
  {
    if k + |pat| <= |line| {
      assert line[k..][0..|pat|] == line[k..k + |pat|];
      assert pat != [] ==> line[k..k + |pat|][0] == line[k];
    }
  }

  /** The entries of `lines` that contain the non-empty pattern, in order. */
  ghost function Select(pat: seq<byte>, lines: seq<seq<byte>>): seq<seq<byte>> {
    if lines == [] then [] else Kept(pat, lines[0]) + Select(pat, lines[1..])
  }

  ghost function Kept(pat: seq<byte>, line: seq<byte>): seq<seq<byte>> {
    if pat != [] && Contains(line, pat) then [line] else []
  }

  lemma SelectFirst(pat: seq<byte>, line: seq<byte>, lines: seq<seq<byte>>)
    ensures Select(pat, [line] + lines) == Kept(pat, line) + Select(pat, lines)
  {
    hide Kept;
    assert ([line] + lines)[1..] == lines;
  }

  lemma NothingSelected(pat: seq<byte>)
    ensures Select(pat, []) == []
  {
  }

  lemma {:induction false} SelectConcat(pat: seq<byte>, a: seq<seq<byte>>, b: seq<seq<byte>>)
    ensures Select(pat, a + b) == Select(pat, a) + Select(pat, b)
  {
    hide Kept, Select;
    if a == [] {
      assert a + b == b;
      NothingSelected(pat);
    } else {
      SelectConcat(pat, a[1..], b);
      SelectFirst(pat, a[0], a[1..]);
      SelectFirst(pat, a[0], a[1..] + b);
      assert a == [a[0]] + a[1..] && a + b == [a[0]] + (a[1..] + b);
    }
  }

  /** A line cut into consecutive parts of BUFSIZE bytes and a shorter rest. */
  function Cut(line: seq<byte>): seq<seq<byte>> {
    if |line| <= BUFSIZE then [line] else [line[..BUFSIZE]] + Cut(line[BUFSIZE..])
  }

  function CutAll(lines: seq<seq<byte>>): seq<seq<byte>> {
    if lines == [] then [] else Cut(lines[0]) + CutAll(lines[1..])
  }

  // ------------------------------------------------------- what the loop scans

  /** The parts of the unread text that the loop searches one after the other. */
  function Pieces(rest: seq<byte>): seq<seq<byte>>
    decreases |rest|
  {
    if rest == [] then []
    else
      var k := Find(rest, NEWLINE, 0);
      if k >= BUFSIZE then [rest[..BUFSIZE]] + Pieces(rest[BUFSIZE..])
      else [rest[..k]] + if k == |rest| then [] else Pieces(rest[k + 1..])
  }

  /** One scan takes `line` off the unread text `rest` and leaves `next`. */
  ghost predicate Scanned(rest: seq<byte>, line: seq<byte>, next: seq<byte>) {
    && NEWLINE !in line && |line| <= BUFSIZE && line <= rest
    && (|| (|line| < |rest| && |line| < BUFSIZE && rest[|line|] == NEWLINE && next == rest[|line| + 1..])
        || (|line| == BUFSIZE && next == rest[BUFSIZE..])
        || (line == rest && next == []))
  }

  /** The first newline after a scanned line, if the line is not the whole text. */
  lemma ScannedEnd(rest: seq<byte>, line: seq<byte>, next: seq<byte>)
    requires Scanned(rest, line, next)
    ensures line == rest[..|line|] && Find(rest, NEWLINE, 0) >= |line|
    ensures |line| == |rest| || rest[|line|] == NEWLINE ==> Find(rest, NEWLINE, 0) == |line|
  {
    var k := Find(rest, NEWLINE, 0);
    assert forall j :: 0 <= j < |line| ==> rest[j] == line[j] != NEWLINE;
    if |line| == |rest| || rest[|line|] == NEWLINE {
      FindUnique(rest, NEWLINE, 0, |line|);
    }
  }

  lemma FullPiece(rest: seq<byte>)
    requires Find(rest, NEWLINE, 0) >= BUFSIZE
    ensures Pieces(rest) == [rest[..BUFSIZE]] + Pieces(rest[BUFSIZE..])
  {
    hide Find;
  }

  lemma ShortPiece(rest: seq<byte>, k: nat)
    requires rest != [] && k == Find(rest, NEWLINE, 0) < BUFSIZE
    ensures Pieces(rest) == [rest[..k]] + Pieces(if k == |rest| then [] else rest[k + 1..])
  {
    hide Find;
  }

  lemma FirstPiece(rest: seq<byte>, line: seq<byte>, next: seq<byte>)
    requires Scanned(rest, line, next) && rest != []
    ensures Pieces(rest) == [line] + Pieces(next)
  {
    hide Find, Pieces;
    ScannedEnd(rest, line, next);
    if |line| == BUFSIZE {
      assert line == rest ==> next == rest[BUFSIZE..];
      FullPiece(rest);
    } else {
      ShortPiece(rest, |line|);
    }
  }

  lemma PieceScanned(pat: seq<byte>, rest: seq<byte>, line: seq<byte>, next: seq<byte>)
    requires Scanned(rest, line, next)
    ensures Select(pat, Pieces(rest)) == Kept(pat, line) + Select(pat, Pieces(next))
  {
    hide Pieces;
    if rest == [] {
      assert line == [] == next;
    } else {
      FirstPiece(rest, line, next);
      assert ([line] + Pieces(next))[1..] == Pieces(next);
    }
  }

  // ------------------------------------------------------------------- program

  /** `s[i]` of the NUL-terminated string holding `s`. */
  function CharAt(s: seq<byte>, i: nat): byte
    requires i <= |s|
  {
    if i == |s| then NUL else s[i]
  }

  /** Compares at most |pat| bytes of the string at `data[at..]`, which ends at `end`, with `pat`. */
  method Strncmp(data: array<byte>, at: nat, pat: seq<byte>, ghost end: nat) returns (r: int)
    requires at <= end < data.Length && data[end] == NUL
    requires NUL !in pat && NUL !in data[at..end]
    ensures r == 0 <==> OccursAt(data[at..end], pat, 0)
  {
    var n := |pat|;
    if n == 0 {
      return 0;
    }
    var i := 0;
    while data[at + i] == CharAt(pat, i)
      invariant i < |pat| && n == |pat| - i && at + i <= end
      invariant data[at..at + i] == pat[..i]
      invariant OccursAt(data[at..end], pat, 0) ==> data[at..at + |pat|] == pat
      decreases n
    {
      assert data[at..at + i + 1] == pat[..i + 1] by {
        assert data[at + i] == pat[i];
      }
      n := n - 1;
      if n == 0 {
        assert |pat| == i + 1 && data[at + i] == pat[i] != NUL && at + i < end;
        assert data[at..end][..i + 1] == data[at..at + i + 1];
        return 0;
      }
      i := i + 1;
    }
    r := data[at + i] - CharAt(pat, i);
  }

  /** ece391_strcpy(data, data + from): copies down the string that ends at `end`. */
  method StrcpyDown(data: array<byte>, from: nat, ghost end: nat)
    requires 0 < from <= end < data.Length && data[end] == NUL && NUL !in data[from..end]
    modifies data
    ensures data[..end - from] == old(data[from..end])
    ensures forall j :: end - from < j < data.Length ==> data[j] == old(data[j])
    ensures data[end - from] == NUL
  {
    ghost var s := data[from..end];
    var i := 0;
    while true
      invariant from + i <= end
      invariant data[..i] == old(data[from..from + i])
      invariant forall j :: i <= j < data.Length ==> data[j] == old(data[j])
      decreases end - i
    {
      assert from + i < end ==> data[from + i] == s[i] != NUL;
      data[i] := data[from + i];
      if data[i] == NUL {
        break;
      }
      i := i + 1;
    }
  }

  /** ece391_read on a file: the bytes at `pos`, as many as are asked for and left. */
  method Read(file: seq<byte>, pos: nat, data: array<byte>, at: nat, asked: nat) returns (cnt: nat)
    requires pos <= |file| && at + asked <= data.Length
    modifies data
    ensures cnt == Min(asked, |file| - pos)
    ensures data[..at + cnt] == old(data[..at]) + file[pos..pos + cnt]
    ensures forall j :: at + cnt <= j < data.Length ==> data[j] == old(data[j])
  {
    cnt := Min(asked, |file| - pos);
    for i := 0 to cnt
      invariant data[at..at + i] == file[pos..pos + i]
      invariant data[..at] == old(data[..at])
      invariant forall j :: at + i <= j < data.Length ==> data[j] == old(data[j])
    {
      data[at + i] := file[pos + i];
    }
  }

  lemma Refilled(kept: seq<byte>, file: seq<byte>, pos: nat, cnt: nat)
    requires pos + cnt <= |file|
    ensures kept + file[pos..pos + cnt] + file[pos + cnt..] == kept + file[pos..]
    ensures NUL !in kept && NUL !in file ==> NUL !in kept + file[pos..pos + cnt]
  {
    assert file[pos..] == file[pos..pos + cnt] + file[pos + cnt..];
  }

  /** The search of one line: whether `pat` starts somewhere in `data[from..to]`. */
  method Search(pat: seq<byte>, data: array<byte>, from: nat, to: nat) returns (found: bool)
    requires from <= to < data.Length && data[to] == NUL
    requires NUL !in pat && NUL !in data[from..to]
    ensures found <==> pat != [] && Contains(data[from..to], pat)
  {
    ghost var line := data[from..to];
    for check := from to to
      invariant forall k: nat :: k < check - from && pat != [] ==> !OccursAt(line, pat, k)
    {
      OccursShifted(line, pat, check - from);
      assert line[check - from..] == data[check..to];
      if CharAt(pat, 0) == data[check] {
        var c := Strncmp(data, check, pat, to);
        if c == 0 {
          assert OccursAt(line, pat, check - from);
          return true;
        }
      }
    }
    return false;
  }

  /**
   The parts searched when `torn` says that the byte behind the buffer is a newline
   left over in the uninitialised array: a full buffer then ends its last line, and
   the byte is overwritten only when that line is not already complete.
   */
  function PiecesFrom(rest: seq<byte>, torn: bool): seq<seq<byte>>
    decreases |rest|
  {
    if !torn || |rest| < BUFSIZE then Pieces(rest)
    else Pieces(rest[..BUFSIZE]) + PiecesFrom(rest[BUFSIZE..], rest[BUFSIZE - 1] == NEWLINE)
  }

  /** Progress of the search: `printed` and what `rest` will still print make up `all`. */
  ghost predicate Owes(pat: seq<byte>, printed: seq<seq<byte>>, rest: seq<byte>, torn: bool, all: seq<seq<byte>>) {
    printed + Select(pat, PiecesFrom(rest, torn)) == all
  }

  lemma OwesAll(pat: seq<byte>, rest: seq<byte>, torn: bool)
    ensures Owes(pat, [], rest, torn, Select(pat, PiecesFrom(rest, torn)))
    ensures Owes(pat, [], rest, false, Select(pat, Pieces(rest)))
  {
  }

  lemma NothingOwed(pat: seq<byte>, printed: seq<seq<byte>>, torn: bool, all: seq<seq<byte>>)
    requires Owes(pat, printed, [], torn, all)
    ensures printed == all
  {
  }

  /** The line at `from` of the buffer, ending at `to`, is searched and taken off the text still owed. */
  lemma OwesNext(pat: seq<byte>, printed: seq<seq<byte>>, buffer: seq<byte>, from: nat, to: nat,
                 unread: seq<byte>, all: seq<seq<byte>>)
    requires from <= to <= |buffer| <= BUFSIZE
    requires NEWLINE !in buffer[from..to]
    requires to == |buffer| || buffer[to] == NEWLINE
    requires to < |buffer| || unread == [] || (from == 0 && |buffer| == BUFSIZE)
    requires Owes(pat, printed, buffer[from..] + unread, false, all)
    ensures var line := buffer[from..to];
      Owes(pat, printed + Kept(pat, line),
           (if to < |buffer| then buffer[to + 1..] else []) + unread, false, all)
  {
    hide Select, Pieces, Kept;
    var rest, next := buffer[from..] + unread, (if to < |buffer| then buffer[to + 1..] else []) + unread;
    var line := buffer[from..to];
    assert Scanned(rest, line, next) by {
      assert line == rest[..|line|];
      if to < |buffer| {
        assert next == rest[|line| + 1..];
      }
    }
    PieceScanned(pat, rest, buffer[from..to], next);
  }

  /** A full buffer in front of a left-over newline is searched on its own. */
  lemma OwesTorn(pat: seq<byte>, printed: seq<seq<byte>>, rest: seq<byte>, more: seq<seq<byte>>, all: seq<seq<byte>>)
    requires |rest| >= BUFSIZE
    requires Owes(pat, printed, rest, true, all)
    requires Owes(pat, more, [], false, Select(pat, Pieces(rest[..BUFSIZE])))
    ensures Owes(pat, printed + more, rest[BUFSIZE..], rest[BUFSIZE - 1] == NEWLINE, all)
  {
    SelectConcat(pat, Pieces(rest[..BUFSIZE]), PiecesFrom(rest[BUFSIZE..], rest[BUFSIZE - 1] == NEWLINE));
  }

  lemma OwesMore(pat: seq<byte>, printed: seq<seq<byte>>, rest: seq<byte>, torn: bool,
                 more: seq<seq<byte>>, after: seq<byte>, all: seq<seq<byte>>)
    requires !torn || |rest| < BUFSIZE
    requires Owes(pat, printed, rest, torn, all)
    requires Owes(pat, more, after, false, Select(pat, Pieces(rest)))
    ensures Owes(pat, printed + more, after, false, all)
    ensures |after| < BUFSIZE ==> Owes(pat, printed + more, after, true, all)
  {
  }

  /**
   The inner loop of do_one_file, over the first `filled` bytes of the buffer.
   `unread` is the text that a line left incomplete by the buffer continues with.
   */
  method ScanBuffer(pat: seq<byte>, data: array<byte>, filled: nat, cnt: nat, ghost unread: seq<byte>)
    returns (printed: seq<seq<byte>>, last: nat)
    requires data.Length == BUFSIZE + 1 && filled <= BUFSIZE
    requires NUL !in pat && NUL !in data[..filled]
    requires unread == [] || (filled == BUFSIZE && data[BUFSIZE] != NEWLINE && cnt != 0)
    modifies data
    ensures last < BUFSIZE && NUL !in data[..last]
    ensures cnt == 0 || (filled == BUFSIZE && old(data[BUFSIZE]) == NEWLINE) ==> last == 0
    ensures Owes(pat, printed, data[..last] + unread, false, Select(pat, Pieces(old(data[..filled]) + unread)))
    ensures old(data[BUFSIZE]) != NEWLINE ==> data[BUFSIZE] != NEWLINE
    ensures old(data[BUFSIZE]) == NEWLINE && filled == BUFSIZE ==>
      (data[BUFSIZE] == NEWLINE <==> old(data[BUFSIZE - 1]) == NEWLINE)
  {
    hide Select, Pieces, PiecesFrom, Owes, Contains, OccursAt;
    ghost var was := data[..filled];
    ghost var all := Select(pat, Pieces(was + unread));
    OwesAll(pat, was + unread, false);
    printed, last := [], filled;
    var lineStart := 0;
    assert was[0..] == was;
    while true
      invariant lineStart < last || lineStart == 0
      invariant last == filled
      invariant forall j :: lineStart <= j < filled ==> data[j] == was[j]
      invariant data[BUFSIZE] == old(data[BUFSIZE])
      invariant Owes(pat, printed, was[lineStart..] + unread, false, all)
      decreases last - lineStart
    {
      var lineEnd := lineStart;
      while lineEnd < last && data[lineEnd] != NEWLINE
        invariant lineStart <= lineEnd <= last
        invariant NEWLINE !in was[lineStart..lineEnd]
      {
        lineEnd := lineEnd + 1;
      }
      ghost var line := was[lineStart..lineEnd];
      if data[lineEnd] != NEWLINE && cnt != 0 && lineStart != 0 {
        data[lineEnd] := NUL;
        assert data[lineStart..lineEnd] == line == was[lineStart..];
        StrcpyDown(data, lineStart, lineEnd);
        last := last - lineStart;
        assert data[..last] == was[lineStart..];
        break;
      }
      OwesNext(pat, printed, was, lineStart, lineEnd, unread, all);
      assert data[lineStart..lineEnd] == line;
      data[lineEnd] := NUL;
      assert data[lineStart..lineEnd] == line;
      ghost var before := printed;
      var found := Search(pat, data, lineStart, lineEnd);
      if found {
        printed := printed + [data[lineStart..lineEnd]];
      }
      assert printed == before + Kept(pat, line);
      lineStart := lineEnd + 1;
      if lineStart >= last {
        last := 0;
        assert data[..last] == (if lineEnd < filled then was[lineEnd + 1..] else []);
        break;
      }
    }
  }

  /**
   do_one_file on a readable file, for any initial contents of the buffer. `printed`
   are the lines written out after the file name, `asked` the counts passed to read.
   */
  method DoOneFile(pat: seq<byte>, file: seq<byte>, data: array<byte>)
    returns (printed: seq<seq<byte>>, asked: seq<nat>)
    requires data.Length == BUFSIZE + 1
    requires NUL !in pat && NUL !in file
    modifies data
    ensures printed == Select(pat, PiecesFrom(file, old(data[BUFSIZE]) == NEWLINE))
    ensures Fits(Lines(file)) && !CutInside(file, old(data[BUFSIZE]) == NEWLINE) ==> printed == Select(pat, Lines(file))
    ensures forall i :: 0 <= i < |asked| ==> 1 <= asked[i] <= BUFSIZE
  {
    hide Select, Pieces, PiecesFrom, Owes, Lines, Fits, CutInside;
    ghost var all := Select(pat, PiecesFrom(file, data[BUFSIZE] == NEWLINE));
    OwesAll(pat, file, data[BUFSIZE] == NEWLINE);
    printed, asked := [], [];
    var pos: nat, last: nat := 0, 0;
    assert data[..0] + file[0..] == file;
    while true
      invariant pos <= |file| && last < BUFSIZE
      invariant NUL !in data[..last]
      invariant last == 0 || data[BUFSIZE] != NEWLINE || pos == |file|
      invariant Owes(pat, printed, data[..last] + file[pos..], data[BUFSIZE] == NEWLINE, all)
      invariant forall i :: 0 <= i < |asked| ==> 1 <= asked[i] <= BUFSIZE
      decreases |file| - pos
    {
      asked := asked + [BUFSIZE - last];
      ghost var rest, torn := data[..last] + file[pos..], data[BUFSIZE] == NEWLINE;
      assert rest[..last] == data[..last];
      var cnt := Read(file, pos, data, last, BUFSIZE - last);
      pos, last := pos + cnt, last + cnt;
      Refilled(rest[..last - cnt], file, pos - cnt, cnt);
      ghost var split := torn && last == BUFSIZE;
      ghost var before := printed;
      assert split ==> data[..last] + [] == rest[..BUFSIZE];
      var more;
      more, last := ScanBuffer(pat, data, last, cnt, if split then [] else file[pos..]);
      printed := printed + more;
      if split {
        assert data[..last] + [] == [] && data[..last] + file[pos..] == rest[BUFSIZE..];
        OwesTorn(pat, before, rest, more, all);
      } else {
        OwesMore(pat, before, rest, torn, more, data[..last] + file[pos..], all);
      }
      if cnt == 0 {
        assert data[..last] + file[pos..] == [];
        break;
      }
    }
    NothingOwed(pat, printed, data[BUFSIZE] == NEWLINE, all);
    PrintsMatchingLinesIff(file, old(data[BUFSIZE]) == NEWLINE);
  }

  // ------------------------------------------------------------------ theorems

  /** For every file and pattern, the loop prints what matches among the lines cut at BUFSIZE bytes. */
  lemma {:induction false} PiecesAreCutLines(pat: seq<byte>, file: seq<byte>)
    ensures Select(pat, Pieces(file)) == Select(pat, CutAll(Lines(file)))
    decreases |file|
  {
    if file == [] {
      return;
    }
    var k := Find(file, NEWLINE, 0);
    if k < BUFSIZE {
      SplitOff(pat, file, k);
      if k < |file| {
        PiecesAreCutLines(pat, file[k + 1..]);
      }
    } else {
      var next := file[BUFSIZE..];
      PiecesAreCutLines(pat, next);
      LongLine(pat, file, k);
      SelectConcat(pat, [file[..BUFSIZE]], Pieces(next));
    }
  }

  lemma CutFirst(line: seq<byte>, lines: seq<seq<byte>>)
    ensures CutAll([line] + lines) == Cut(line) + CutAll(lines)
  {
    assert ([line] + lines)[1..] == lines;
  }

  /** A line that fits is one piece. */
  lemma SplitOff(pat: seq<byte>, file: seq<byte>, k: nat)
    requires file != [] && k == Find(file, NEWLINE, 0) && k < BUFSIZE
    ensures Select(pat, Pieces(file)) ==
      Select(pat, [file[..k]]) + (if k < |file| then Select(pat, Pieces(file[k + 1..])) else [])
    ensures Select(pat, CutAll(Lines(file))) ==
      Select(pat, [file[..k]]) + (if k < |file| then Select(pat, CutAll(Lines(file[k + 1..]))) else [])
  {
    hide Select, Kept;
    var lines := if k < |file| then Lines(file[k + 1..]) else [];
    CutFirst(file[..k], lines);
    SelectConcat(pat, [file[..k]], CutAll(lines));
    SelectEmptyLine(pat);
    if k < |file| {
      SelectConcat(pat, [file[..k]], Pieces(file[k + 1..]));
    } else {
      assert [file[..k]] + [] == [file[..k]];
    }
  }

  /** What a long line leaves after its first BUFSIZE bytes. */
  function Tail(file: seq<byte>, k: nat): seq<byte>
    requires BUFSIZE <= k <= |file|
  {
    file[BUFSIZE..k]
  }

  lemma LongLineCut(file: seq<byte>, k: nat)
    requires BUFSIZE < k <= |file|
    ensures Cut(file[..k]) == [file[..BUFSIZE]] + Cut(Tail(file, k))
  {
    assert file[..k][..BUFSIZE] == file[..BUFSIZE] && file[..k][BUFSIZE..] == Tail(file, k);
  }

  /** Cutting the text from a long line on, and cutting the text after its first BUFSIZE bytes. */
  lemma LongLineRest(file: seq<byte>, k: nat) returns (rest: seq<seq<byte>>)
    requires k == Find(file, NEWLINE, 0) && k >= BUFSIZE
    ensures CutAll(Lines(file)) == Cut(file[..k]) + rest
    ensures if |file| == BUFSIZE then rest == [] == CutAll(Lines(file[BUFSIZE..]))
            else CutAll(Lines(file[BUFSIZE..])) == Cut(Tail(file, k)) + rest
  {
    hide Cut, Lines, Find;
    var next, lines := file[BUFSIZE..], if k < |file| then Lines(file[k + 1..]) else [];
    rest := CutAll(lines);
    FirstLine(file, k);
    CutFirst(file[..k], lines);
    NoLines();
    if next != [] {
      var tail := Tail(file, k);
      assert next[..|tail|] == tail;
      assert k < |file| ==> next[|tail| + 1..] == file[k + 1..];
      FirstLine(next, |tail|);
      CutFirst(tail, lines);
    }
  }

  /** The first BUFSIZE bytes of a longer line are its first part. */
  lemma LongLine(pat: seq<byte>, file: seq<byte>, k: nat)
    requires k == Find(file, NEWLINE, 0) && k >= BUFSIZE
    ensures Select(pat, CutAll(Lines(file))) ==
      Select(pat, [file[..BUFSIZE]]) + Select(pat, CutAll(Lines(file[BUFSIZE..])))
  {
    hide Select, Kept, CutAll, Lines;
    var line, first := file[..k], file[..BUFSIZE];
    var tail := Tail(file, k);
    var rest := LongLineRest(file, k);
    if k > BUFSIZE {
      LongLineCut(file, k);
    }
    SelectConcat(pat, Cut(line), rest);
    SelectConcat(pat, Cut(tail), rest);
    SelectConcat(pat, [first], Cut(tail));
    SelectEmptyLine(pat);
    assert Select(pat, Cut(line)) == Select(pat, [first]) + Select(pat, Cut(tail));
  }

  lemma SelectEmptyLine(pat: seq<byte>)
    ensures Select(pat, [[]]) == [] == Select(pat, [])
  {
    assert pat != [] ==> !Contains([], pat);
    var lines: seq<seq<byte>> := [[]];
    assert lines[1..] == [];
  }

  ghost predicate Fits(lines: seq<seq<byte>>) {
    forall line :: line in lines ==> |line| <= BUFSIZE
  }

  /**
   The left-over newline ends a buffer inside a line: after whole buffers that each end
   with a newline comes one that does not, and the text goes on with the same line.
   */
  predicate CutInside(rest: seq<byte>, torn: bool)
    decreases |rest|
  {
    torn && |rest| > BUFSIZE &&
    if rest[BUFSIZE - 1] == NEWLINE then CutInside(rest[BUFSIZE..], true) else rest[BUFSIZE] != NEWLINE
  }

  /**
   The program prints exactly the lines that contain the pattern, for every pattern, if
   and only if every line fits the buffer and no left-over newline cuts a line; without
   a left-over newline the second condition holds of every file.
   */
  lemma PrintsMatchingLinesIff(file: seq<byte>, torn: bool)
    ensures (forall pat :: Select(pat, PiecesFrom(file, torn)) == Select(pat, Lines(file)))
      <==> Fits(Lines(file)) && !CutInside(file, torn)
  {
    hide Select, Pieces, PiecesFrom, Lines, CutInside;
    if !Fits(Lines(file)) {
      LongLineIsLost(file, torn);
    } else if CutInside(file, torn) {
      var pat := CutLineIsLost(file, torn);
    } else {
      forall pat ensures Select(pat, PiecesFrom(file, torn)) == Select(pat, Lines(file)) {
        UncutPrintsLines(pat, file, torn);
      }
    }
  }

  lemma LongLineIsLost(file: seq<byte>, torn: bool)
    requires !Fits(Lines(file))
    ensures exists pat :: Select(pat, PiecesFrom(file, torn)) != Select(pat, Lines(file))
  {
    hide Select, Pieces, PiecesFrom, Lines;
    var line :| line in Lines(file) && |line| > BUFSIZE;
    var pat := line[..1];
    assert OccursAt(line, pat, 0);
    Selected(pat, Lines(file), line);
    Selected(pat, PiecesFrom(file, torn), line);
    PiecesFromFit(file, torn);
    assert Select(pat, PiecesFrom(file, torn)) != Select(pat, Lines(file));
  }

  lemma FittingPieces(pat: seq<byte>, file: seq<byte>)
    requires Fits(Lines(file))
    ensures Select(pat, Pieces(file)) == Select(pat, Lines(file))
  {
    PiecesAreCutLines(pat, file);
    CutFitting(Lines(file));
  }

  lemma NoLines()
    ensures Lines([]) == []
  {
  }

  lemma FirstLine(text: seq<byte>, k: nat)
    requires text != [] && k <= |text| && NEWLINE !in text[..k] && (k < |text| ==> text[k] == NEWLINE)
    ensures Lines(text) == [text[..k]] + if k == |text| then [] else Lines(text[k + 1..])
  {
    hide Find;
    assert forall j :: 0 <= j < k ==> text[..k][j] == text[j];
    FindUnique(text, NEWLINE, 0, k);
  }

  lemma OneLine(line: seq<byte>)
    requires line != [] && NEWLINE !in line
    ensures Lines(line) == [line]
  {
    hide Lines;
    assert line[..|line|] == line;
    FirstLine(line, |line|);
  }

  /** Text up to and including a newline contributes its lines, whatever follows. */
  lemma {:induction false} LinesAppend(a: seq<byte>, b: seq<byte>)
    requires a == [] || a[|a| - 1] == NEWLINE
    ensures Lines(a + b) == Lines(a) + Lines(b)
    decreases |a|
  {
    hide Find, Lines;
    if a == [] {
      assert a + b == b;
      NoLines();
    } else {
      var k := Find(a, NEWLINE, 0);
      assert k < |a|;
      LinesAppend(a[k + 1..], b);
      FirstLine(a, k);
      FirstLine(a + b, k);
      assert (a + b)[k + 1..] == a[k + 1..] + b && (a + b)[..k] == a[..k];
      assert [a[..k]] + (Lines(a[k + 1..]) + Lines(b)) == [a[..k]] + Lines(a[k + 1..]) + Lines(b);
    }
  }

  /** A newline-free start is the beginning of the first line. */
  lemma LinesStart(x: seq<byte>, text: seq<byte>) returns (y: seq<byte>, after: seq<seq<byte>>)
    requires x != [] && NEWLINE !in x && text != []
    ensures Lines(x) == [x] && Lines(text) == [y] + after && Lines(x + text) == [x + y] + after
    ensures y != [] <==> text[0] != NEWLINE
  {
    hide Find, Lines;
    var k := Find(text, NEWLINE, 0);
    y, after := text[..k], if k == |text| then [] else Lines(text[k + 1..]);
    assert (x + text)[..|x| + k] == x + y;
    OneLine(x);
    FirstLine(text, k);
    FirstLine(x + text, |x| + k);
    assert k < |text| ==> (x + text)[|x| + k + 1..] == text[k + 1..];
  }

  /** What follows the last newline. */
  lemma {:induction false} LastLine(s: seq<byte>) returns (a: seq<byte>, x: seq<byte>)
    requires s != [] && s[|s| - 1] != NEWLINE
    ensures s == a + x && x != [] && NEWLINE !in x && (a == [] || a[|a| - 1] == NEWLINE)
    decreases |s|
  {
    if |s| == 1 || s[|s| - 2] == NEWLINE {
      a, x := s[..|s| - 1], s[|s| - 1..];
    } else {
      a, x := LastLine(s[..|s| - 1]);
      x := x + [s[|s| - 1]];
      assert s == s[..|s| - 1] + [s[|s| - 1]];
    }
  }

  /** A cut that is not behind a newline leaves a part `x` of a line in front and the rest `y` of it behind. */
  lemma Straddle(head: seq<byte>, tail: seq<byte>)
    returns (before: seq<seq<byte>>, x: seq<byte>, y: seq<byte>, after: seq<seq<byte>>)
    requires head != [] && head[|head| - 1] != NEWLINE && tail != []
    ensures Lines(head) == before + [x] && Lines(tail) == [y] + after
    ensures Lines(head + tail) == before + [x + y] + after
    ensures x != [] && (y != [] <==> tail[0] != NEWLINE)
  {
    hide Lines;
    var a;
    a, x := LastLine(head);
    before := Lines(a);
    y, after := LinesStart(x, tail);
    LinesAppend(a, x);
    LinesAppend(a, x + tail);
    assert a + x + tail == a + (x + tail);
    assert before + ([x + y] + after) == before + [x + y] + after;
  }

  /** A buffer torn inside the line x + y searches x and y instead; all other lines are searched alike. */
  lemma TornLines(pat: seq<byte>, head: seq<byte>, tail: seq<byte>,
                  before: seq<seq<byte>>, x: seq<byte>, y: seq<byte>, after: seq<seq<byte>>)
    requires Lines(head) == before + [x] && Lines(tail) == [y] + after
    requires Lines(head + tail) == before + [x + y] + after && Fits(Lines(head + tail))
    ensures Select(pat, Pieces(head)) + Select(pat, Pieces(tail))
      == Select(pat, before) + Kept(pat, x) + Kept(pat, y) + Select(pat, after)
    ensures Select(pat, Lines(head + tail)) == Select(pat, before) + Kept(pat, x + y) + Select(pat, after)
  {
    hide Select, Kept, Pieces, Lines;
    StraddleFits(before, x, y, after);
    FittingPieces(pat, head);
    FittingPieces(pat, tail);
    SelectConcat(pat, before, [x]);
    SelectConcat(pat, [y], after);
    SelectConcat(pat, before + [x + y], after);
    SelectConcat(pat, before, [x + y]);
    SelectOne(pat, x);
    SelectOne(pat, y);
    SelectOne(pat, x + y);
  }

  lemma SelectOne(pat: seq<byte>, line: seq<byte>)
    ensures Select(pat, [line]) == Kept(pat, line)
  {
    hide Kept, Select;
    assert [line] == [line] + [];
    SelectFirst(pat, line, []);
    NothingSelected(pat);
  }

  lemma StraddleFits(before: seq<seq<byte>>, x: seq<byte>, y: seq<byte>, after: seq<seq<byte>>)
    requires Fits(before + [x + y] + after)
    ensures Fits(before + [x]) && Fits([y] + after)
  {
    var all := before + [x + y] + after;
    assert all[|before|] == x + y;
    assert forall line :: line in before || line in after ==> line in all;
  }

  lemma FitsParts(a: seq<seq<byte>>, b: seq<seq<byte>>)
    requires Fits(a + b)
    ensures Fits(a) && Fits(b)
  {
    assert forall line :: line in a || line in b ==> line in a + b;
  }

  lemma {:induction false} UncutPrintsLines(pat: seq<byte>, rest: seq<byte>, torn: bool)
    requires Fits(Lines(rest)) && !CutInside(rest, torn)
    ensures Select(pat, PiecesFrom(rest, torn)) == Select(pat, Lines(rest))
    decreases |rest|
  {
    hide Select, Pieces, Lines, Fits, Kept;
    if !torn || |rest| < BUFSIZE {
      FittingPieces(pat, rest);
      return;
    }
    var head, tail := rest[..BUFSIZE], rest[BUFSIZE..];
    assert rest == head + tail;
    SelectConcat(pat, Pieces(head), PiecesFrom(tail, rest[BUFSIZE - 1] == NEWLINE));
    if tail == [] {
      assert head == rest;
      FittingPieces(pat, head);
      NoPieces(pat);
    } else if rest[BUFSIZE - 1] == NEWLINE {
      LinesAppend(head, tail);
      FitsParts(Lines(head), Lines(tail));
      FittingPieces(pat, head);
      UncutPrintsLines(pat, tail, true);
      SelectConcat(pat, Lines(head), Lines(tail));
    } else {
      var before, x, y, after := Straddle(head, tail);
      TornLines(pat, head, tail, before, x, y, after);
      KeptEmpty(pat);
      assert x + y == x;
    }
  }

  lemma NoPieces(pat: seq<byte>)
    ensures forall torn :: Select(pat, PiecesFrom([], torn)) == []
  {
  }

  lemma KeptEmpty(pat: seq<byte>)
    ensures Kept(pat, []) == []
  {
    assert pat != [] ==> !Contains([], pat);
  }

  lemma KeptParts(x: seq<byte>, y: seq<byte>)
    requires x != [] && y != []
    ensures Kept(x + y, x) == Kept(x + y, y) == [] && Kept(x + y, x + y) == [x + y]
  {
    var pat := x + y;
    assert OccursAt(pat, pat, 0) by {
      assert pat[0..|pat|] == pat;
    }
  }

  /** The cut line, used as the pattern, is missed. */
  lemma {:induction false} CutLineIsLost(rest: seq<byte>, torn: bool) returns (pat: seq<byte>)
    requires Fits(Lines(rest)) && CutInside(rest, torn)
    ensures |Select(pat, PiecesFrom(rest, torn))| < |Select(pat, Lines(rest))|
    decreases |rest|
  {
    hide Select, Pieces, Lines, Fits, Kept;
    var head, tail := rest[..BUFSIZE], rest[BUFSIZE..];
    assert rest == head + tail;
    if rest[BUFSIZE - 1] == NEWLINE {
      LinesAppend(head, tail);
      FitsParts(Lines(head), Lines(tail));
      pat := CutLineIsLost(tail, true);
      FittingPieces(pat, head);
      SelectConcat(pat, Lines(head), Lines(tail));
    } else {
      var before, x, y, after := Straddle(head, tail);
      pat := x + y;
      TornLines(pat, head, tail, before, x, y, after);
      KeptParts(x, y);
    }
    SelectConcat(pat, Pieces(head), PiecesFrom(tail, rest[BUFSIZE - 1] == NEWLINE));
  }

  lemma {:induction false} CutFitting(lines: seq<seq<byte>>)
    requires Fits(lines)
    ensures CutAll(lines) == lines
  {
    if lines != [] {
      CutFitting(lines[1..]);
    }
  }

  lemma {:induction false} Selected(pat: seq<byte>, lines: seq<seq<byte>>, line: seq<byte>)
    ensures line in Select(pat, lines) <==> line in lines && pat != [] && Contains(line, pat)
  {
    if lines != [] {
      Selected(pat, lines[1..], line);
      assert lines == [lines[0]] + lines[1..];
    }
  }

  lemma {:induction false} PiecesFit(rest: seq<byte>)
    ensures Fits(Pieces(rest))
    decreases |rest|
  {
    if rest != [] {
      var k := Find(rest, NEWLINE, 0);
      if k >= BUFSIZE {
        PiecesFit(rest[BUFSIZE..]);
      } else if k < |rest| {
        PiecesFit(rest[k + 1..]);
      }
    }
  }

  lemma {:induction false} PiecesFromFit(rest: seq<byte>, torn: bool)
    ensures Fits(PiecesFrom(rest, torn))
    decreases |rest|
  {
    hide Pieces;
    if !torn || |rest| < BUFSIZE {
      PiecesFit(rest);
    } else {
      PiecesFit(rest[..BUFSIZE]);
      PiecesFromFit(rest[BUFSIZE..], rest[BUFSIZE - 1] == NEWLINE);
    }
  }

  function Newlines(n: nat): (r: seq<byte>)
    ensures |r| == n && forall i :: 0 <= i < n ==> r[i] == NEWLINE
  {
    if n == 0 then [] else [NEWLINE] + Newlines(n - 1)
  }

  lemma {:induction false} OnlyEmptyLines(pat: seq<byte>, n: nat)
    ensures Fits(Lines(Newlines(n))) && Select(pat, Lines(Newlines(n))) == []
  {
    hide Select, Kept, Lines;
    KeptEmpty(pat);
    NoLines();
    if n == 0 {
      NothingSelected(pat);
    } else {
      OnlyEmptyLines(pat, n - 1);
      FirstLine(Newlines(n), 0);
      SelectConcat(pat, [[]], Lines(Newlines(n - 1)));
      SelectOne(pat, []);
    }
  }

  /** With a left-over newline behind the buffer even a two-byte line can be torn, and its match is lost. */
  lemma TornBufferLosesAMatch(a: byte, b: byte, file: seq<byte>)
    requires a != NEWLINE && b != NEWLINE && file == Newlines(BUFSIZE - 1) + [a, b]
    ensures Fits(Lines(file)) && CutInside(file, true)
    ensures Select([a, b], Lines(file)) == [[a, b]]
    ensures Select([a, b], PiecesFrom(file, true)) == []
  {
    hide Select, Kept, Lines, Pieces, Newlines;
    assert [a] + [b] == [a, b];
    var pat, newlines, empty := [a, b], Newlines(BUFSIZE - 1), Lines(Newlines(BUFSIZE - 1));
    var head, tail := newlines + [a], [b];
    assert file == head + tail && file[..BUFSIZE] == head && file[BUFSIZE..] == tail;
    OneLine([a]);
    OneLine([b]);
    OneLine([a] + [b]);
    LinesAppend(newlines, [a]);
    LinesAppend(newlines, [a, b]);
    OnlyEmptyLines(pat, BUFSIZE - 1);
    assert Lines(file) == empty + [[a] + [b]] + [];
    TornLines(pat, head, tail, empty, [a], [b], []);
    KeptParts([a], [b]);
    NothingSelected(pat);
    SelectConcat(pat, Pieces(head), Pieces(tail));
    assert PiecesFrom(file, true) == Pieces(head) + Pieces(tail);
  }
}

/**
 The file-descriptor table of one process: open, close and read (syscall.c) with
 file_read (filesystem.c) on regular files, and the reading loop of the cat program.
 */
module Descriptors {
  import opened Common
  import opened FileData
  import opened Residues

  const FIRST_FILE: nat := 2
  const FDS: nat := 8
  const NO_INODE: nat := 0xFFFF_FFFF

  datatype Kind = Null | Stdin | Stdout | Rtc | Directory | Regular

  /** `kind` stands for the operation table. */
  datatype Fd = Fd(kind: Kind, inode: nat, position: nat, used: bool)

  /** What read_dentry_by_name finds: file_type 0 is the RTC, 1 a directory, anything else a regular file. */
  datatype Entry = Entry(fileType: nat, inode: nat)

  type Table = t: seq<Fd> | |t| == FDS witness NewTable()

  /** The table execute gives to a new process. */
  function NewTable(): (t: seq<Fd>)
    ensures |t| == 8 && t[0].kind == Stdin && t[0].used && t[1].kind == Stdout && t[1].used
    ensures forall i :: 2 <= i < 8 ==> !t[i].used
  {
    [Fd(Stdin, NO_INODE, 0, true), Fd(Stdout, NO_INODE, 0, true)] + seq(FDS - 2, _ => Fd(Null, NO_INODE, 0, false))
  }

  // ------------------------------------------------------------------ one descriptor

  function Opened(fd: Fd, e: Entry): Fd {
    if e.fileType == 0 then fd.(kind := Rtc, position := 0, used := true)
    else if e.fileType == 1 then fd.(kind := Directory, position := 0, used := true)
    else fd.(kind := Regular, inode := e.inode, position := 0, used := true)
  }

  /** file_read's count and new position: an overshoot of the size resets the position and reports 0. */
  function FileStep(size: nat, position: nat, length: nat): (r: (nat, nat))
    ensures position <= size ==> r.1 <= size
  {
    var p := (position + ReadCount(size, position, length)) % WORD;
    if p > size then (0, 0) else (ReadCount(size, position, length), p)
  }

  /** A regular descriptor names an inode of the image and stands within its size. */
  ghost predicate Readable(image: seq<byte>, fd: Fd) {
    fd.kind == Regular ==>
      HasInode(image, fd.inode) && fd.inode <= NumInodes(image) && fd.position <= Size(image, fd.inode)
  }

  /** What a read system call returns: a code, and the bytes it reports as read. */
  datatype Outcome = Outcome(code: int, data: seq<byte>)

  /** The length argument as file_read passes it on, an unsigned 32-bit number. */
  function Length(nbytes: int): nat {
    nbytes % WORD
  }

  /** The bytes a read asks read_data for lie in the image; a read at the end of the file asks for none. */
  ghost predicate ReadFits(image: seq<byte>, fd: Fd, nbytes: int)
    requires Readable(image, fd)
  {
    fd.used && fd.kind == Regular ==>
      Placed(image, fd.inode, fd.position, ReadCount(Size(image, fd.inode), fd.position, Length(nbytes)))
  }

  /** Reading one descriptor; `device` is what a device or directory read returns. */
  ghost function ReadFd(image: seq<byte>, fd: Fd, nbytes: int, device: Outcome): (Fd, Outcome)
    requires Readable(image, fd) && ReadFits(image, fd, nbytes)
  {
    if !fd.used then (fd, Outcome(-1, []))
    else
      match fd.kind
      case Regular =>
        var (n, p) := FileStep(Size(image, fd.inode), fd.position, Length(nbytes));
        (fd.(position := p), Outcome(n, Stream(image, fd.inode, fd.position, n)))
      case Stdout => (fd, Outcome(-1, []))
      case _ => (fd, device)
  }

  function Closed(fd: Fd): Fd {
    fd.(used := false)
  }

  // --------------------------------------------------------------------- the table

  /** The least unused descriptor from `from` on, or FDS. */
  function FirstFree(t: Table, from: nat): (n: nat)
    requires from <= FDS
    ensures from <= n <= FDS && (n < FDS ==> !t[n].used) && forall i :: from <= i < n ==> t[i].used
    decreases FDS - from
  {
    if from == FDS || !t[from].used then from else FirstFree(t, from + 1)
  }

  datatype Call = Open(found: Option<Entry>) | Close(fd: int) | Read(fd: int, nbytes: int, device: Outcome)

  /** The descriptor a call works on, if there is one. */
  function Target(t: Table, c: Call): Option<nat> {
    match c
    case Open(None) => None
    case Open(Some(_)) => var n := FirstFree(t, FIRST_FILE); if n < FDS then Some(n) else None
    case Close(fd) => if 2 <= fd < FDS && t[fd].used then Some(fd) else None
    case Read(fd, _, _) => if 0 <= fd < FDS then Some(fd) else None
  }

  ghost predicate TableOk(image: seq<byte>, t: Table) {
    && t[0].kind == Stdin && t[0].used && t[1].kind == Stdout && t[1].used
    && forall i :: 0 <= i < FDS ==> Readable(image, t[i])
  }

  /** A regular entry names an inode of the image. */
  ghost predicate EntryOk(image: seq<byte>, c: Call) {
    c.Open? && c.found.Some? && c.found.value.fileType > 1 ==>
      HasInode(image, c.found.value.inode) && c.found.value.inode <= NumInodes(image)
  }

  ghost predicate CallFits(image: seq<byte>, fd: Fd, c: Call)
    requires Readable(image, fd)
  {
    c.Read? ==> ReadFits(image, fd, c.nbytes)
  }

  /** A read asks its descriptor for bytes that lie in the image. */
  ghost predicate CallOk(image: seq<byte>, t: Table, c: Call)
    requires TableOk(image, t)
  {
    c.Read? && 0 <= c.fd < FDS ==> CallFits(image, t[c.fd], c)
  }

  /** What a call does to the one descriptor it targets, and what it returns; `i` is that descriptor's number. */
  ghost function Local(image: seq<byte>, fd: Fd, i: nat, c: Call): (Fd, Outcome)
    requires Readable(image, fd) && CallFits(image, fd, c)
  {
    match c
    case Open(None) => (fd, Outcome(-1, []))
    case Open(Some(e)) => (Opened(fd, e), Outcome(i, []))
    case Close(_) => (Closed(fd), Outcome(0, []))
    case Read(_, nbytes, device) => ReadFd(image, fd, nbytes, device)
  }

  /** open, close and read on the whole table. */
  ghost function Apply(image: seq<byte>, t: Table, c: Call): (Table, Outcome)
    requires TableOk(image, t) && CallOk(image, t, c)
  {
    match c
    case Open(None) => (t, Outcome(-1, []))
    case Open(Some(e)) =>
      var n := FirstFree(t, FIRST_FILE);
      if n == FDS then (t, Outcome(-1, [])) else (t[n := Opened(t[n], e)], Outcome(n, []))
    case Close(fd) =>
      if fd < 0 || fd >= FDS || !t[fd].used || fd == 0 || fd == 1 then (t, Outcome(-1, []))
      else (t[fd := Closed(t[fd])], Outcome(0, []))
    case Read(fd, nbytes, device) =>
      if fd < 0 || fd >= FDS then (t, Outcome(-1, []))
      else var (d, r) := ReadFd(image, t[fd], nbytes, device); (t[fd := d], r)
  }

  /** Descriptors 0 and 1 stay bound, and every descriptor stays readable. */
  lemma ApplyKeepsTable(image: seq<byte>, t: Table, c: Call)
    requires TableOk(image, t) && CallOk(image, t, c) && EntryOk(image, c)
    ensures TableOk(image, Apply(image, t, c).0)
  {
    hide Stream;
    var t' := Apply(image, t, c).0;
    forall i | 0 <= i < FDS ensures Readable(image, t'[i]) {
      assert Readable(image, t[i]);
    }
  }

  // ------------------------------------------------------------- what calls do

  /** A descriptor just opened: used, at the start, with the operations of its file's type. */
  ghost predicate FreshFor(fd: Fd, e: Entry) {
    && fd.used && fd.position == 0
    && (fd.kind == Rtc <==> e.fileType == 0) && (fd.kind == Directory <==> e.fileType == 1)
    && (e.fileType > 1 ==> fd.kind == Regular && fd.inode == e.inode)
  }

  /** All descriptors but `fd` are the same. */
  ghost predicate OnlyFd(t: Table, t': Table, fd: int) {
    forall i :: 0 <= i < FDS && i != fd ==> t'[i] == t[i]
  }

  /** open takes the least free number, binds it to the start of the file and touches no other; or nothing changes. */
  lemma OpenBinds(image: seq<byte>, t: Table, e: Entry)
    requires TableOk(image, t)
    ensures var (t', r) := Apply(image, t, Open(Some(e)));
      if r.code == -1 then t' == t && forall i :: 2 <= i < 8 ==> t[i].used
      else 2 <= r.code < 8 && !t[r.code].used && FreshFor(t'[r.code], e) && OnlyFd(t, t', r.code)
           && forall i :: 2 <= i < r.code ==> t[i].used
  {
  }

  /** close succeeds exactly on a used descriptor from 2 on, and frees that one only. */
  lemma CloseFrees(image: seq<byte>, t: Table, fd: int)
    requires TableOk(image, t)
    ensures var (t', r) := Apply(image, t, Close(fd));
      && (r.code == 0 <==> 2 <= fd < 8 && t[fd].used)
      && (if r.code == 0 then !t'[fd].used && OnlyFd(t, t', fd) else r.code == -1 && t' == t)
  {
  }

  /** read fails on bad, unused and write-only descriptors, and never moves any other one. */
  lemma ReadOutcomes(image: seq<byte>, t: Table, fd: int, nbytes: int, device: Outcome)
    requires TableOk(image, t) && CallOk(image, t, Read(fd, nbytes, device))
    ensures var (t', r) := Apply(image, t, Read(fd, nbytes, device));
      && OnlyFd(t, t', fd)
      && (fd < 0 || fd >= 8 || fd == 1 || !t[fd].used ==> t' == t && r == Outcome(-1, []))
      && (0 <= fd < 8 && t[fd].used && t[fd].kind != Regular && t[fd].kind != Stdout ==> t' == t && r == device)
      && (0 <= fd < 8 && t[fd].used && t[fd].kind == Regular ==>
           r.code == |r.data| && t'[fd] == t[fd].(position := t'[fd].position))
  {
    hide Stream;
  }

  /**
   A closed descriptor is gone and its number is free: reading or closing it again fails,
   and the next open of an existing file succeeds with the least of it and the numbers
   that were free before.
   */
  lemma ClosedNumberIsReused(image: seq<byte>, t: Table, fd: nat, e: Entry, nbytes: int, device: Outcome)
    requires TableOk(image, t) && 2 <= fd < 8 && t[fd].used
    ensures var t' := Apply(image, t, Close(fd)).0;
      && TableOk(image, t') && CallOk(image, t', Read(fd, nbytes, device))
      && Apply(image, t', Close(fd)) == (t', Outcome(-1, []))
      && Apply(image, t', Read(fd, nbytes, device)) == (t', Outcome(-1, []))
      && var n := Apply(image, t', Open(Some(e))).1.code;
         2 <= n <= fd && (n == fd || !t[n].used) && forall i :: 2 <= i < n ==> t[i].used
  {
    CloseFrees(image, t, fd);
    ApplyKeepsTable(image, t, Close(fd));
    ReadOutcomes(image, Apply(image, t, Close(fd)).0, fd, nbytes, device);
    OpenBinds(image, Apply(image, t, Close(fd)).0, e);
  }

  /** How many of descriptors 2 to n - 1 are used. */
  function Used(t: Table, n: nat): nat
    requires n <= FDS
  {
    if n <= 2 then 0 else Used(t, n - 1) + if t[n - 1].used then 1 else 0
  }

  /** The number counts the table: none is used in a new one, and 6 means that none is free. */
  lemma UsedCounts(t: Table)
    ensures Used(t, 8) <= 6 && Used(NewTable(), 8) == 0
    ensures Used(t, 8) == 6 <==> forall i :: 2 <= i < 8 ==> t[i].used
  {
    UsedUpTo(t, 8);
    NoneUsed(NewTable(), 8);
  }

  lemma {:induction false} UsedUpTo(t: Table, n: nat)
    requires 2 <= n <= FDS
    ensures Used(t, n) <= n - 2 && (Used(t, n) == n - 2 <==> forall i :: 2 <= i < n ==> t[i].used)
  {
    if n > 2 {
      UsedUpTo(t, n - 1);
    }
  }

  lemma {:induction false} NoneUsed(t: Table, n: nat)
    requires n <= FDS && forall i :: 2 <= i < 8 ==> !t[i].used
    ensures Used(t, n) == 0
  {
    if n > 2 {
      NoneUsed(t, n - 1);
    }
  }

  lemma {:induction false} UsedSame(t: Table, t': Table, n: nat)
    requires n <= FDS && forall i :: 0 <= i < n ==> t'[i].used == t[i].used
    ensures Used(t', n) == Used(t, n)
  {
    if n > 2 {
      UsedSame(t, t', n - 1);
    }
  }

  /** Binding or freeing one descriptor changes the number by one. */
  lemma {:induction false} UsedChanges(t: Table, t': Table, fd: nat, n: nat)
    requires 2 <= fd < n <= FDS && OnlyFd(t, t', fd) && !t[fd].used && t'[fd].used
    ensures Used(t', n) == Used(t, n) + 1
  {
    if fd == n - 1 {
      UsedSame(t, t', n - 1);
    } else {
      UsedChanges(t, t', fd, n - 1);
    }
  }

  // ---------------------------------------------------------------- non-interference

  ghost predicate IsSession(image: seq<byte>, tables: seq<Table>, calls: seq<Call>, outcomes: seq<Outcome>) {
    && |tables| == |calls| + 1 == |outcomes| + 1
    && (forall i :: 0 <= i < |tables| ==> TableOk(image, tables[i]))
    && forall i :: 0 <= i < |calls| ==>
         && CallOk(image, tables[i], calls[i]) && EntryOk(image, calls[i])
         && (tables[i + 1], outcomes[i]) == Apply(image, tables[i], calls[i])
  }

  /** The calls of a session that reach descriptor `i`, in order, with what they returned. */
  function Log(tables: seq<Table>, calls: seq<Call>, outcomes: seq<Outcome>, i: nat): seq<(Call, Outcome)>
    requires |tables| > |calls| == |outcomes|
  {
    if calls == [] then []
    else
      (if Target(tables[0], calls[0]) == Some(i) then [(calls[0], outcomes[0])] else [])
      + Log(tables[1..], calls[1..], outcomes[1..], i)
  }

  /** A descriptor that lives alone, seeing only the calls made on it, returns what the log says and ends as `end`. */
  ghost predicate RunsAlone(image: seq<byte>, fd: Fd, i: nat, log: seq<(Call, Outcome)>, end: Fd)
    decreases |log|
  {
    if log == [] then end == fd
    else
      && Readable(image, fd) && CallFits(image, fd, log[0].0)
      && Local(image, fd, i, log[0].0).1 == log[0].1
      && RunsAlone(image, Local(image, fd, i, log[0].0).0, i, log[1..], end)
  }

  lemma TargetIsLocal(image: seq<byte>, t: Table, c: Call)
    requires TableOk(image, t) && CallOk(image, t, c)
    ensures match Target(t, c)
      case Some(i) => i < FDS && CallFits(image, t[i], c)
        && Apply(image, t, c) == (t[i := Local(image, t[i], i, c).0], Local(image, t[i], i, c).1)
      case None => Apply(image, t, c) == (t, Outcome(-1, []))
  {
  }

  lemma OneCallAlone(image: seq<byte>, t: Table, c: Call, i: nat, rest: seq<(Call, Outcome)>, end: Fd)
    requires TableOk(image, t) && CallOk(image, t, c) && i < FDS
    requires RunsAlone(image, Apply(image, t, c).0[i], i, rest, end)
    ensures Target(t, c) == Some(i) ==> RunsAlone(image, t[i], i, [(c, Apply(image, t, c).1)] + rest, end)
    ensures Target(t, c) != Some(i) ==> RunsAlone(image, t[i], i, [] + rest, end)
  {
    hide Apply, Local, Target, CallFits;
    TargetIsLocal(image, t, c);
    EachReadable(image, t, i);
    assert [] + rest == rest && ([(c, Apply(image, t, c).1)] + rest)[1..] == rest;
  }

  /**
   Every interleaving of open, close and read leaves each descriptor with the state, and
   gives its callers the results, that its own calls alone would have given, even when
   other descriptors name the same file.
   */
  lemma {:induction false} DescriptorsDoNotInterfere(image: seq<byte>, tables: seq<Table>, calls: seq<Call>,
                                                     outcomes: seq<Outcome>, i: nat)
    requires IsSession(image, tables, calls, outcomes) && i < FDS
    ensures RunsAlone(image, tables[0][i], i, Log(tables, calls, outcomes, i), tables[|calls|][i])
    decreases |calls|
  {
    hide TableOk, CallOk, EntryOk, Apply, Target, RunsAlone;
    if calls == [] {
      NothingRuns(image, tables[0][i], i);
    } else {
      DescriptorsDoNotInterfere(image, tables[1..], calls[1..], outcomes[1..], i);
      OneCallAlone(image, tables[0], calls[0], i, Log(tables[1..], calls[1..], outcomes[1..], i), tables[|calls|][i]);
    }
  }

  /** The opens that succeeded minus the closes that did, among the first `k` calls. */
  function OpenBalance(calls: seq<Call>, outcomes: seq<Outcome>, k: nat): int
    requires k <= |calls| == |outcomes|
  {
    if k == 0 then 0
    else
      OpenBalance(calls, outcomes, k - 1)
      + if calls[k - 1].Open? && outcomes[k - 1].code != -1 then 1
        else if calls[k - 1].Close? && outcomes[k - 1].code == 0 then -1
        else 0
  }

  lemma CallChangesUsed(image: seq<byte>, t: Table, c: Call)
    requires TableOk(image, t) && CallOk(image, t, c)
    ensures var (t', r) := Apply(image, t, c);
      Used(t', 8) == Used(t, 8) + if c.Open? && r.code != -1 then 1 else if c.Close? && r.code == 0 then -1 else 0
  {
    hide Used;
    var (t', r) := Apply(image, t, c);
    match c
    case Open(None) =>
    case Open(Some(e)) =>
      OpenBinds(image, t, e);
      if r.code != -1 {
        UsedChanges(t, t', r.code, 8);
      }
    case Close(fd) =>
      CloseFrees(image, t, fd);
      if r.code == 0 {
        UsedChanges(t', t, fd, 8);
      }
    case Read(fd, nbytes, device) =>
      ReadOutcomes(image, t, fd, nbytes, device);
      UsedSame(t, t', 8);
  }

  /** In every session the number of descriptors in use follows the opens and closes that succeed. */
  lemma {:induction false} UseIsBalanced(image: seq<byte>, tables: seq<Table>, calls: seq<Call>,
                                         outcomes: seq<Outcome>, k: nat)
    requires IsSession(image, tables, calls, outcomes) && k <= |calls|
    ensures Used(tables[k], 8) == Used(tables[0], 8) + OpenBalance(calls, outcomes, k)
  {
    hide Used, TableOk, CallOk, EntryOk, Apply;
    if k > 0 {
      UseIsBalanced(image, tables, calls, outcomes, k - 1);
      CallChangesUsed(image, tables[k - 1], calls[k - 1]);
    }
  }

  lemma NothingRuns(image: seq<byte>, fd: Fd, i: nat)
    ensures RunsAlone(image, fd, i, [], fd)
  {
  }

  lemma EachReadable(image: seq<byte>, t: Table, i: nat)
    requires TableOk(image, t) && i < FDS
    ensures Readable(image, t[i])
  {
  }

  /** open's number is the least free one from 2 on, and it fails exactly when there is none or no such file. */
  lemma OpenTakesTheLeastFree(image: seq<byte>, t: Table, found: Option<Entry>)
    requires TableOk(image, t)
    ensures var n := Apply(image, t, Open(found)).1.code;
      && (n == -1 <==> found.None? || forall i :: 2 <= i < FDS ==> t[i].used)
      && (n != -1 ==> 2 <= n < FDS && !t[n].used && (forall i :: 2 <= i < n ==> t[i].used))
  {
  }

  // ------------------------------------------------------------------------ chunks

  /** One read of a regular file: the bytes it reports, and the descriptor before and after. */
  ghost predicate Chunk(image: seq<byte>, fd: Fd, fd': Fd, nbytes: int, data: seq<byte>)
    requires Readable(image, fd) && ReadFits(image, fd, nbytes) && fd.kind == Regular && fd.used
  {
    var (n, p) := FileStep(Size(image, fd.inode), fd.position, Length(nbytes));
    fd' == fd.(position := p) && |data| == n && data == Stream(image, fd.inode, fd.position, n)
  }

  /** How far chunks of `n` bytes read, with the overshoot of the last one. */
  function Reach(size: nat, n: nat): (r: nat)
    requires n > 0
    ensures r >= size
  {
    if n >= size || size % n == 0 then size else size - size % n + n
  }

  /** Everything that reading the file in chunks of `n` bytes asks for lies in the image. */
  ghost predicate ChunksFit(image: seq<byte>, fd: Fd, n: nat)
    requires n > 0
  {
    && fd.kind == Regular && fd.used && HasInode(image, fd.inode)
    && Placed(image, fd.inode, 0, Reach(Size(image, fd.inode), n))
  }

  /** A chunk either adds to the prefix of the file read so far, or is empty and ends the reading. */
  lemma ChunkExtends(image: seq<byte>, fd: Fd, fd': Fd, n: nat, data: seq<byte>, out: seq<byte>)
    requires Readable(image, fd) && 0 < n < WORD / 2 && ChunksFit(image, fd, n) && ReadFits(image, fd, n)
    requires Chunk(image, fd, fd', n, data) && Progress(image, fd, n, out)
    ensures Readable(image, fd') && ChunksFit(image, fd', n)
    ensures if data == [] then out == Contents(image, fd.inode)[..Delivered(Size(image, fd.inode), n)]
                               && fd' == fd.(position := PositionAfter(Size(image, fd.inode), n))
            else |out + data| > |out| && Progress(image, fd', n, out + data)
  {
    hide Contents, Stream, Delivered, PositionAfter, FileStep, Word, BlockAddress, InImage;
    assert Length(n) == n;
    ReachFitsWord(image, fd.inode, Reach(Size(image, fd.inode), n));
    ChunkStep(Size(image, fd.inode), fd.position, n);
    if data == [] {
      assert |data| == 0;
    } else {
      PrefixGrows(image, fd.inode, fd.position, |data|);
      assert |out + data| == |out| + |data| > |out|;
    }
  }

  lemma ReachFitsWord(image: seq<byte>, inode: nat, n: nat)
    requires Placed(image, inode, 0, n)
    ensures n <= ENTRIES * BLOCK < WORD
  {
    assert n > 0 ==> InImage(image, inode, n - 1);
  }

  /** The next chunk stays within what all chunks reach. */
  lemma NextChunkFits(image: seq<byte>, fd: Fd, n: nat, out: seq<byte>)
    requires Readable(image, fd) && 0 < n < WORD / 2 && ChunksFit(image, fd, n) && Progress(image, fd, n, out)
    ensures ReadFits(image, fd, n)
  {
    hide Contents, InImage, Size;
    var size := Size(image, fd.inode);
    assert Length(n) == n;
    WithinReach(size, fd.position, n);
  }

  lemma WithinReach(size: nat, position: nat, n: nat)
    requires 0 < n && position <= size
    requires if n < size then position % n == 0 else position == 0 || position == size
    ensures position + ReadCount(size, position, n) <= Reach(size, n)
  {
    if n < size && position < size {
      QuotientOrder(position / n, size / n, position, size, n);
    }
  }

  lemma QuotientOrder(p: nat, q: nat, position: nat, size: nat, n: nat)
    requires n > 0 && position % n == 0 && position < size && p == position / n && q == size / n
    ensures position + n <= if size % n == 0 then size else q * n + n
  {
    assert position == p * n && size == q * n + size % n;
    if p > q {
      MulOrder(q, p, n);
    } else if p == q {
    } else {
      MulOrder(p, q, n);
    }
  }

  /** `out` is what chunks of `n` bytes have delivered when the descriptor stands at `fd`. */
  ghost predicate Progress(image: seq<byte>, fd: Fd, n: nat, out: seq<byte>)
    requires n > 0 && ChunksFit(image, fd, n) && Readable(image, fd)
  {
    var size := Size(image, fd.inode);
    && |out| == fd.position && out == Contents(image, fd.inode)[..|out|]
    && (if n < size then |out| % n == 0 else |out| == 0 || |out| == size)
  }

  /** How much of a file repeated reads of `n` bytes deliver before the first 0. */
  function Delivered(size: nat, n: nat): (d: nat)
    requires n > 0
    ensures d <= size
  {
    if n >= size then size else size - size % n
  }

  /** Where the position is after that first 0. */
  function PositionAfter(size: nat, n: nat): nat
    requires n > 0
  {
    if Delivered(size, n) == size then size else 0
  }

  /** Reading in chunks delivers the whole file exactly when one read suffices or the chunks divide it. */
  lemma WholeFileIff(size: nat, n: nat)
    requires n > 0
    ensures Delivered(size, n) == size <==> n >= size || size % n == 0
  {
  }

  lemma ChunkResidue(size: nat, position: nat, n: nat)
    requires 0 < n && position % n == 0
    ensures (position + n) % n == 0
    ensures position <= size < position + n ==> size % n == size - position
  {
    var q := position / n;
    assert position == q * n;
    assert (q + 1) * n == q * n + n;
    ModIs(position + n, q + 1, 0, n);
    if position <= size < position + n {
      ModIs(size, q, size - position, n);
    }
  }

  lemma NoWrap(size: nat, position: nat, n: nat)
    requires position + ReadCount(size, position, n) < WORD
    ensures var count, p := ReadCount(size, position, n), position + ReadCount(size, position, n);
      FileStep(size, position, n) == if p > size then (0, 0) else (count, p)
  {
  }

  lemma ChunkStep(size: nat, position: nat, n: nat)
    requires 0 < n && position <= size && Reach(size, n) < WORD
    requires if n < size then position % n == 0 else position == 0 || position == size
    ensures var (count, p) := FileStep(size, position, n);
      if count == 0 then position == Delivered(size, n) && p == PositionAfter(size, n)
      else p == position + count <= size && (if n < size then p % n == 0 else p == size)
  {
    hide Reach, FileStep;
    WithinReach(size, position, n);
    NoWrap(size, position, n);
    if n < size {
      ChunkResidue(size, position, n);
    }
  }

  class Process {
    const fds: array<Fd>

    ghost predicate Valid(image: seq<byte>)
      reads this, fds
    {
      fds.Length == FDS && TableOk(image, fds[..])
    }

    constructor ()
      ensures fds.Length == FDS && fds[..] == NewTable() && fresh(fds)
    {
      fds := new Fd[FDS](i requires 0 <= i < FDS => NewTable()[i]);
    }

    method OpenFile(image: seq<byte>, found: Option<Entry>) returns (r: int)
      requires Valid(image) && EntryOk(image, Open(found))
      modifies fds
      ensures Valid(image) && (fds[..], Outcome(r, [])) == Apply(image, old(fds[..]), Open(found))
      ensures r != -1 ==> found.Some? && 2 <= r < 8 && !old(fds[..])[r].used && FreshFor(fds[r], found.value)
    {
      ApplyKeepsTable(image, fds[..], Open(found));
      if found.None? {
        return -1;
      }
      var e := found.value;
      var i := FIRST_FILE;
      while i < FDS
        invariant FIRST_FILE <= i <= FDS && fds[..] == old(fds[..])
        invariant forall j :: FIRST_FILE <= j < i ==> fds[j].used
      {
        if !fds[i].used {
          fds[i] := fds[i].(position := 0);
          if e.fileType == 0 {
            fds[i] := fds[i].(kind := Rtc);
            fds[i] := fds[i].(used := true);
          } else if e.fileType == 1 {
            fds[i] := fds[i].(kind := Directory);
            fds[i] := fds[i].(used := true);
          } else {
            fds[i] := fds[i].(kind := Regular);
            fds[i] := fds[i].(inode := e.inode);
            fds[i] := fds[i].(used := true);
          }
          assert FirstFree(old(fds[..]), FIRST_FILE) == i;
          assert fds[..] == old(fds[..])[i := Opened(old(fds[i]), e)];
          return i;
        }
        i := i + 1;
      }
      return -1;
    }

    method CloseFile(image: seq<byte>, fd: int) returns (r: int)
      requires Valid(image)
      modifies fds
      ensures Valid(image) && (fds[..], Outcome(r, [])) == Apply(image, old(fds[..]), Close(fd))
      ensures r == if 2 <= fd < 8 && old(fds[..])[fd].used then 0 else -1
      ensures r == 0 ==> !fds[fd].used && OnlyFd(old(fds[..]), fds[..], fd)
    {
      ApplyKeepsTable(image, fds[..], Close(fd));
      if fd < 0 || fd > 7 {
        return -1;
      }
      if !fds[fd].used || fd == 0 || fd == 1 {
        return -1;
      }
      fds[fd] := fds[fd].(used := false);
      return 0;
    }

    /** file_read on a descriptor of a regular file. */
    method FileRead(image: seq<byte>, fd: nat, buf: array<byte>, nbytes: int) returns (r: int)
      requires Valid(image) && fd < FDS && fds[fd].kind == Regular && fds[fd].used
      requires Readable(image, fds[fd]) && ReadFits(image, fds[fd], nbytes)
      requires ReadCount(Size(image, fds[fd].inode), fds[fd].position, Length(nbytes)) <= buf.Length
      modifies fds, buf
      ensures Valid(image) && 0 <= r <= buf.Length
      ensures CallOk(image, old(fds[..]), Read(fd, nbytes, Outcome(0, [])))
      ensures (fds[..], Outcome(r, buf[..r])) == Apply(image, old(fds[..]), Read(fd, nbytes, Outcome(0, [])))
      ensures Chunk(image, old(fds[fd]), fds[fd], nbytes, buf[..r])
      ensures forall i :: 0 <= i < FDS && i != fd ==> fds[i] == old(fds[i])
    {
      var offset, inode := fds[fd].position, fds[fd].inode;
      assert Readable(image, fds[fd]);
      ApplyKeepsTable(image, fds[..], Read(fd, nbytes, Outcome(0, [])));
      var read := ReadData(image, inode, offset, buf, Length(nbytes));
      fds[fd] := fds[fd].(position := (fds[fd].position + read) % WORD);
      if fds[fd].position > Size(image, inode) {
        fds[fd] := fds[fd].(position := 0);
        assert buf[..0] == Stream(image, inode, offset, 0);
        assert fds[..] == old(fds[..])[fd := old(fds[fd]).(position := 0)];
        return 0;
      }
      return read;
    }

    /**
     The loop of cat: read into `buf` until a read returns 0, writing out what was read.
     */
    method Cat(image: seq<byte>, fd: nat, buf: array<byte>) returns (out: seq<byte>)
      requires Valid(image) && fd < FDS && fds[fd].position == 0
      requires 0 < buf.Length < WORD / 2 && ChunksFit(image, fds[fd], buf.Length)
      modifies fds, buf
      ensures Valid(image)
      ensures forall i :: 0 <= i < FDS && i != fd ==> fds[i] == old(fds[i])
      ensures var size := Size(image, old(fds[fd].inode));
        && out == Contents(image, old(fds[fd].inode))[..Delivered(size, buf.Length)]
        && fds[fd] == old(fds[fd]).(position := PositionAfter(size, buf.Length))
    {
      hide Stream, Contents, Delivered, PositionAfter, Apply, CallOk, TableOk, Chunk, FileStep, Progress, ReadFits, Placed;
      out := [];
      EachReadable(image, fds[..], fd);
      StartsEmpty(image, fds[fd], buf.Length);
      ghost var size := Size(image, fds[fd].inode);
      while true
        invariant Valid(image) && fds[fd] == old(fds[fd]).(position := fds[fd].position)
        invariant forall i :: 0 <= i < FDS && i != fd ==> fds[i] == old(fds[i])
        invariant Readable(image, fds[fd]) && ChunksFit(image, fds[fd], buf.Length)
        invariant Progress(image, fds[fd], buf.Length, out) && |out| <= size
        decreases size - |out|
      {
        ghost var before := fds[fd];
        NextChunkFits(image, before, buf.Length, out);
        var cnt := FileRead(image, fd, buf, buf.Length);
        ChunkExtends(image, before, fds[fd], buf.Length, buf[..cnt], out);
        if cnt == 0 {
          break;
        }
        out := out + buf[..cnt];
        ProgressBounded(image, fds[fd], buf.Length, out);
      }
    }
  }

  lemma StartsEmpty(image: seq<byte>, fd: Fd, n: nat)
    requires n > 0 && ChunksFit(image, fd, n) && Readable(image, fd) && fd.position == 0
    ensures Progress(image, fd, n, [])
  {
  }

  lemma ProgressBounded(image: seq<byte>, fd: Fd, n: nat, out: seq<byte>)
    requires n > 0 && ChunksFit(image, fd, n) && Readable(image, fd) && Progress(image, fd, n, out)
    ensures |out| <= Size(image, fd.inode)
  {
  }

  lemma PrefixGrows(image: seq<byte>, inode: nat, from: nat, n: nat)
    requires HasInode(image, inode) && Placed(image, inode, 0, Size(image, inode)) && from + n <= Size(image, inode)
    ensures Contents(image, inode)[..from] + Stream(image, inode, from, n) == Contents(image, inode)[..from + n]
  {
  }
}

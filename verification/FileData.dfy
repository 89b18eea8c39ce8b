/**
 read_data (filesystem.c) on the raw image: a boot block, one 4096-byte block per inode
 holding the file's size and its block numbers, and the data blocks. It is compared with
 a slice of the byte stream that the inode's blocks make up.
 */
module FileData {
  import opened Common

  const BLOCK: nat := 4096
  const ENTRIES: nat := BLOCK / 4 - 1

  /** A little-endian 32-bit word. */
  function Word(image: seq<byte>, at: nat): nat
    requires at + 4 <= |image|
  {
    var b0: int, b1: int, b2: int, b3: int := image[at], image[at + 1], image[at + 2], image[at + 3];
    b0 + 0x100 * b1 + 0x1_0000 * b2 + 0x100_0000 * b3
  }

  function NumInodes(image: seq<byte>): nat
    requires |image| >= BLOCK
  {
    Word(image, 4)
  }

  /** The inode's own block lies inside the image. */
  predicate HasInode(image: seq<byte>, inode: nat) {
    |image| >= BLOCK && (inode + 2) * BLOCK <= |image|
  }

  function Size(image: seq<byte>, inode: nat): nat
    requires HasInode(image, inode)
  {
    Word(image, (inode + 1) * BLOCK)
  }

  /** The image offset of block number `b` of an inode. */
  function BlockAddress(image: seq<byte>, inode: nat, b: nat): nat
    requires HasInode(image, inode) && b < ENTRIES
  {
    (NumInodes(image) + 1 + Word(image, (inode + 1) * BLOCK + (b + 1) * 4)) * BLOCK
  }

  /** Byte `p` of the inode's blocks laid end to end lies in the image. */
  predicate InImage(image: seq<byte>, inode: nat, p: nat) {
    && HasInode(image, inode) && p < ENTRIES * BLOCK
    && BlockAddress(image, inode, p / BLOCK) + p % BLOCK < |image|
  }

  /** So do the `n` bytes from `from` on; block numbers of other parts of the inode do not matter. */
  ghost predicate Placed(image: seq<byte>, inode: nat, from: nat, n: nat) {
    HasInode(image, inode) && forall p :: from <= p < from + n ==> InImage(image, inode, p)
  }

  function StreamByte(image: seq<byte>, inode: nat, p: nat): byte
    requires InImage(image, inode, p)
  {
    image[BlockAddress(image, inode, p / BLOCK) + p % BLOCK]
  }

  /** `n` bytes of the inode's blocks laid end to end. */
  ghost function Stream(image: seq<byte>, inode: nat, from: nat, n: nat): (r: seq<byte>)
    requires Placed(image, inode, from, n)
    ensures |r| == n
  {
    seq<byte>(n, k requires 0 <= k < n => StreamByte(image, inode, from + k))
  }

  /** The file: as much of the stream as the inode's size says. */
  ghost function Contents(image: seq<byte>, inode: nat): (r: seq<byte>)
    requires HasInode(image, inode) && Placed(image, inode, 0, Size(image, inode))
    ensures |r| == Size(image, inode)
  {
    Stream(image, inode, 0, Size(image, inode))
  }

  lemma StreamConcat(image: seq<byte>, inode: nat, from: nat, m: nat, n: nat)
    requires Placed(image, inode, from, m) && Placed(image, inode, from + m, n)
    ensures Placed(image, inode, from, m + n)
    ensures Stream(image, inode, from, m) + Stream(image, inode, from + m, n) == Stream(image, inode, from, m + n)
  {
  }

  lemma BlockOf(b: nat, pos: nat)
    requires pos < BLOCK
    ensures (b * BLOCK + pos) / BLOCK == b && (b * BLOCK + pos) % BLOCK == pos
  {
  }

  /** A part of one block is a part of the stream. */
  lemma BlockIsStream(image: seq<byte>, inode: nat, b: nat, pos: nat, n: nat)
    requires Placed(image, inode, b * BLOCK + pos, n) && n > 0 && pos + n <= BLOCK
    ensures b < ENTRIES
    ensures var a := BlockAddress(image, inode, b) + pos;
      a + n <= |image| && image[a..a + n] == Stream(image, inode, b * BLOCK + pos, n)
  {
    hide Word;
    assert InImage(image, inode, b * BLOCK + pos) && InImage(image, inode, b * BLOCK + pos + n - 1);
    BlockOf(b, pos);
    BlockOf(b, pos + n - 1);
    var a := BlockAddress(image, inode, b) + pos;
    var stream := Stream(image, inode, b * BLOCK + pos, n);
    forall i | 0 <= i < n ensures image[a + i] == stream[i] {
      BlockOf(b, pos + i);
      assert stream[i] == StreamByte(image, inode, b * BLOCK + pos + i);
    }
  }

  /** What read_data takes as the number of bytes to read: it is capped by the size, not by what is left. */
  function ReadCount(size: nat, offset: nat, length: nat): nat {
    if offset >= size then 0 else Min(length, size)
  }

  /** memcpy from the image into the caller's buffer. */
  method CopyOut(image: seq<byte>, from: nat, buf: array<byte>, at: nat, n: nat)
    requires from + n <= |image| && at + n <= buf.Length
    modifies buf
    ensures buf[..at + n] == old(buf[..at]) + image[from..from + n]
    ensures forall j :: at + n <= j < buf.Length ==> buf[j] == old(buf[j])
  {
    for i := 0 to n
      invariant forall j :: 0 <= j < buf.Length && !(at <= j < at + i) ==> buf[j] == old(buf[j])
      invariant forall j :: at <= j < at + i ==> buf[j] == image[from + j - at]
    {
      buf[at + i] := image[from + i];
    }
  }

  /** One memcpy of read_data: `n` bytes at `pos` of block `b` go behind the `at` bytes read so far. */
  method CopyBlock(image: seq<byte>, inode: nat, b: nat, pos: nat, buf: array<byte>, ghost offset: nat, at: nat, n: nat)
    requires Placed(image, inode, offset, at + n) && pos + n <= BLOCK && at + n <= buf.Length
    requires offset + at == b * BLOCK + pos && buf[..at] == Stream(image, inode, offset, at)
    modifies buf
    ensures buf[..at + n] == Stream(image, inode, offset, at + n)
    ensures forall j :: at + n <= j < buf.Length ==> buf[j] == old(buf[j])
  {
    hide Stream;
    if n > 0 {
      BlockIsStream(image, inode, b, pos, n);
      StreamConcat(image, inode, offset, at, n);
      CopyOut(image, BlockAddress(image, inode, b) + pos, buf, at, n);
    }
  }

  method ReadData(image: seq<byte>, inode: nat, offset: nat, buf: array<byte>, length: nat) returns (r: int)
    requires |image| >= BLOCK && (inode <= NumInodes(image) ==> HasInode(image, inode))
    requires inode <= NumInodes(image) ==> var count := ReadCount(Size(image, inode), offset, length);
      Placed(image, inode, offset, count) && count <= buf.Length
    modifies buf
    ensures inode > NumInodes(image) ==> r == -1 && buf[..] == old(buf[..])
    ensures inode <= NumInodes(image) ==>
      && r == ReadCount(Size(image, inode), offset, length) <= buf.Length
      && (r > 0 ==> buf[..r] == Stream(image, inode, offset, r))
      && forall j :: r <= j < buf.Length ==> buf[j] == old(buf[j])
  {
    hide Stream, Word;
    if inode > NumInodes(image) {
      return -1;
    }
    var inodeLength := Size(image, inode);
    if offset >= inodeLength {
      return 0;
    }
    var dataBlockNum := offset / BLOCK;
    var dataBlockPos := offset % BLOCK;
    var dataToRead := if length <= inodeLength then length else inodeLength;
    var dataRemain := (dataBlockNum + 1) * BLOCK - offset;
    if length < inodeLength {
      if dataRemain > length {
        dataRemain := length;
      }
    } else {
      if dataRemain > inodeLength {
        dataRemain := inodeLength;
      }
    }
    CopyBlock(image, inode, dataBlockNum, dataBlockPos, buf, offset, 0, dataRemain);
    var dataRead := dataRemain;
    while dataToRead - dataRead >= BLOCK
      invariant dataRead <= dataToRead && Placed(image, inode, offset, dataRead)
      invariant dataRead == dataToRead || offset + dataRead == (dataBlockNum + 1) * BLOCK
      invariant buf[..dataRead] == Stream(image, inode, offset, dataRead)
      invariant forall j :: dataRead <= j < buf.Length ==> buf[j] == old(buf[j])
    {
      dataBlockNum := dataBlockNum + 1;
      CopyBlock(image, inode, dataBlockNum, 0, buf, offset, dataRead, BLOCK);
      dataRead := dataRead + BLOCK;
    }
    if dataToRead - dataRead > 0 {
      dataRemain := dataToRead - dataRead;
      dataBlockNum := dataBlockNum + 1;
      CopyBlock(image, inode, dataBlockNum, 0, buf, offset, dataRead, dataRemain);
      dataRead := dataRead + dataRemain;
    }
    r := dataRead;
  }

  /**
   The slice read is the file's own slice, ending where the file ends, exactly when the
   read starts at 0 or stays within the size; otherwise it runs over the end.
   */
  lemma ReadsTheFileIffWithin(image: seq<byte>, inode: nat, offset: nat, length: nat)
    requires HasInode(image, inode) && offset < Size(image, inode) && Placed(image, inode, 0, Size(image, inode))
    requires Placed(image, inode, offset, ReadCount(Size(image, inode), offset, length))
    ensures var size, r := Size(image, inode), ReadCount(Size(image, inode), offset, length);
      Stream(image, inode, offset, r) == Contents(image, inode)[offset..Min(offset + length, size)]
      <==> offset == 0 || offset + length <= size
  {
    var size, r := Size(image, inode), ReadCount(Size(image, inode), offset, length);
    var slice := Contents(image, inode)[offset..Min(offset + length, size)];
    if offset == 0 || offset + length <= size {
      assert |slice| == r;
    } else {
      assert |slice| == size - offset < r;
    }
  }
}

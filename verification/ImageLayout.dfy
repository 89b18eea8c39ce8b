/**
 The file-system image as a disk tool lays it out, written as a concatenation: the boot
 block with the directory, one block per inode, and the data blocks. What filesystem.c
 reads from such an image is what was laid out.
 */
module ImageLayout {
  import opened Common
  import opened FileData
  import opened DirectoryListing

  /** A file's size and the numbers of its data blocks. */
  datatype Node = Node(size: nat, blocks: seq<nat>)

  datatype Volume = Volume(entries: seq<Dentry>, nodes: seq<Node>, blocks: seq<seq<byte>>)

  predicate IsEntry(e: Dentry) {
    |e.name| <= 32 && NUL !in e.name && e.fileType < WORD && e.inode < WORD
  }

  /** The blocks of a node exist and hold its size. */
  predicate IsNode(n: Node, blocks: nat) {
    && n.size < WORD && |n.blocks| <= 1023 && n.size <= 4096 * |n.blocks|
    && forall i :: 0 <= i < |n.blocks| ==> n.blocks[i] < blocks && n.blocks[i] < WORD
  }

  ghost predicate IsVolume(v: Volume) {
    && |v.entries| <= 63 && (forall i :: 0 <= i < |v.entries| ==> IsEntry(v.entries[i]))
    && |v.nodes| < WORD && |v.blocks| < WORD && (forall i :: 0 <= i < |v.nodes| ==> IsNode(v.nodes[i], |v.blocks|))
    && forall i :: 0 <= i < |v.blocks| ==> |v.blocks[i]| == 4096
  }

  // --------------------------------------------------------------------- encoding

  function Zeros(n: nat): (r: seq<byte>)
    ensures |r| == n && forall i :: 0 <= i < n ==> r[i] == 0
  {
    seq<byte>(n, _ => 0)
  }

  /** A 32-bit word, low byte first. */
  function EncodeWord(w: nat): (r: seq<byte>)
    ensures |r| == 4
  {
    [w % 0x100, w / 0x100 % 0x100, w / 0x1_0000 % 0x100, w / 0x100_0000 % 0x100]
  }

  function EncodeEntry(e: Dentry): (r: seq<byte>)
    requires |e.name| <= 32
    ensures |r| == 64
  {
    e.name + Zeros(32 - |e.name|) + EncodeWord(e.fileType) + EncodeWord(e.inode) + Zeros(24)
  }

  /** The parts one behind the other. */
  function Concat(parts: seq<seq<byte>>): seq<byte> {
    if parts == [] then [] else parts[0] + Concat(parts[1..])
  }

  function EntryParts(entries: seq<Dentry>): (r: seq<seq<byte>>)
    requires forall i :: 0 <= i < |entries| ==> IsEntry(entries[i])
    ensures |r| == |entries| && forall i :: 0 <= i < |entries| ==> IsEntry(entries[i]) && r[i] == EncodeEntry(entries[i])
  {
    seq(|entries|, i requires 0 <= i < |entries| && IsEntry(entries[i]) => EncodeEntry(entries[i]))
  }

  function WordParts(words: seq<nat>): (r: seq<seq<byte>>)
    ensures |r| == |words| && forall i :: 0 <= i < |r| ==> r[i] == EncodeWord(words[i])
  {
    seq(|words|, i requires 0 <= i < |words| => EncodeWord(words[i]))
  }

  ghost function BootBlock(v: Volume): seq<byte>
    requires IsVolume(v)
  {
    EncodeWord(|v.entries|) + EncodeWord(|v.nodes|) + EncodeWord(|v.blocks|) + Zeros(52)
    + Concat(EntryParts(v.entries)) + Zeros(64 * (63 - |v.entries|))
  }

  function EncodeNode(n: Node): seq<byte>
    requires |n.blocks| <= 1023
  {
    EncodeWord(n.size) + Concat(WordParts(n.blocks)) + Zeros(4 * (1023 - |n.blocks|))
  }

  ghost function NodeParts(v: Volume): (r: seq<seq<byte>>)
    requires IsVolume(v)
    ensures |r| == |v.nodes| && forall i :: 0 <= i < |r| ==> r[i] == EncodeNode(v.nodes[i])
  {
    seq(|v.nodes|, i requires 0 <= i < |v.nodes| => EncodeNode(v.nodes[i]))
  }

  ghost function Image(v: Volume): seq<byte>
    requires IsVolume(v)
  {
    BootBlock(v) + Concat(NodeParts(v)) + Concat(v.blocks)
  }

  ghost function FileParts(v: Volume, inode: nat): (r: seq<seq<byte>>)
    requires IsVolume(v) && inode < |v.nodes|
    ensures |r| == |v.nodes[inode].blocks| && forall i :: 0 <= i < |r| ==> r[i] == v.blocks[v.nodes[inode].blocks[i]]
  {
    var blocks := v.nodes[inode].blocks;
    seq(|blocks|, i requires 0 <= i < |blocks| => v.blocks[blocks[i]])
  }

  /** The data blocks of a file in order; its first `size` bytes are the file. */
  ghost function FileBlocks(v: Volume, inode: nat): (r: seq<byte>)
    requires IsVolume(v) && inode < |v.nodes|
    ensures |r| == 4096 * |v.nodes[inode].blocks|
  {
    PartOf(FileParts(v, inode), 4096, 0);
    Concat(FileParts(v, inode))
  }

  // --------------------------------------------------------------------- decoding

  lemma ConcatFirst(parts: seq<seq<byte>>)
    requires parts != []
    ensures Concat(parts) == parts[0] + Concat(parts[1..])
  {
  }

  lemma NoParts()
    ensures Concat([]) == []
  {
  }

  lemma BehindFirst(a: seq<byte>, b: seq<byte>, from: nat, n: nat)
    requires from + n <= |b|
    ensures (a + b)[|a| + from..|a| + from + n] == b[from..from + n]
  {
  }

  lemma NextMultiple(size: nat, k: nat)
    ensures size * (k + 1) == size * k + size
  {
  }

  /** Part `i` of equally long parts. */
  lemma {:induction false} PartOf(parts: seq<seq<byte>>, size: nat, i: nat)
    requires forall j :: 0 <= j < |parts| ==> |parts[j]| == size
    ensures |Concat(parts)| == size * |parts|
    ensures i < |parts| ==> size * i + size <= |Concat(parts)| && Concat(parts)[size * i..size * i + size] == parts[i]
  {
    hide Concat;
    if parts == [] {
      NoParts();
    } else {
      var rest := parts[1..];
      ConcatFirst(parts);
      NextMultiple(size, |rest|);
      if i == 0 {
        PartOf(rest, size, 0);
        assert Concat(parts)[..size] == parts[0];
      } else {
        PartOf(rest, size, i - 1);
        NextMultiple(size, i - 1);
        if i < |parts| {
          BehindFirst(parts[0], Concat(rest), size * (i - 1), size);
        }
      }
    }
  }

  lemma WordDecodes(image: seq<byte>, at: nat, w: nat)
    requires at + 4 <= |image| && image[at..at + 4] == EncodeWord(w) && w < WORD
    ensures Word(image, at) == w
  {
    var e := image[at..at + 4];
    assert image[at] == e[0] && image[at + 1] == e[1] && image[at + 2] == e[2] && image[at + 3] == e[3];
    assert w / 0x1_0000 == w / 0x100 / 0x100 && w / 0x100_0000 == w / 0x100 / 0x100 / 0x100;
  }

  /** A part of a part. */
  lemma SubSlice(s: seq<byte>, from: nat, part: seq<byte>, at: nat, n: nat)
    requires from + |part| <= |s| && s[from..from + |part|] == part && at + n <= |part|
    ensures s[from + at..from + at + n] == part[at..at + n]
  {
    forall j | from + at <= j < from + at + n ensures s[j] == part[j - from] {
      assert s[from..from + |part|][j - from] == s[j];
    }
  }

  lemma NodeSize(n: Node)
    requires |n.blocks| <= 1023
    ensures |Concat(WordParts(n.blocks))| == 4 * |n.blocks| && |EncodeNode(n)| == 4096
    ensures EncodeNode(n)[..4] == EncodeWord(n.size)
  {
    PartOf(WordParts(n.blocks), 4, 0);
  }

  lemma NodeWord(n: Node, b: nat)
    requires b < |n.blocks| <= 1023
    ensures |EncodeNode(n)| == 4096 && EncodeNode(n)[4 + 4 * b..8 + 4 * b] == EncodeWord(n.blocks[b])
  {
    hide EncodeWord, Concat;
    NodeSize(n);
    PartOf(WordParts(n.blocks), 4, b);
    SubSlice(EncodeNode(n), 4, Concat(WordParts(n.blocks)), 4 * b, 4);
  }

  lemma BootSize(v: Volume)
    requires IsVolume(v)
    ensures |Concat(EntryParts(v.entries))| == 64 * |v.entries| && |BootBlock(v)| == 4096
    ensures BootBlock(v)[0..4] == EncodeWord(|v.entries|) && BootBlock(v)[4..8] == EncodeWord(|v.nodes|)
  {
    hide EncodeWord, Concat;
    PartOf(EntryParts(v.entries), 64, 0);
  }

  lemma BootEntry(v: Volume, k: nat)
    requires IsVolume(v) && k < |v.entries|
    ensures |BootBlock(v)| == 4096 && BootBlock(v)[64 + 64 * k..64 + 64 * k + 64] == EncodeEntry(v.entries[k])
  {
    hide EncodeWord, EncodeEntry, Concat;
    BootSize(v);
    PartOf(EntryParts(v.entries), 64, k);
    SubSlice(BootBlock(v), 64, Concat(EntryParts(v.entries)), 64 * k, 64);
  }

  /** Where the parts of an image lie. */
  lemma ImageParts(v: Volume)
    requires IsVolume(v)
    ensures var image, data := Image(v), 4096 * (1 + |v.nodes|);
      && |image| == data + 4096 * |v.blocks| && image[0..4096] == BootBlock(v)
      && (forall i :: 0 <= i < |v.nodes| ==> NodeIn(image, 4096 * (1 + i), v.nodes[i]))
      && forall j :: 0 <= j < |v.blocks| ==> PartIn(image, data + 4096 * j, v.blocks[j])
  {
    hide EncodeNode, BootBlock, Concat;
    BootSize(v);
    var image, parts, data := Image(v), NodeParts(v), 4096 * (1 + |v.nodes|);
    forall i | 0 <= i < |v.nodes| ensures |parts[i]| == 4096 {
      NodeSize(v.nodes[i]);
    }
    PartOf(parts, 4096, 0);
    PartOf(v.blocks, 4096, 0);
    forall i | 0 <= i < |v.nodes| ensures NodeIn(image, 4096 * (1 + i), v.nodes[i]) {
      PartOf(parts, 4096, i);
      SubSlice(image, 4096, Concat(parts), 4096 * i, 4096);
    }
    forall j | 0 <= j < |v.blocks| ensures PartIn(image, data + 4096 * j, v.blocks[j]) {
      PartOf(v.blocks, 4096, j);
      SubSlice(image, data, Concat(v.blocks), 4096 * j, 4096);
    }
  }

  ghost predicate PartIn(image: seq<byte>, at: nat, part: seq<byte>) {
    at + |part| <= |image| && image[at..at + |part|] == part
  }

  ghost predicate NodeIn(image: seq<byte>, at: nat, n: Node)
    requires |n.blocks| <= 1023
  {
    |EncodeNode(n)| == 4096 && PartIn(image, at, EncodeNode(n))
  }

  // --------------------------------------------------------------------- theorems

  /** The counts and sizes that were laid out are read. */
  lemma CountsAreRead(v: Volume, inode: nat)
    requires IsVolume(v) && inode < |v.nodes|
    ensures var image := Image(v);
      && NumDentries(image) == |v.entries| && NumInodes(image) == |v.nodes|
      && HasInode(image, inode) && Size(image, inode) == v.nodes[inode].size
  {
    hide Image, Word, EncodeWord, EncodeNode, BootBlock;
    var image := Image(v);
    ImageParts(v);
    BootSize(v);
    SubSlice(image, 0, BootBlock(v), 0, 4);
    SubSlice(image, 0, BootBlock(v), 4, 4);
    WordDecodes(image, 0, |v.entries|);
    WordDecodes(image, 4, |v.nodes|);
    assert NodeIn(image, 4096 * (1 + inode), v.nodes[inode]);
    NodeSize(v.nodes[inode]);
    SubSlice(image, 4096 * (1 + inode), EncodeNode(v.nodes[inode]), 0, 4);
    WordDecodes(image, 4096 * (1 + inode), v.nodes[inode].size);
  }

  /** The block that read_data looks up is the block that was laid out. */
  lemma BlockIsRead(v: Volume, inode: nat, b: nat)
    requires IsVolume(v) && inode < |v.nodes| && b < |v.nodes[inode].blocks|
    ensures HasInode(Image(v), inode)
    ensures PartIn(Image(v), BlockAddress(Image(v), inode, b), v.blocks[v.nodes[inode].blocks[b]])
  {
    hide Image, Word, EncodeWord, EncodeNode, BootBlock;
    var image, n := Image(v), v.nodes[inode];
    CountsAreRead(v, inode);
    ImageParts(v);
    assert NodeIn(image, 4096 * (1 + inode), n);
    NodeWord(n, b);
    SubSlice(image, 4096 * (1 + inode), EncodeNode(n), 4 + 4 * b, 4);
    WordDecodes(image, 4096 * (1 + inode) + (4 + 4 * b), n.blocks[b]);
    assert PartIn(image, 4096 * (1 + |v.nodes|) + 4096 * n.blocks[b], v.blocks[n.blocks[b]]);
  }

  lemma ByteIsRead(v: Volume, inode: nat, p: nat)
    requires IsVolume(v) && inode < |v.nodes| && p < 4096 * |v.nodes[inode].blocks|
    ensures InImage(Image(v), inode, p) && StreamByte(Image(v), inode, p) == FileBlocks(v, inode)[p]
  {
    hide Image, Word, BlockAddress, Concat;
    var b, pos := p / 4096, p % 4096;
    PartOf(FileParts(v, inode), 4096, b);
    BlockIsRead(v, inode, b);
    var image, a, file := Image(v), BlockAddress(Image(v), inode, b), FileBlocks(v, inode);
    assert image[a..a + 4096][pos] == image[a + pos];
    assert file[4096 * b..4096 * b + 4096][pos] == file[p];
  }

  /** Any range of a file's blocks that is read is the range that was laid out. */
  lemma StreamIsLaidOut(v: Volume, inode: nat, from: nat, n: nat)
    requires IsVolume(v) && inode < |v.nodes| && from + n <= 4096 * |v.nodes[inode].blocks|
    ensures Placed(Image(v), inode, from, n) && Stream(Image(v), inode, from, n) == FileBlocks(v, inode)[from..from + n]
  {
    hide Image, FileBlocks, BlockAddress, StreamByte, InImage;
    CountsAreRead(v, inode);
    forall p: nat | from <= p < from + n
      ensures InImage(Image(v), inode, p) && StreamByte(Image(v), inode, p) == FileBlocks(v, inode)[p]
    {
      ByteIsRead(v, inode, p);
    }
  }

  /** read_data on a laid-out image returns the bytes that were laid out. */
  method ReadLaidOut(image: seq<byte>, ghost v: Volume, inode: nat, offset: nat, buf: array<byte>, length: nat)
    returns (r: int)
    requires IsVolume(v) && image == Image(v) && inode < |v.nodes| && Min(length, v.nodes[inode].size) <= buf.Length
    requires offset < v.nodes[inode].size ==> offset + Min(length, v.nodes[inode].size) <= 4096 * |v.nodes[inode].blocks|
    modifies buf
    ensures r == if offset >= v.nodes[inode].size then 0 else Min(length, v.nodes[inode].size)
    ensures r > 0 ==> buf[..r] == FileBlocks(v, inode)[offset..offset + r]
  {
    hide Image, FileBlocks, Word, Stream, IsVolume;
    CountsAreRead(v, inode);
    StreamIsLaidOut(v, inode, if offset < v.nodes[inode].size then offset else 0,
                    ReadCount(v.nodes[inode].size, offset, length));
    NothingPlaced(image, inode, offset);
    r := ReadData(image, inode, offset, buf, length);
  }

  lemma NothingPlaced(image: seq<byte>, inode: nat, offset: nat)
    requires HasInode(image, inode)
    ensures Placed(image, inode, offset, 0)
  {
  }

  lemma EntryCode(e: Dentry)
    requires IsEntry(e)
    ensures EncodeEntry(e)[0..32] == e.name + Zeros(32 - |e.name|)
    ensures EncodeEntry(e)[32..36] == EncodeWord(e.fileType) && EncodeEntry(e)[36..40] == EncodeWord(e.inode)
  {
    hide EncodeWord;
  }

  /** The directory's entries are read as they were laid out, names of all 32 bytes included. */
  lemma EntryIsRead(v: Volume, k: nat)
    requires IsVolume(v) && k < |v.entries|
    ensures |Image(v)| >= BLOCK
    ensures v.entries[k] == Dentry(Name(Image(v), k), FileType(Image(v), k), Inode(Image(v), k))
  {
    hide Image, Word, EncodeWord, EncodeEntry, BootBlock, Find;
    var image, e := Image(v), v.entries[k];
    ImageParts(v);
    BootEntry(v, k);
    var at, code := 64 + 64 * k, EncodeEntry(e);
    SubSlice(image, 0, BootBlock(v), at, 64);
    assert image[at..at + 64] == code;
    EntryCode(e);
    SubSlice(image, at, code, 0, 32);
    SubSlice(image, at, code, 32, 4);
    SubSlice(image, at, code, 36, 4);
    WordDecodes(image, at + 32, e.fileType);
    WordDecodes(image, at + 36, e.inode);
    assert Field(image, k) == e.name + Zeros(32 - |e.name|);
    NameOfField(Field(image, k), e.name);
  }

  lemma NameOfField(field: seq<byte>, name: seq<byte>)
    requires |name| <= 32 && NUL !in name && field == name + Zeros(32 - |name|)
    ensures field[..Find(field, NUL, 0)] == name
  {
    FindUnique(field, NUL, 0, |name|);
  }

  /** Opening a file by its name and reading it all gives the file that was laid out under that name. */
  lemma NamedFileIsRead(v: Volume, k: nat)
    requires IsVolume(v) && k < |v.entries| && v.entries[k].inode < |v.nodes|
    requires forall i :: 0 <= i < k ==> v.entries[i].name != v.entries[k].name
    ensures var image, e := Image(v), v.entries[k];
      && |image| >= BLOCK && LookUp(image, e.name) == Some(e) && HasInode(image, e.inode)
      && Placed(image, e.inode, 0, Size(image, e.inode))
      && Contents(image, e.inode) == FileBlocks(v, e.inode)[..v.nodes[e.inode].size]
  {
    hide Image, Word, LookUp, Slot, Name, Stream, FileType, Inode;
    var image, e := Image(v), v.entries[k];
    forall i | 0 <= i <= k
      ensures |image| >= BLOCK && v.entries[i] == Dentry(Name(image, i), FileType(image, i), Inode(image, i))
    {
      EntryIsRead(v, i);
    }
    LookUpFindsTheEntryIffFirst(image, k);
    CountsAreRead(v, e.inode);
    StreamIsLaidOut(v, e.inode, 0, v.nodes[e.inode].size);
  }
}

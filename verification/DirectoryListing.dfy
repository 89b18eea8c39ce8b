/**
 Directory entries of the boot block: lookup by name and by index, the stateful
 dir_read, and the ls program's loop over it (filesystem.c, lib.c, ece391ls.c).
 */
module DirectoryListing {
  import opened Common
  import opened FileData

  const NAME: nat := 32
  const SLOTS: nat := 63
  const ENTRY: nat := 64

  datatype Dentry = Dentry(name: seq<byte>, fileType: nat, inode: nat)

  function NumDentries(image: seq<byte>): nat
    requires |image| >= BLOCK
  {
    Word(image, 0)
  }

  /** The 32 bytes of an entry's name field. */
  function Field(image: seq<byte>, i: nat): (r: seq<byte>)
    requires |image| >= BLOCK && i < SLOTS
    ensures |r| == NAME
  {
    image[ENTRY * (i + 1)..ENTRY * (i + 1) + NAME]
  }

  function FileType(image: seq<byte>, i: nat): nat
    requires |image| >= BLOCK && i < SLOTS
  {
    Word(image, ENTRY * (i + 1) + NAME)
  }

  function Inode(image: seq<byte>, i: nat): nat
    requires |image| >= BLOCK && i < SLOTS
  {
    Word(image, ENTRY * (i + 1) + NAME + 4)
  }

  /** The name an entry stands for: its field up to the first NUL, if there is one. */
  function Name(image: seq<byte>, i: nat): (r: seq<byte>)
    requires |image| >= BLOCK && i < SLOTS
    ensures |r| <= NAME && NUL !in r
  {
    var f := Field(image, i);
    f[..Find(f, NUL, 0)]
  }

  /** At most the first 32 bytes of a string. */
  function Clipped(name: seq<byte>): (r: seq<byte>)
    ensures r <= name && |r| == Min(|name|, 32)
  {
    if |name| <= NAME then name else name[..NAME]
  }

  /** strncmp(s1, s2, 32) for a NUL-terminated s1 holding `name` and a name field s2. */
  method Strncmp(name: seq<byte>, field: seq<byte>) returns (r: int)
    requires NUL !in name && |field| == NAME
    ensures r == 0 <==> Clipped(name) == field[..Find(field, NUL, 0)]
  {
    var k := Find(field, NUL, 0);
    var i := 0;
    while i < NAME
      invariant i <= NAME && i <= |name| && i <= k
      invariant name[..i] == field[..i]
    {
      var c := if i < |name| then name[i] else NUL;
      if c != field[i] || c == NUL {
        assert i < k && i < |name| ==> field[..k][i] == field[i] != name[i] == Clipped(name)[i];
        assert i == |name| ==> Clipped(name) == name;
        return c - field[i];
      }
      assert name[..i + 1] == field[..i + 1];
      i := i + 1;
    }
    assert Clipped(name) == name[..NAME];
    return 0;
  }

  /** The first slot from `from` on that carries a name, or SLOTS. */
  function Slot(image: seq<byte>, name: seq<byte>, from: nat): (i: nat)
    requires |image| >= BLOCK && from <= SLOTS
    ensures from <= i <= SLOTS && (i < SLOTS ==> Name(image, i) == name)
    ensures forall j :: from <= j < i ==> Name(image, j) != name
    decreases SLOTS - from
  {
    if from == SLOTS || Name(image, from) == name then from else Slot(image, name, from + 1)
  }

  function LookUp(image: seq<byte>, name: seq<byte>): Option<Dentry>
    requires |image| >= BLOCK
  {
    var i := Slot(image, Clipped(name), 0);
    if i == SLOTS then None else Some(Dentry(Clipped(name), FileType(image, i), Inode(image, i)))
  }

  method ReadDentryByName(image: seq<byte>, name: seq<byte>) returns (r: Option<Dentry>)
    requires |image| >= BLOCK && NUL !in name
    ensures r == LookUp(image, name)
  {
    for i := 0 to SLOTS
      invariant Slot(image, Clipped(name), 0) == Slot(image, Clipped(name), i)
    {
      var c := Strncmp(name, Field(image, i));
      if c == 0 {
        return Some(Dentry(Clipped(name), FileType(image, i), Inode(image, i)));
      }
    }
    return None;
  }

  method ReadDentryByIndex(image: seq<byte>, index: nat) returns (r: Option<Dentry>)
    requires |image| >= BLOCK && NumDentries(image) <= SLOTS
    ensures r == if index >= NumDentries(image) then None
                 else Some(Dentry(Name(image, index), FileType(image, index), Inode(image, index)))
  {
    if index >= NumDentries(image) {
      return None;
    }
    return Some(Dentry(Name(image, index), FileType(image, index), Inode(image, index)));
  }

  /** A listed name leads back to its own entry exactly when no earlier slot carries the same name. */
  lemma LookUpFindsTheEntryIffFirst(image: seq<byte>, k: nat)
    requires |image| >= BLOCK && k < SLOTS
    ensures Slot(image, Clipped(Name(image, k)), 0) == k <==> forall i :: 0 <= i < k ==> Name(image, i) != Name(image, k)
    ensures (forall i :: 0 <= i < k ==> Name(image, i) != Name(image, k)) ==>
      LookUp(image, Name(image, k)) == Some(Dentry(Name(image, k), FileType(image, k), Inode(image, k)))
  {
    var n := Slot(image, Clipped(Name(image, k)), 0);
    assert n <= k;
  }

  /** The first entry from `from` on that ends a listing: one with an empty name, or the end. */
  function ListingEnd(image: seq<byte>, from: nat): (e: nat)
    requires |image| >= BLOCK && from <= NumDentries(image) <= SLOTS
    ensures from <= e <= NumDentries(image)
    ensures forall i :: from <= i < e ==> Name(image, i) != []
    ensures e < NumDentries(image) ==> Name(image, e) == []
    decreases NumDentries(image) - from
  {
    if from == NumDentries(image) || Name(image, from) == [] then from else ListingEnd(image, from + 1)
  }

  /** The names of entries `from` to `end`. */
  function Names(image: seq<byte>, from: nat, end: nat): (r: seq<seq<byte>>)
    requires |image| >= BLOCK && from <= end <= SLOTS
    ensures |r| == end - from
  {
    if from == end then [] else Names(image, from, end - 1) + [Name(image, end - 1)]
  }

  lemma {:induction false} NamesAt(image: seq<byte>, from: nat, end: nat, i: nat)
    requires |image| >= BLOCK && from <= i < end <= SLOTS
    ensures Names(image, from, end)[i - from] == Name(image, i)
  {
    if i < end - 1 {
      NamesAt(image, from, end - 1, i);
    }
  }

  /**
   In a directory of distinct non-empty names a listing from the start gives every name
   once and in order, and opening each listed name finds that very entry again.
   */
  lemma ListedNamesLeadBack(image: seq<byte>, k: nat)
    requires |image| >= BLOCK && k < NumDentries(image) <= SLOTS
    requires forall i :: 0 <= i < NumDentries(image) ==> Name(image, i) != []
    requires forall i, j :: 0 <= i < j < NumDentries(image) ==> Name(image, i) != Name(image, j)
    ensures ListingEnd(image, 0) == NumDentries(image)
    ensures var name := Names(image, 0, ListingEnd(image, 0))[k];
      LookUp(image, name) == Some(Dentry(Name(image, k), FileType(image, k), Inode(image, k)))
  {
    hide Names, LookUp, Slot, Name, NumDentries, FileType, Inode;
    NamesAt(image, 0, NumDentries(image), k);
    LookUpFindsTheEntryIffFirst(image, k);
  }

  class Reader {
    var dirReadLoc: nat

    constructor ()
      ensures dirReadLoc == 0
    {
      dirReadLoc := 0;
    }

    /**
     dir_read. The copy takes one byte more than the name, which for a name of 32 bytes is
     the low byte of the file type; the bytes counted in the result are the name's.
     */
    method DirRead(image: seq<byte>, buf: array<byte>) returns (r: nat)
      requires |image| >= BLOCK && NumDentries(image) <= SLOTS && buf.Length > NAME
      modifies this, buf
      ensures old(dirReadLoc) < NumDentries(image) ==>
        && dirReadLoc == old(dirReadLoc) + 1
        && r <= NAME && buf[..r] == Name(image, old(dirReadLoc))
      ensures old(dirReadLoc) >= NumDentries(image) ==> r == 0 && dirReadLoc == 0
    {
      if dirReadLoc >= NumDentries(image) {
        dirReadLoc := 0;
        return 0;
      }
      var i := 0;
      while i < NAME + 1
        invariant i <= NAME + 1 && dirReadLoc == old(dirReadLoc)
      {
        buf[i] := NUL;
        i := i + 1;
      }
      var src := Field(image, dirReadLoc) + [FileType(image, dirReadLoc) % 0x100];
      var length := Find(src, NUL, 0);
      if length > NAME {
        length := NAME;
      }
      assert forall j :: 0 <= j < NAME ==> src[j] == Field(image, dirReadLoc)[j];
      FindUnique(Field(image, dirReadLoc), NUL, 0, length);
      i := 0;
      while i < length + 1 && src[i] != NUL
        invariant i <= length + 1 && buf[..i] == src[..i] && dirReadLoc == old(dirReadLoc)
        invariant forall j :: 0 <= j < i ==> src[j] != NUL
        decreases length + 1 - i
      {
        buf[i] := src[i];
        i := i + 1;
      }
      assert i >= length;
      ghost var copied := i;
      while i < length + 1
        invariant copied <= i <= length + 1 && buf[..copied] == src[..copied] && dirReadLoc == old(dirReadLoc)
      {
        buf[i] := NUL;
        i := i + 1;
      }
      assert buf[..length] == buf[..copied][..length] == src[..copied][..length];
      dirReadLoc := dirReadLoc + 1;
      return length;
    }

    /** The loop of ls. */
    method List(image: seq<byte>, buf: array<byte>) returns (names: seq<seq<byte>>)
      requires |image| >= BLOCK && NumDentries(image) <= SLOTS && buf.Length > NAME && dirReadLoc <= NumDentries(image)
      modifies this, buf
      ensures names == Names(image, old(dirReadLoc), ListingEnd(image, old(dirReadLoc)))
      ensures var end := ListingEnd(image, old(dirReadLoc));
        dirReadLoc == if end < NumDentries(image) then end + 1 else 0
    {
      hide Name, Field, Word;
      ghost var from, k := dirReadLoc, dirReadLoc;
      names := [];
      var cnt: nat := DirRead(image, buf);
      while cnt != 0
        invariant from <= k <= NumDentries(image) && names == Names(image, from, k)
        invariant ListingEnd(image, from) == ListingEnd(image, k)
        invariant k < NumDentries(image) ==> dirReadLoc == k + 1 && cnt <= NAME && buf[..cnt] == Name(image, k)
        invariant k == NumDentries(image) ==> cnt == 0 && dirReadLoc == 0
        decreases NumDentries(image) - k
      {
        names := names + [buf[..cnt]];
        k := k + 1;
        cnt := DirRead(image, buf);
      }
    }
  }
}

/**
 memset, memcpy and memmove (lib.c) on a flat memory whose addresses are array indices:
 the aligning, word-wise and remaining parts, and the direction of an overlapping move.
 */
module RawMemory {
  import opened Common

  /** Byte `i` of a register, counted from its low end. */
  function RegisterByte(eax: nat, i: nat): byte
    requires i < 4
  {
    if i == 0 then eax % 0x100
    else if i == 1 then eax / 0x100 % 0x100
    else if i == 2 then eax / 0x1_0000 % 0x100
    else eax / 0x100_0000 % 0x100
  }

  /** stosl: the register's four bytes, low end first. */
  method StoreWord(mem: array<byte>, edi: nat, eax: nat)
    requires edi + 4 <= mem.Length
    modifies mem
    ensures forall j :: 0 <= j < mem.Length ==>
      mem[j] == if edi <= j < edi + 4 then RegisterByte(eax, j - edi) else old(mem[j])
  {
    mem[edi] := RegisterByte(eax, 0);
    mem[edi + 1] := RegisterByte(eax, 1);
    mem[edi + 2] := RegisterByte(eax, 2);
    mem[edi + 3] := RegisterByte(eax, 3);
  }

  /** The value memset loads: one byte in all four places. */
  function Spread(c: byte): nat {
    0x100_0000 * c + 0x1_0000 * c + 0x100 * c + c
  }

  lemma SpreadBytes(c: byte)
    ensures forall i: nat :: i < 4 ==> RegisterByte(Spread(c), i) == c
  {
    var rest3: nat := c;
    var rest2: nat := 0x100 * rest3 + c;
    var rest1: nat := 0x100 * rest2 + c;
    assert Spread(c) == 0x100 * rest1 + c;
    assert Spread(c) / 0x100 == rest1 && Spread(c) / 0x1_0000 == rest2 && Spread(c) / 0x100_0000 == rest3;
  }

  /** The first `k` of the bytes from `at` on are set, and nothing else is touched. */
  ghost predicate FilledTo(was: seq<byte>, now: seq<byte>, at: nat, c: byte, k: nat) {
    |now| == |was| && forall j :: 0 <= j < |now| ==> now[j] == if at <= j < at + k then c else was[j]
  }

  method Memset(mem: array<byte>, s: nat, c: int, n: nat)
    requires s + n <= mem.Length
    modifies mem
    ensures forall j :: 0 <= j < mem.Length ==> mem[j] == if s <= j < s + n then c % 0x100 else old(mem[j])
  {
    var al: byte := c % 0x100;
    var eax := Spread(al);
    SpreadBytes(al);
    var edi: nat, ecx: nat := s, n;
    while ecx != 0 && edi % 4 != 0
      invariant edi + ecx == s + n && s <= edi
      invariant FilledTo(old(mem[..]), mem[..], s, al, edi - s)
    {
      mem[edi] := al;
      edi := edi + 1;
      ecx := ecx - 1;
    }
    if ecx == 0 {
      return;
    }
    var edx: nat := ecx % 4;
    ecx := ecx / 4;
    while ecx != 0
      invariant edi + 4 * ecx + edx == s + n && s <= edi
      invariant FilledTo(old(mem[..]), mem[..], s, al, edi - s)
    {
      StoreWord(mem, edi, eax);
      edi := edi + 4;
      ecx := ecx - 1;
    }
    while edx != 0
      invariant edi + edx == s + n && s <= edi
      invariant FilledTo(old(mem[..]), mem[..], s, al, edi - s)
    {
      mem[edi] := al;
      edi := edi + 1;
      edx := edx - 1;
    }
  }

  /** The first `k` bytes from `src` on, as they were, are at `dest`, and nothing else is touched. */
  ghost predicate CopiedTo(was: seq<byte>, now: seq<byte>, dest: nat, src: nat, k: nat) {
    && |now| == |was| && src + k <= |was| && dest + k <= |was|
    && (forall j :: dest <= j < dest + k ==> now[j] == was[src + (j - dest)])
    && (forall j :: 0 <= j < dest || dest + k <= j < |now| ==> now[j] == was[j])
  }

  /** movsl: four bytes are read before any is written. */
  method MoveWord(mem: array<byte>, edi: nat, esi: nat)
    requires edi + 4 <= mem.Length && esi + 4 <= mem.Length
    modifies mem
    ensures CopiedTo(old(mem[..]), mem[..], edi, esi, 4)
  {
    mem[edi], mem[edi + 1], mem[edi + 2], mem[edi + 3] := mem[esi], mem[esi + 1], mem[esi + 2], mem[esi + 3];
  }

  method MoveByte(mem: array<byte>, edi: nat, esi: nat)
    requires edi < mem.Length && esi < mem.Length
    modifies mem
    ensures CopiedTo(old(mem[..]), mem[..], edi, esi, 1)
  {
    mem[edi] := mem[esi];
  }

  lemma CopiedMeans(was: seq<byte>, now: seq<byte>, dest: nat, src: nat, n: nat)
    requires CopiedTo(was, now, dest, src, n)
    ensures src + n <= |was| && dest + n <= |was| && now == was[..dest] + was[src..src + n] + was[dest + n..]
  {
  }

  lemma NothingCopied(was: seq<byte>, dest: nat, src: nat)
    requires src <= |was| && dest <= |was|
    ensures CopiedTo(was, was, dest, src, 0)
  {
  }

  /** Copying on from where `k` bytes are copied, when that has not yet overwritten what comes next. */
  lemma CopiedFurther(was: seq<byte>, mid: seq<byte>, now: seq<byte>, dest: nat, src: nat, k: nat, w: nat)
    requires CopiedTo(was, mid, dest, src, k) && CopiedTo(mid, now, dest + k, src + k, w)
    requires dest <= src || src + k + w <= dest
    ensures CopiedTo(was, now, dest, src, k + w)
  {
    forall j | dest + k <= j < dest + k + w ensures now[j] == was[src + (j - dest)] {
      var q := src + (j - dest);
      assert now[j] == mid[q] && mid[q] == was[q];
    }
  }

  /** The same from the top down. */
  lemma CopiedFurtherDown(was: seq<byte>, mid: seq<byte>, now: seq<byte>, dest: nat, src: nat, k: nat, n: nat)
    requires src < dest && 0 < k <= n
    requires CopiedTo(was, mid, dest + k, src + k, n - k) && CopiedTo(mid, now, dest + k - 1, src + k - 1, 1)
    ensures CopiedTo(was, now, dest + k - 1, src + k - 1, n - k + 1)
  {
    var d, q := dest + k - 1, src + k - 1;
    assert now[d] == mid[q] && mid[q] == was[q];
    forall j | d < j < dest + n ensures now[j] == was[q + (j - d)] {
      assert now[j] == mid[j];
    }
  }

  /** One movb of memcpy, `k` bytes being copied already. */
  method NextByte(mem: array<byte>, ghost was: seq<byte>, dest: nat, src: nat, k: nat)
    requires dest + k < mem.Length && src + k < mem.Length && (dest <= src || src + k + 1 <= dest)
    requires CopiedTo(was, mem[..], dest, src, k)
    modifies mem
    ensures CopiedTo(was, mem[..], dest, src, k + 1)
  {
    ghost var mid := mem[..];
    MoveByte(mem, dest + k, src + k);
    CopiedFurther(was, mid, mem[..], dest, src, k, 1);
  }

  /** One movsl of memcpy. */
  method NextWord(mem: array<byte>, ghost was: seq<byte>, dest: nat, src: nat, k: nat)
    requires dest + k + 4 <= mem.Length && src + k + 4 <= mem.Length && (dest <= src || src + k + 4 <= dest)
    requires CopiedTo(was, mem[..], dest, src, k)
    modifies mem
    ensures CopiedTo(was, mem[..], dest, src, k + 4)
  {
    ghost var mid := mem[..];
    MoveWord(mem, dest + k, src + k);
    CopiedFurther(was, mid, mem[..], dest, src, k, 4);
  }

  /**
   memcpy, for ranges that are disjoint, and also for any move towards lower addresses.
   edi is dest + k and esi is src + k, with k bytes copied.
   */
  method Memcpy(mem: array<byte>, dest: nat, src: nat, n: nat)
    requires dest + n <= mem.Length && src + n <= mem.Length
    requires dest <= src || src + n <= dest
    modifies mem
    ensures mem[..] == old(mem[..dest]) + old(mem[src..src + n]) + old(mem[dest + n..])
  {
    hide CopiedTo;
    ghost var was := mem[..];
    NothingCopied(was, dest, src);
    assert was[..dest] == mem[..dest] && was[src..src + n] == mem[src..src + n] && was[dest + n..] == mem[dest + n..];
    var k: nat, ecx: nat := 0, n;
    while ecx != 0 && (dest + k) % 4 != 0
      invariant k + ecx == n && CopiedTo(was, mem[..], dest, src, k)
    {
      NextByte(mem, was, dest, src, k);
      k, ecx := k + 1, ecx - 1;
    }
    if ecx == 0 {
      CopiedMeans(was, mem[..], dest, src, n);
      return;
    }
    var edx: nat := ecx % 4;
    ecx := ecx / 4;
    while ecx != 0
      invariant k + 4 * ecx + edx == n && CopiedTo(was, mem[..], dest, src, k)
    {
      NextWord(mem, was, dest, src, k);
      k, ecx := k + 4, ecx - 1;
    }
    while edx != 0
      invariant k + edx == n && CopiedTo(was, mem[..], dest, src, k)
    {
      NextByte(mem, was, dest, src, k);
      k, edx := k + 1, edx - 1;
    }
    CopiedMeans(was, mem[..], dest, src, n);
  }

  /** rep movsb with the direction flag clear. */
  method MoveUp(mem: array<byte>, dest: nat, src: nat, n: nat)
    requires dest <= src && src + n <= mem.Length
    modifies mem
    ensures CopiedTo(old(mem[..]), mem[..], dest, src, n)
  {
    hide CopiedTo;
    ghost var was := mem[..];
    NothingCopied(was, dest, src);
    var esi: int, edi: int, ecx: nat := src, dest, n;
    while ecx != 0
      invariant edi + ecx == dest + n && esi + ecx == src + n && ecx <= n
      invariant CopiedTo(was, mem[..], dest, src, n - ecx)
    {
      ghost var mid, k := mem[..], n - ecx;
      MoveByte(mem, edi, esi);
      assert edi == dest + k && esi == src + k && k + 1 == n - (ecx - 1);
      CopiedFurther(was, mid, mem[..], dest, src, k, 1);
      edi, esi, ecx := edi + 1, esi + 1, ecx - 1;
    }
  }

  /** rep movsb from the last byte on, with the direction flag set. */
  method MoveDown(mem: array<byte>, dest: nat, src: nat, n: nat)
    requires src < dest && dest + n <= mem.Length
    modifies mem
    ensures CopiedTo(old(mem[..]), mem[..], dest, src, n)
  {
    hide CopiedTo;
    ghost var was := mem[..];
    NothingCopied(was, dest + n, src + n);
    var esi: int, edi: int, ecx: nat := src + n - 1, dest + n - 1, n;
    while ecx != 0
      invariant edi == dest + ecx - 1 && esi == src + ecx - 1 && ecx <= n
      invariant CopiedTo(was, mem[..], dest + ecx, src + ecx, n - ecx)
    {
      ghost var mid := mem[..];
      MoveByte(mem, edi, esi);
      CopiedFurtherDown(was, mid, mem[..], dest, src, ecx, n);
      edi, esi, ecx := edi - 1, esi - 1, ecx - 1;
    }
  }

  /** memmove, for every overlap: forwards when the source is not below the destination, else backwards. */
  method Memmove(mem: array<byte>, dest: nat, src: nat, n: nat)
    requires dest + n <= mem.Length && src + n <= mem.Length
    modifies mem
    ensures mem[..] == old(mem[..dest]) + old(mem[src..src + n]) + old(mem[dest + n..])
  {
    hide CopiedTo;
    ghost var was := mem[..];
    assert was[..dest] == mem[..dest] && was[src..src + n] == mem[src..src + n] && was[dest + n..] == mem[dest + n..];
    if src >= dest {
      MoveUp(mem, dest, src, n);
    } else {
      MoveDown(mem, dest, src, n);
    }
    CopiedMeans(was, mem[..], dest, src, n);
  }
}

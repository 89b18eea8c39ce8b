/**
 The blinking characters of the fish program: a linked list whose nodes live in a fixed
 arena (fish.c) and whose operations are written in assembly (blink.S).
 */
module BlinkList {
  import opened Common
  import opened Residues

  const SLOTS: nat := 80 * 25
  const NULL: int := -1
  const HALF: nat := 0x1_0000

  type half = h: int | 0 <= h < 0x1_0000

  /** One struct mp1_blink_struct; `next` is the slot of the following node, or NULL. */
  datatype Blink = Blink(location: half, onChar: byte, offChar: byte, onLength: half, offLength: half,
                         countdown: half, status: half, next: int)

  const CLEARED: Blink := Blink(0, 0, 0, 0, 0, 0, 0, NULL)

  // ------------------------------------------------------------------------ timing

  /** The tasklet's test: a 16-bit countdown is positive as a signed number. */
  predicate Positive(countdown: half) {
    0 < countdown < 0x8000
  }

  /** What one tick does to a node. */
  function Ticked(b: Blink): Blink {
    var c := (b.countdown - 1) % HALF;
    if Positive(c) then b.(countdown := c)
    else if b.status % 2 == 1 then b.(countdown := b.offLength, status := b.status - 1)
    else b.(countdown := b.onLength, status := b.status + 1)
  }

  function TickedBy(b: Blink, k: nat): Blink {
    if k == 0 then b else Ticked(TickedBy(b, k - 1))
  }

  /** The node as add makes it: on, with its countdown at the start of the on phase. */
  predicate JustAdded(b: Blink) {
    b.status == 1 && b.countdown == b.onLength
  }

  /** The ticks a phase really lasts: lengths beyond the signed range, and 0, last one tick. */
  function Phase(length: half): nat {
    if 1 <= length <= 0x8000 then length else 1
  }

  function Period(b: Blink): (p: nat)
    ensures p > 0
  {
    Phase(b.onLength) + Phase(b.offLength)
  }

  /** The node at position `r` of its period. */
  function At(b: Blink, r: nat): Blink
    requires r < Period(b)
  {
    if r < Phase(b.onLength) then b.(status := 1, countdown := b.onLength - r)
    else b.(status := 0, countdown := b.offLength - (r - Phase(b.onLength)))
  }

  /** A state that adding, synchronising and ticking can leave a node in. */
  predicate InCourse(b: Blink) {
    || (b.status == 1 && b.onLength - Phase(b.onLength) < b.countdown <= b.onLength)
    || (b.status == 0 && b.offLength - Phase(b.offLength) < b.countdown <= b.offLength)
  }

  /** How far a node is into its period. */
  function Position(b: Blink): (r: nat)
    requires InCourse(b)
    ensures r < Period(b) && b == At(b, r)
  {
    if b.status == 1 then b.onLength - b.countdown else Phase(b.onLength) + b.offLength - b.countdown
  }

  lemma NextPosition(b: Blink, r: nat)
    requires r < Period(b)
    ensures Ticked(At(b, r)) == At(b, if r == Period(b) - 1 then 0 else r + 1) && InCourse(At(b, r))
  {
  }

  /** A new node is at the start of its period. */
  lemma AddedAtZero(b: Blink)
    requires JustAdded(b)
    ensures InCourse(b) && Position(b) == 0
  {
  }

  /**
   The closed form, for all lengths and from any point of the period: after k ticks a node
   is k positions further, on exactly in the first Phase(onLength) positions of a period,
   and the countdown tells how far into its phase it is.
   */
  lemma {:induction false} BlinkClosedForm(b: Blink, k: nat)
    requires InCourse(b)
    ensures var r := (Position(b) + k) % Period(b);
      TickedBy(b, k) == At(b, r) && (TickedBy(b, k).status == 1 <==> r < Phase(b.onLength))
  {
    hide Position, InCourse, Ticked;
    var p := Position(b);
    if k > 0 {
      BlinkClosedForm(b, k - 1);
      NextPosition(b, (p + k - 1) % Period(b));
      NextResidue(p + k, Period(b));
    } else {
      ModIs(p, 0, p, Period(b));
    }
  }

  /**
   For lengths in the signed range, said without phases: k ticks after it was added a node
   is on exactly when k, counted around on and off length together, is below the on length,
   and its countdown is what is left of the length it is in.
   */
  lemma BlinkTiming(b: Blink, k: nat)
    requires b.status == 1 && b.countdown == b.onLength
    requires 1 <= b.onLength < 0x8000 && 1 <= b.offLength < 0x8000
    ensures var r, t := k % (b.onLength + b.offLength), TickedBy(b, k);
      if r < b.onLength then t == b.(status := 1, countdown := b.onLength - r)
      else t == b.(status := 0, countdown := b.onLength + b.offLength - r)
  {
    AddedAtZero(b);
    BlinkClosedForm(b, k);
  }

  lemma NextResidue(k: nat, m: nat)
    requires k > 0 && m > 0
    ensures k % m == if (k - 1) % m == m - 1 then 0 else (k - 1) % m + 1
  {
    var q, r := (k - 1) / m, (k - 1) % m;
    assert k == q * m + r + 1;
    if r == m - 1 {
      assert (q + 1) * m == q * m + m;
      ModIs(k, q + 1, 0, m);
    } else {
      ModIs(k, q, r + 1, m);
    }
  }

  ghost predicate SameTiming(a: Blink, b: Blink) {
    a.onLength == b.onLength && a.offLength == b.offLength && a.countdown == b.countdown && a.status == b.status
  }

  /** What sync copies from one node to another. */
  function Synced(to: Blink, from: Blink): (r: Blink)
    ensures SameTiming(r, from)
    ensures r.location == to.location && r.onChar == to.onChar && r.offChar == to.offChar && r.next == to.next
  {
    to.(onLength := from.onLength, offLength := from.offLength, countdown := from.countdown, status := from.status)
  }

  /** Nodes with the same timing stay in step for ever. */
  lemma {:induction false} InStepForever(a: Blink, b: Blink, k: nat)
    requires SameTiming(a, b)
    ensures SameTiming(TickedBy(a, k), TickedBy(b, k))
  {
    if k > 0 {
      InStepForever(a, b, k - 1);
    }
  }

  // ---------------------------------------------------------------------- the list

  /** The arena's content and the list's head represent the list `nodes` of slots, newest first. */
  ghost predicate IsList(a: seq<Blink>, head: int, nodes: seq<nat>) {
    && |a| == SLOTS && NodeSlots(a, nodes)
    && head == Following(nodes, -1)
    && (forall i :: 0 <= i < |nodes| ==> NodeAt(a, nodes, i))
    && (forall i, j :: 0 <= i < j < |nodes| ==> nodes[i] != nodes[j])
    && (forall s :: 0 <= s < SLOTS && s !in nodes ==> a[s] == CLEARED)
  }

  ghost predicate NodeSlots(a: seq<Blink>, nodes: seq<nat>) {
    forall i :: 0 <= i < |nodes| ==> nodes[i] < |a|
  }

  /** Position `i` of the list is a slot that links to position `i + 1`. */
  ghost predicate NodeAt(a: seq<Blink>, nodes: seq<nat>, i: nat)
    requires i < |nodes|
  {
    nodes[i] < |a| && a[nodes[i]].location < SLOTS && a[nodes[i]].next == Following(nodes, i)
  }

  /** The slot after position `i` of the list. */
  function Following(nodes: seq<nat>, i: int): int
    requires -1 <= i < |nodes|
  {
    if i + 1 < |nodes| then nodes[i + 1] else NULL
  }

  ghost predicate NoneAtZero(a: seq<Blink>, nodes: seq<nat>)
    requires NodeSlots(a, nodes)
  {
    forall i :: 0 <= i < |nodes| ==> a[nodes[i]].location != 0
  }

  /** The nodes are exactly the slots whose location is not zero if and only if no node is at location 0. */
  lemma NodesAreTheUsedSlotsIff(a: seq<Blink>, head: int, nodes: seq<nat>)
    requires IsList(a, head, nodes)
    ensures (forall s :: 0 <= s < SLOTS ==> (s in nodes <==> a[s].location != 0)) <==> NoneAtZero(a, nodes)
  {
    forall i | 0 <= i < |nodes| ensures nodes[i] in nodes {
    }
  }

  /** The first free slot, as mp1_malloc looks for it, or |a|. */
  function FreeSlot(a: seq<Blink>, from: nat): (s: nat)
    requires from <= |a|
    ensures from <= s <= |a| && (s < |a| ==> a[s].location == 0) && forall i :: from <= i < s ==> a[i].location != 0
    decreases |a| - from
  {
    if from == |a| || a[from].location == 0 then from else FreeSlot(a, from + 1)
  }

  /** The node add stores: the caller's, switched on, in front of the list. */
  function NewNode(user: Blink, head: int): (r: Blink)
    ensures JustAdded(r) && r.next == head && r.location == user.location && r.onChar == user.onChar
    ensures r.offChar == user.offChar && r.onLength == user.onLength && r.offLength == user.offLength
  {
    user.(status := 1, countdown := user.onLength, next := head)
  }

  /** mp1_ioctl_add on the arena and the head; the last component is its result. */
  function Add(a: seq<Blink>, head: int, user: Blink): (seq<Blink>, int, int) {
    if user.location >= SLOTS then (a, head, -1)
    else
      var s := FreeSlot(a, 0);
      if s == |a| then (a, head, -1) else (a[s := NewNode(user, head)], s, 0)
  }

  lemma AddPrepends(a: seq<Blink>, head: int, nodes: seq<nat>, user: Blink)
    requires IsList(a, head, nodes) && Add(a, head, user).2 == 0 && FreeSlot(a, 0) !in nodes
    ensures IsList(Add(a, head, user).0, Add(a, head, user).1, [FreeSlot(a, 0)] + nodes)
    ensures a[FreeSlot(a, 0)] == CLEARED
  {
    hide FreeSlot;
    var s, a' := FreeSlot(a, 0), Add(a, head, user).0;
    var nodes' := [s] + nodes;
    forall i | 0 <= i < |nodes'| ensures NodeAt(a', nodes', i) {
      if i > 0 {
        assert NodeAt(a, nodes, i - 1);
        assert nodes'[i] == nodes[i - 1] != s;
      }
    }
  }

  /** A list that starts at slot `s`, which now links to the old head, repeats the old list up to `s`. */
  lemma {:induction false} WalksTheOldList(a: seq<Blink>, head: int, nodes: seq<nat>, user: Blink, nodes': seq<nat>, j: nat)
    requires IsList(a, head, nodes) && Add(a, head, user).2 == 0 && j < |nodes|
    requires IsList(Add(a, head, user).0, Add(a, head, user).1, nodes')
    requires FreeSlot(a, 0) !in nodes[..j]
    ensures j + 1 < |nodes'| && nodes'[0] == FreeSlot(a, 0) && nodes'[j + 1] == nodes[j]
  {
    hide FreeSlot;
    var s, a' := FreeSlot(a, 0), Add(a, head, user).0;
    if j == 0 {
      assert NodeAt(a', nodes', 0);
    } else {
      assert nodes[..j - 1] == nodes[..j][..j - 1] && nodes[j - 1] == nodes[..j][j - 1];
      WalksTheOldList(a, head, nodes, user, nodes', j - 1);
      assert NodeAt(a, nodes, j - 1) && NodeAt(a', nodes', j);
    }
  }

  /**
   A successful add keeps the list, or any list at all, if and only if the first slot at
   location 0 is not one of the list's nodes; otherwise that node comes to be its own
   successor, or the successor of the nodes in front of it.
   */
  lemma AddKeepsListIff(a: seq<Blink>, head: int, nodes: seq<nat>, user: Blink)
    requires IsList(a, head, nodes)
    ensures var (a', head', _) := Add(a, head, user);
      (exists nodes' :: IsList(a', head', nodes'))
      <==> user.location >= SLOTS || FreeSlot(a, 0) !in nodes
  {
    hide FreeSlot, IsList;
    ArenaSize(a, head, nodes);
    var (a', head', r) := Add(a, head, user);
    var s := FreeSlot(a, 0);
    if r == -1 {
      assert IsList(a', head', nodes);
    } else if s !in nodes {
      AddPrepends(a, head, nodes, user);
    } else {
      var i := FirstIndex(nodes, s);
      forall nodes' ensures !IsList(a', head', nodes') {
        if IsList(a', head', nodes') {
          WalksTheOldList(a, head, nodes, user, nodes', i);
          NoRepeats(a', head', nodes', 0, i + 1);
        }
      }
    }
  }

  lemma {:induction false} FirstIndex(nodes: seq<nat>, s: nat) returns (i: nat)
    requires s in nodes
    ensures i < |nodes| && nodes[i] == s && s !in nodes[..i]
  {
    i := 0;
    while nodes[i] != s
      invariant i < |nodes| && s !in nodes[..i]
      invariant exists j :: i <= j < |nodes| && nodes[j] == s
      decreases |nodes| - i
    {
      assert nodes[..i + 1] == nodes[..i] + [nodes[i]];
      i := i + 1;
    }
  }

  lemma NoRepeats(a: seq<Blink>, head: int, nodes: seq<nat>, i: nat, j: nat)
    requires IsList(a, head, nodes) && i < j < |nodes|
    ensures nodes[i] != nodes[j]
  {
  }

  /** Adding keeps a list without nodes at location 0 such a list exactly when it does not add one there. */
  lemma AddKeepsNoneAtZeroIff(a: seq<Blink>, head: int, nodes: seq<nat>, user: Blink)
    requires IsList(a, head, nodes) && NoneAtZero(a, nodes)
    ensures var (a', head', _) := Add(a, head, user);
      (exists nodes' :: IsList(a', head', nodes') && NoneAtZero(a', nodes'))
      <==> user.location != 0 || forall s :: 0 <= s < SLOTS ==> a[s].location != 0
  {
    hide FreeSlot;
    var (a', head', r) := Add(a, head, user);
    var s := FreeSlot(a, 0);
    NodesAreTheUsedSlotsIff(a, head, nodes);
    if r == -1 {
      assert IsList(a', head', nodes) && NoneAtZero(a', nodes);
    } else if user.location != 0 {
      AddPrepends(a, head, nodes, user);
      var nodes' := [s] + nodes;
      assert IsList(a', head', nodes') && NoneAtZero(a', nodes');
    } else {
      forall nodes' | IsList(a', head', nodes') ensures !NoneAtZero(a', nodes') {
        assert NodeAt(a', nodes', 0);
      }
    }
  }

  /** After an add at location 0 the next one overwrites that node, which then follows itself. */
  lemma AddAfterZeroMakesACycle(a: seq<Blink>, head: int, u: Blink, v: Blink)
    requires |a| == SLOTS && u.location == 0 && v.location < SLOTS && FreeSlot(a, 0) < SLOTS
    ensures var (a1, h1, r1) := Add(a, head, u);
      var (a2, h2, r2) := Add(a1, h1, v);
      r1 == 0 == r2 && 0 <= h2 < SLOTS && a2[h2].next == h2
  {
    hide FreeSlot;
    var (a1, h1, r1) := Add(a, head, u);
    var s, s1 := FreeSlot(a, 0), FreeSlot(a1, 0);
    assert a1[s].location == 0;
    assert s1 == s;
  }

  // ------------------------------------------------------------------- the operations

  /** The nodes' fields in list order, without their links. */
  ghost function Contents(a: seq<Blink>, nodes: seq<nat>): (r: seq<Blink>)
    requires NodeSlots(a, nodes)
    ensures |r| == |nodes|
  {
    seq(|nodes|, i requires 0 <= i < |nodes| => a[nodes[i]].(next := NULL))
  }

  /** Position of the newest node at a location, or |nodes|. */
  ghost function Newest(a: seq<Blink>, nodes: seq<nat>, location: int, from: nat): (k: nat)
    requires from <= |nodes| && NodeSlots(a, nodes)
    ensures from <= k <= |nodes| && (k < |nodes| ==> a[nodes[k]].location == location)
    ensures forall i :: from <= i < k ==> a[nodes[i]].location != location
    decreases |nodes| - from
  {
    if from == |nodes| || a[nodes[from]].location == location then from
    else Newest(a, nodes, location, from + 1)
  }

  function Without(nodes: seq<nat>, k: nat): seq<nat>
    requires k < |nodes|
  {
    nodes[..k] + nodes[k + 1..]
  }

  /** The arena after position `k` is unlinked and its slot cleared. */
  ghost function Unlinked(a: seq<Blink>, nodes: seq<nat>, k: nat): seq<Blink>
    requires k < |nodes| && NodeSlots(a, nodes)
  {
    (if k == 0 then a else a[nodes[k - 1] := a[nodes[k - 1]].(next := a[nodes[k]].next)])[nodes[k] := CLEARED]
  }

  lemma UnlinkKeepsList(a: seq<Blink>, head: int, nodes: seq<nat>, k: nat)
    requires IsList(a, head, nodes) && k < |nodes|
    ensures IsList(Unlinked(a, nodes, k), if k == 0 then a[nodes[0]].next else head, Without(nodes, k))
    ensures NodeSlots(Unlinked(a, nodes, k), Without(nodes, k))
  {
    var nodes', a' := Without(nodes, k), Unlinked(a, nodes, k);
    forall i | 0 <= i < |nodes'| ensures nodes'[i] < |a'| {
      WithoutAt(nodes, k, i);
    }
    assert NodeAt(a, nodes, 0);
    forall i | 0 <= i < |nodes'| ensures NodeAt(a', nodes', i) {
      UnlinkedAt(a, head, nodes, k, i);
    }
    forall s | 0 <= s < SLOTS && s !in nodes' ensures a'[s] == CLEARED {
      StillIn(nodes, k, s);
    }
    forall i, j | 0 <= i < j < |nodes'| ensures nodes'[i] != nodes'[j] {
    }
  }

  lemma UnlinkedContents(a: seq<Blink>, head: int, nodes: seq<nat>, k: nat)
    requires IsList(a, head, nodes) && k < |nodes| && NodeSlots(Unlinked(a, nodes, k), Without(nodes, k))
    ensures Contents(Unlinked(a, nodes, k), Without(nodes, k)) == Contents(a, nodes)[..k] + Contents(a, nodes)[k + 1..]
  {
    var nodes', a' := Without(nodes, k), Unlinked(a, nodes, k);
    forall i | 0 <= i < |nodes'| ensures Contents(a', nodes')[i] == a[nodes'[i]].(next := NULL) {
      UnlinkedAt(a, head, nodes, k, i);
    }
    assert Contents(a', nodes') == Contents(a, nodes)[..k] + Contents(a, nodes)[k + 1..];
  }

  lemma StillIn(nodes: seq<nat>, k: nat, s: nat)
    requires k < |nodes|
    ensures s in nodes && s != nodes[k] ==> s in Without(nodes, k)
  {
    if s in nodes && s != nodes[k] {
      var i :| 0 <= i < |nodes| && nodes[i] == s;
      assert Without(nodes, k)[if i < k then i else i - 1] == s;
    }
  }

  lemma WithoutAt(nodes: seq<nat>, k: nat, i: nat)
    requires k < |nodes| && i < |nodes| - 1
    ensures Without(nodes, k)[i] == nodes[if i < k then i else i + 1]
    ensures Following(Without(nodes, k), i) ==
      if i == k - 1 then Following(nodes, k) else Following(nodes, if i < k then i else i + 1)
  {
  }

  /** The surviving nodes, one by one. */
  lemma UnlinkedAt(a: seq<Blink>, head: int, nodes: seq<nat>, k: nat, i: nat)
    requires IsList(a, head, nodes) && k < |nodes| && i < |nodes| - 1
    ensures var n, a' := Without(nodes, k)[i], Unlinked(a, nodes, k);
      && n == nodes[if i < k then i else i + 1] < SLOTS && a[n].location < SLOTS
      && a'[n] == a[n].(next := Following(Without(nodes, k), i))
  {
    hide Without, Following;
    WithoutAt(nodes, k, i);
    var j := if i < k then i else i + 1;
    assert NodeAt(a, nodes, j) && NodeAt(a, nodes, k) && (k > 0 ==> NodeAt(a, nodes, k - 1));
    assert nodes[j] != nodes[k];
    if k > 0 && j != k - 1 {
      assert nodes[j] != nodes[k - 1];
    }
  }

  function Preceding(nodes: seq<nat>, i: nat): int
    requires i <= |nodes|
  {
    if i == 0 then NULL else nodes[i - 1]
  }

  /** The arena when the tasklet has passed the first `k` nodes. */
  ghost function TickedTo(a: seq<Blink>, nodes: seq<nat>, k: nat): (r: seq<Blink>)
    requires k <= |nodes| && NodeSlots(a, nodes)
    ensures |r| == |a|
  {
    seq(|a|, s requires 0 <= s < |a| => if s in nodes[..k] then Ticked(a[s]) else a[s])
  }

  datatype ListState = ListState(slots: seq<Blink>, head: int, nodes: seq<nat>)

  datatype Operation = DoAdd(user: Blink) | DoRemove(location: int) | DoSync(from: int, to: int) | DoTick

  /** The operations as they change arena, head and list. */
  ghost function Step(st: ListState, op: Operation): ListState
    requires NodeSlots(st.slots, st.nodes)
  {
    match op
    case DoAdd(user) =>
      var (a, head, r) := Add(st.slots, st.head, user);
      ListState(a, head, if r == 0 then [head] + st.nodes else st.nodes)
    case DoRemove(location) =>
      var k := Newest(st.slots, st.nodes, location, 0);
      if k == |st.nodes| then st
      else ListState(Unlinked(st.slots, st.nodes, k),
                     if k == 0 then st.slots[st.nodes[0]].next else st.head, Without(st.nodes, k))
    case DoSync(from, to) =>
      var first, second := Newest(st.slots, st.nodes, from, 0), Newest(st.slots, st.nodes, to, 0);
      if first == |st.nodes| || second == |st.nodes| then st
      else st.(slots := st.slots[st.nodes[second] := Synced(st.slots[st.nodes[second]], st.slots[st.nodes[first]])])
    case DoTick => st.(slots := TickedTo(st.slots, st.nodes, |st.nodes|))
  }

  class BlinkArena {
    const arena: array<Blink>
    var head: int
    ghost var nodes: seq<nat>

    ghost predicate Valid()
      reads this, arena
    {
      IsList(arena[..], head, nodes)
    }

    ghost function State(): ListState
      reads this, arena
    {
      ListState(arena[..], head, nodes)
    }

    ghost function Entries(): seq<Blink>
      reads this, arena
      requires Valid()
    {
      Contents(arena[..], nodes)
    }

    /** The cleared blink_array. */
    constructor ()
      ensures Valid() && nodes == [] && fresh(arena)
    {
      arena := new Blink[SLOTS](_ => CLEARED);
      head, nodes := NULL, [];
    }

    method Malloc() returns (s: int)
      requires Valid()
      ensures s == if FreeSlot(arena[..], 0) == SLOTS then NULL else FreeSlot(arena[..], 0)
    {
      for i := 0 to SLOTS
        invariant FreeSlot(arena[..], 0) == FreeSlot(arena[..], i)
      {
        if arena[i].location == 0 {
          return i;
        }
      }
      return NULL;
    }

    /** mp1_ioctl_add of a user's struct. */
    method AddBlink(user: Blink) returns (r: int)
      requires Valid()
      modifies this, arena
      ensures (arena[..], head, r) == Add(old(arena[..]), old(head), user)
      ensures State() == Step(old(State()), DoAdd(user))
      ensures r == if user.location < SLOTS && exists s :: 0 <= s < SLOTS && old(arena[s]).location == 0 then 0 else -1
      ensures r != 0 || FreeSlot(old(arena[..]), 0) !in old(nodes) ==>
        Valid() && Entries() == (if r == 0 then [NewNode(user, NULL)] else []) + old(Entries())
    {
      hide IsList, FreeSlot;
      ArenaSize(arena[..], head, nodes);
      if user.location >= SLOTS {
        return -1;
      }
      var temp := user.(status := 1);
      temp := temp.(countdown := temp.onLength);
      var slot := Malloc();
      if slot == NULL {
        return -1;
      }
      arena[slot] := temp;
      arena[slot] := arena[slot].(next := head);
      assert arena[..] == old(arena[..])[slot := NewNode(user, head)];
      head := slot;
      nodes := [slot] + nodes;
      if slot !in old(nodes) {
        AddPrepends(old(arena[..]), old(head), old(nodes), user);
        EntriesAfterAdd(old(arena[..]), old(head), old(nodes), user);
      }
      return 0;
    }

    /** mp1_find_helper: walks the list for a location, `k` being the position reached. */
    method FindHelper(location: int) returns (p: int, ghost k: nat)
      requires Valid()
      ensures k == Newest(arena[..], nodes, location, 0)
      ensures var i := Newest(arena[..], nodes, location, 0);
        p == if i < |nodes| then nodes[i] else NULL
    {
      p, k := head, 0;
      while p != NULL
        invariant k <= |nodes| && p == Following(nodes, k - 1)
        invariant Newest(arena[..], nodes, location, 0) == Newest(arena[..], nodes, location, k)
        decreases |nodes| - k
      {
        assert NodeAt(arena[..], nodes, k);
        if arena[p].location == location {
          return;
        }
        p := arena[p].next;
        k := k + 1;
      }
    }

    /** mp1_ioctl_remove: the newest node at the argument's low 16 bits is unlinked and cleared. */
    method RemoveBlink(arg: nat) returns (r: int)
      requires Valid()
      modifies this, arena
      ensures Valid()
      ensures State() == Step(old(State()), DoRemove(arg % HALF))
      ensures var k := Newest(old(arena[..]), old(nodes), arg % HALF, 0);
        if k == |old(nodes)| then r == -1
        else r == 0 && nodes == Without(old(nodes), k)
             && Entries() == old(Entries())[..k] + old(Entries())[k + 1..]
    {
      hide IsList, NodeSlots, Newest, Without, NodeAt, Contents;
      ArenaSize(arena[..], head, nodes);
      var found, k := FindHelper(arg % HALF);
      if found == NULL {
        return -1;
      }
      UnlinkKeepsList(arena[..], head, nodes, k);
      UnlinkedContents(arena[..], head, nodes, k);
      HeadIsFirst(arena[..], head, nodes);
      var prev := FindPrevious(found, k);
      if prev == NULL {
        head := arena[found].next;
      } else {
        arena[prev] := arena[prev].(next := arena[found].next);
      }
      arena[found] := CLEARED;
      nodes := Without(nodes, k);
      return 0;
    }

    /** The slot whose link leads to `found`, or NULL when that is the list's head. */
    method FindPrevious(found: nat, ghost k: nat) returns (prev: int)
      requires Valid() && k < |nodes| && nodes[k] == found
      ensures prev == Preceding(nodes, k) && (prev == NULL || 0 <= prev < arena.Length)
    {
      prev := NULL;
      ghost var i := 0;
      while (if prev == NULL then head else arena[prev].next) != found
        invariant i <= k && prev == Preceding(nodes, i)
        invariant prev != NULL ==> NodeAt(arena[..], nodes, i - 1)
        decreases k - i
      {
        prev := if prev == NULL then head else arena[prev].next;
        i := i + 1;
        assert NodeAt(arena[..], nodes, i - 1);
      }
      assert i == k;
    }

    /** mp1_ioctl_find: a copy of the newest node at the location asked for. */
    method FindBlink(location: half) returns (b: Option<Blink>)
      requires Valid()
      ensures var k := Newest(arena[..], nodes, location, 0);
        b == if k == |nodes| then None else Some(arena[nodes[k]])
    {
      var p, k := FindHelper(location);
      return if p == NULL then None else Some(arena[p]);
    }

    /** mp1_ioctl_sync: the timing of the node at the upper 16 bits goes to the node at the lower 16 bits. */
    method SyncBlinks(arg: nat) returns (r: int)
      requires Valid() && arg < HALF * HALF
      modifies arena
      ensures Valid()
      ensures State() == Step(old(State()), DoSync(arg / HALF, arg % HALF))
      ensures var a, first, second := old(arena[..]), Newest(old(arena[..]), nodes, arg / HALF, 0),
                                      Newest(old(arena[..]), nodes, arg % HALF, 0);
        if first == |nodes| || second == |nodes| then r == -1 && arena[..] == a
        else r == 0 && arena[..] == a[nodes[second] := Synced(a[nodes[second]], a[nodes[first]])]
    {
      hide IsList, Newest, NodeSlots;
      ArenaSize(arena[..], head, nodes);
      ghost var a := arena[..];
      var from, first := FindHelper(arg / HALF);
      if from == NULL {
        return -1;
      }
      var to, second := FindHelper(arg % HALF);
      if to == NULL {
        return -1;
      }
      SyncKeepsList(arena[..], head, nodes, first, second);
      arena[to] := arena[to].(onLength := arena[from].onLength);
      arena[to] := arena[to].(offLength := arena[from].offLength);
      arena[to] := arena[to].(countdown := arena[from].countdown);
      arena[to] := arena[to].(status := arena[from].status);
      assert arena[..] == a[to := Synced(a[to], a[from])];
      return 0;
    }

    /** mp1_rtc_tasklet: every node of the list takes one tick, and nothing else changes. */
    method RtcTasklet()
      requires Valid()
      modifies arena
      ensures Valid() && State() == Step(old(State()), DoTick)
      ensures forall s :: 0 <= s < SLOTS ==> arena[s] == if s in nodes then Ticked(old(arena[s])) else old(arena[s])
    {
      hide IsList, NodeSlots, TickedTo, Ticked;
      ghost var a := arena[..];
      HeadIsFirst(a, head, nodes);
      ArenaSize(a, head, nodes);
      NoneTicked(a, nodes);
      var p := head;
      ghost var k := 0;
      while p != NULL
        invariant k <= |nodes| && p == Following(nodes, k - 1)
        invariant arena[..] == TickedTo(a, nodes, k)
        decreases |nodes| - k
      {
        TickOne(a, head, nodes, k);
        arena[p] := Ticked(arena[p]);
        p := arena[p].next;
        k := k + 1;
      }
      AllTicked(a, head, nodes);
    }

    /** The list and the arena after an entry is added and its location removed again: unchanged. */
    method AddThenRemove(user: Blink)
      requires Valid() && Add(arena[..], head, user).2 == 0 && FreeSlot(arena[..], 0) !in nodes
      modifies this, arena
      ensures Valid() && State() == old(State()) && arena[..] == old(arena[..])
    {
      hide IsList, FreeSlot, Newest, NodeSlots, Step;
      AddRemoveRestores(State(), user);
      var added := AddBlink(user);
      var removed := RemoveBlink(user.location);
    }
  }

  lemma HeadIsFirst(a: seq<Blink>, head: int, nodes: seq<nat>)
    requires IsList(a, head, nodes)
    ensures head == Following(nodes, -1)
  {
  }

  /** The node just added is the newest at its location, and unlinking it undoes the addition. */
  lemma AddRemoveRestores(st: ListState, user: Blink)
    requires IsList(st.slots, st.head, st.nodes)
    requires Add(st.slots, st.head, user).2 == 0 && FreeSlot(st.slots, 0) !in st.nodes
    ensures NodeSlots(Step(st, DoAdd(user)).slots, Step(st, DoAdd(user)).nodes)
    ensures Step(Step(st, DoAdd(user)), DoRemove(user.location)) == st
  {
    hide FreeSlot;
    var st', s := Step(st, DoAdd(user)), FreeSlot(st.slots, 0);
    AddPrepends(st.slots, st.head, st.nodes, user);
    assert st'.nodes == [s] + st.nodes && Newest(st'.slots, st'.nodes, user.location, 0) == 0;
    assert Unlinked(st'.slots, st'.nodes, 0) == st.slots && Without(st'.nodes, 0) == st.nodes;
  }

  lemma TickOne(a: seq<Blink>, head: int, nodes: seq<nat>, k: nat)
    requires IsList(a, head, nodes) && k < |nodes|
    ensures nodes[k] < |a| && TickedTo(a, nodes, k)[nodes[k]] == a[nodes[k]]
    ensures Ticked(a[nodes[k]]).next == Following(nodes, k)
    ensures TickedTo(a, nodes, k + 1) == TickedTo(a, nodes, k)[nodes[k] := Ticked(a[nodes[k]])]
  {
    assert NodeAt(a, nodes, k);
    assert nodes[..k + 1] == nodes[..k] + [nodes[k]];
  }

  lemma NoneTicked(a: seq<Blink>, nodes: seq<nat>)
    requires NodeSlots(a, nodes)
    ensures TickedTo(a, nodes, 0) == a
  {
  }

  lemma AllTicked(a: seq<Blink>, head: int, nodes: seq<nat>)
    requires IsList(a, head, nodes)
    ensures IsList(TickedTo(a, nodes, |nodes|), head, nodes)
    ensures forall s :: 0 <= s < SLOTS ==> TickedTo(a, nodes, |nodes|)[s] == if s in nodes then Ticked(a[s]) else a[s]
  {
    var a' := TickedTo(a, nodes, |nodes|);
    assert nodes[..|nodes|] == nodes;
    forall i | 0 <= i < |nodes| ensures NodeAt(a', nodes, i) {
      assert NodeAt(a, nodes, i);
      assert a'[nodes[i]] == Ticked(a[nodes[i]]);
    }
  }

  lemma SyncKeepsList(a: seq<Blink>, head: int, nodes: seq<nat>, first: nat, second: nat)
    requires IsList(a, head, nodes) && first < |nodes| && second < |nodes|
    ensures IsList(a[nodes[second] := Synced(a[nodes[second]], a[nodes[first]])], head, nodes)
  {
    var a' := a[nodes[second] := Synced(a[nodes[second]], a[nodes[first]])];
    forall i | 0 <= i < |nodes| ensures NodeAt(a', nodes, i) {
      assert NodeAt(a, nodes, i);
    }
  }

  lemma ArenaSize(a: seq<Blink>, head: int, nodes: seq<nat>)
    requires IsList(a, head, nodes)
    ensures |a| == SLOTS && NodeSlots(a, nodes)
  {
  }

  lemma EntriesAfterAdd(a: seq<Blink>, head: int, nodes: seq<nat>, user: Blink)
    requires IsList(a, head, nodes) && Add(a, head, user).2 == 0 && FreeSlot(a, 0) !in nodes
    ensures var s := FreeSlot(a, 0);
      && NodeSlots(Add(a, head, user).0, [s] + nodes)
      && Contents(Add(a, head, user).0, [s] + nodes) == [NewNode(user, NULL)] + Contents(a, nodes)
  {
    hide FreeSlot;
    var s, a' := FreeSlot(a, 0), Add(a, head, user).0;
    var nodes' := [s] + nodes;
    AddPrepends(a, head, nodes, user);
    forall i | 0 < i < |nodes'| ensures a'[nodes'[i]] == a[nodes[i - 1]] {
      assert nodes[i - 1] in nodes;
    }
    assert Contents(a', nodes') == [NewNode(user, NULL)] + Contents(a, nodes);
  }

  // -------------------------------------------------------------------------- runs

  /** A proper list whose nodes are all in the course of their periods. */
  ghost predicate Good(st: ListState) {
    && IsList(st.slots, st.head, st.nodes)
    && forall i :: 0 <= i < |st.nodes| ==> InCourse(st.slots[st.nodes[i]])
  }

  /** An add that succeeds gets a slot that is not in use. */
  ghost predicate Safe(st: ListState, op: Operation) {
    op.DoAdd? && Add(st.slots, st.head, op.user).2 == 0 ==> FreeSlot(st.slots, 0) !in st.nodes
  }

  /** The node in slot `s` is neither the one that is removed nor the one that takes over another's timing. */
  ghost predicate Spares(st: ListState, op: Operation, s: nat)
    requires NodeSlots(st.slots, st.nodes)
  {
    match op
    case DoRemove(location) => var k := Newest(st.slots, st.nodes, location, 0); k < |st.nodes| ==> st.nodes[k] != s
    case DoSync(_, to) => var k := Newest(st.slots, st.nodes, to, 0); k < |st.nodes| ==> st.nodes[k] != s
    case _ => true
  }

  /** Everything about a node but its link. */
  function Unlink(b: Blink): Blink {
    b.(next := NULL)
  }

  /** The node in slot `s` stays in the list as it is, but for its link and for a tick. */
  ghost predicate Lives(st: ListState, op: Operation, s: nat)
    requires NodeSlots(st.slots, st.nodes) && s < |st.slots|
  {
    var st' := Step(st, op);
    && s < |st'.slots| && s in st'.nodes
    && Unlink(st'.slots[s]) == if op.DoTick? then Ticked(Unlink(st.slots[s])) else Unlink(st.slots[s])
  }

  lemma AddKeepsCourse(st: ListState, user: Blink)
    requires Good(st) && Safe(st, DoAdd(user))
    ensures Good(Step(st, DoAdd(user)))
    ensures forall i :: 0 <= i < |st.nodes| ==> Lives(st, DoAdd(user), st.nodes[i])
  {
    hide IsList, FreeSlot, InCourse;
    ArenaSize(st.slots, st.head, st.nodes);
    var st' := Step(st, DoAdd(user));
    if Add(st.slots, st.head, user).2 == 0 {
      AddPrepends(st.slots, st.head, st.nodes, user);
      AddedAtZero(NewNode(user, st.head));
      forall i | 0 <= i < |st.nodes| ensures st'.nodes[i + 1] == st.nodes[i] != st'.head {
        assert st.nodes[i] in st.nodes;
      }
    }
  }

  lemma RemoveKeepsCourse(st: ListState, location: int)
    requires Good(st)
    ensures Good(Step(st, DoRemove(location)))
    ensures forall i :: 0 <= i < |st.nodes| && Spares(st, DoRemove(location), st.nodes[i]) ==>
      Lives(st, DoRemove(location), st.nodes[i])
  {
    hide IsList, InCourse, Without, Unlinked, Newest;
    ArenaSize(st.slots, st.head, st.nodes);
    var k, st' := Newest(st.slots, st.nodes, location, 0), Step(st, DoRemove(location));
    if k < |st.nodes| {
      UnlinkKeepsList(st.slots, st.head, st.nodes, k);
      ArenaSize(st'.slots, st'.head, st'.nodes);
      WithoutLength(st.nodes, k);
      forall i | 0 <= i < |st'.nodes| ensures InCourse(st'.slots[st'.nodes[i]]) {
        UnlinkedAt(st.slots, st.head, st.nodes, k, i);
        LinkDoesNotMatter(st.slots[st'.nodes[i]], Following(st'.nodes, i));
      }
      forall i | 0 <= i < |st.nodes| && st.nodes[i] != st.nodes[k] ensures Lives(st, DoRemove(location), st.nodes[i]) {
        UnlinkedAt(st.slots, st.head, st.nodes, k, if i < k then i else i - 1);
      }
    }
  }

  lemma WithoutLength(nodes: seq<nat>, k: nat)
    requires k < |nodes|
    ensures |Without(nodes, k)| == |nodes| - 1
  {
  }

  lemma LinkDoesNotMatter(b: Blink, next: int)
    ensures InCourse(b.(next := next)) <==> InCourse(b)
    ensures InCourse(b) ==> Position(b.(next := next)) == Position(b)
    ensures forall r :: 0 <= r < Period(b) ==> At(b.(next := next), r) == At(b, r).(next := next)
    ensures Ticked(b.(next := next)) == Ticked(b).(next := next)
  {
  }

  lemma SyncKeepsCourse(st: ListState, from: int, to: int)
    requires Good(st)
    ensures Good(Step(st, DoSync(from, to)))
    ensures forall i :: 0 <= i < |st.nodes| && Spares(st, DoSync(from, to), st.nodes[i]) ==>
      Lives(st, DoSync(from, to), st.nodes[i])
  {
    hide IsList, Newest;
    ArenaSize(st.slots, st.head, st.nodes);
    var first, second := Newest(st.slots, st.nodes, from, 0), Newest(st.slots, st.nodes, to, 0);
    if first < |st.nodes| && second < |st.nodes| {
      SyncKeepsList(st.slots, st.head, st.nodes, first, second);
    }
  }

  lemma TickKeepsCourse(st: ListState)
    requires Good(st)
    ensures Good(Step(st, DoTick))
    ensures forall i :: 0 <= i < |st.nodes| ==> Lives(st, DoTick, st.nodes[i])
  {
    hide IsList, TickedTo, InCourse, Ticked;
    ArenaSize(st.slots, st.head, st.nodes);
    AllTicked(st.slots, st.head, st.nodes);
    forall i | 0 <= i < |st.nodes| ensures InCourse(Ticked(st.slots[st.nodes[i]])) && Lives(st, DoTick, st.nodes[i]) {
      var b := st.slots[st.nodes[i]];
      LaterPosition(b);
      LinkDoesNotMatter(b, NULL);
    }
  }

  lemma LaterPosition(b: Blink)
    requires InCourse(b)
    ensures InCourse(Ticked(b))
  {
  }

  /** Every operation leaves a proper list of nodes in course, and only a tick changes the nodes it spares. */
  lemma StepKeepsCourse(st: ListState, op: Operation)
    requires Good(st) && Safe(st, op)
    ensures Good(Step(st, op))
    ensures forall i :: 0 <= i < |st.nodes| && Spares(st, op, st.nodes[i]) ==> Lives(st, op, st.nodes[i])
  {
    hide Good, Lives, Step;
    match op
    case DoAdd(user) => AddKeepsCourse(st, user);
    case DoRemove(location) => RemoveKeepsCourse(st, location);
    case DoSync(from, to) => SyncKeepsCourse(st, from, to);
    case DoTick => TickKeepsCourse(st);
  }

  ghost predicate IsRun(states: seq<ListState>, ops: seq<Operation>) {
    && |states| == |ops| + 1 && Good(states[0])
    && forall i :: 0 <= i < |ops| ==>
         Safe(states[i], ops[i]) && NodeSlots(states[i].slots, states[i].nodes) && states[i + 1] == Step(states[i], ops[i])
  }

  function Ticks(ops: seq<Operation>, n: nat): nat
    requires n <= |ops|
  {
    if n == 0 then 0 else Ticks(ops, n - 1) + if ops[n - 1].DoTick? then 1 else 0
  }

  /**
   Over every run of adds, removals, synchronisations and ticks the list stays proper, and
   a node that the operations spare follows its closed form, counted in ticks from where it
   was in its period at the start.
   */
  lemma {:induction false} EveryEntryBlinks(states: seq<ListState>, ops: seq<Operation>, s: nat, n: nat)
    requires IsRun(states, ops) && n <= |ops| && s in states[0].nodes
    requires forall i :: 0 <= i < n ==> Spares(states[i], ops[i], s)
    ensures Good(states[n]) && s in states[n].nodes && s < |states[n].slots| && s < |states[0].slots|
    ensures var b, k := states[0].slots[s], Ticks(ops, n);
      InCourse(b) && Unlink(states[n].slots[s]) == Unlink(At(b, (Position(b) + k) % Period(b)))
  {
    hide InCourse, Position, At, Period, Ticked, Step, IsList, Spares;
    TicksThrough(states, ops, s, n);
    var b, k := states[0].slots[s], Ticks(ops, n);
    LinkDoesNotMatter(b, NULL);
    BlinkClosedForm(Unlink(b), k);
    SamePeriod(b);
  }

  lemma SamePeriod(b: Blink)
    ensures Period(Unlink(b)) == Period(b)
  {
  }

  lemma {:induction false} TicksThrough(states: seq<ListState>, ops: seq<Operation>, s: nat, n: nat)
    requires IsRun(states, ops) && n <= |ops| && s in states[0].nodes
    requires forall i :: 0 <= i < n ==> Spares(states[i], ops[i], s)
    ensures Good(states[n]) && s in states[n].nodes && s < |states[n].slots| && s < |states[0].slots|
    ensures InCourse(states[0].slots[s])
    ensures Unlink(states[n].slots[s]) == TickedBy(Unlink(states[0].slots[s]), Ticks(ops, n))
  {
    hide InCourse, Ticked, Step, IsList, Spares;
    ArenaSize(states[0].slots, states[0].head, states[0].nodes);
    if n > 0 {
      TicksThrough(states, ops, s, n - 1);
      StepKeepsCourse(states[n - 1], ops[n - 1]);
    }
  }
}

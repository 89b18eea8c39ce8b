/**
 The timer's choice of the next terminal (schedule.c), for any number of terminals,
 and its fairness.
 */
module Scheduling {
  import opened Residues

  // ----------------------------------------------------------------- the loop

  /** The selection loop of pit_handler, from candidate `curr + i` on; `next` is kept when none is open. */
  function NextFrom(open: seq<bool>, curr: nat, next: nat, i: nat): (n: nat)
    requires |open| > 0
    ensures next < |open| ==> n < |open|
    decreases |open| - i
  {
    if i >= |open| then next
    else if open[(curr + i) % |open|] then (curr + i) % |open|
    else NextFrom(open, curr, next, i + 1)
  }

  function NextTerminal(open: seq<bool>, curr: nat, next: nat): (n: nat)
    requires |open| > 0
    ensures next < |open| ==> n < |open|
  {
    NextFrom(open, curr, next, 1)
  }

  /** Terminals below `x` that are open. */
  function Rank(open: seq<bool>, x: nat): (r: nat)
    requires x <= |open|
  {
    if x == 0 then 0 else Rank(open, x - 1) + if open[x - 1] then 1 else 0
  }

  function OpenCount(open: seq<bool>): nat {
    Rank(open, |open|)
  }

  /** The scheduler's globals between ticks: what is scheduled is open, and so is what was last selected. */
  ghost predicate Running(open: seq<bool>, curr: nat, next: nat) {
    curr < |open| && next < |open| && open[curr] && open[next]
  }

  /** The terminal scheduled after `k` ticks with nothing opened in between. */
  function AfterTicks(open: seq<bool>, curr: nat, next: nat, k: nat): nat
    requires |open| > 0
    decreases k
  {
    if k == 0 then curr
    else
      var n := NextTerminal(open, curr, next);
      AfterTicks(open, n, n, k - 1)
  }

  lemma {:induction false} RankGrows(open: seq<bool>, x: nat, y: nat)
    requires x <= y <= |open|
    ensures Rank(open, x) <= Rank(open, y)
    ensures (forall z :: x <= z < y ==> !open[z]) ==> Rank(open, x) == Rank(open, y)
    ensures x < y && open[x] ==> Rank(open, x) < Rank(open, y)
  {
    if x < y {
      RankGrows(open, x, y - 1);
    }
  }

  lemma RankDeterminesTerminal(open: seq<bool>, x: nat, y: nat)
    requires x < |open| && y < |open| && open[x] && open[y]
    ensures Rank(open, x) < OpenCount(open)
    ensures Rank(open, x) == Rank(open, y) ==> x == y
  {
    RankGrows(open, x, |open|);
    if x < y {
      RankGrows(open, x, y);
    } else {
      RankGrows(open, y, x);
    }
  }

  /** `n` is the first open terminal after `curr` in cyclic order, or `next` when no other is open. */
  ghost predicate FirstAfter(open: seq<bool>, curr: nat, next: nat, n: nat) {
    || (curr < n < |open| && open[n] && (forall z :: curr < z < n ==> !open[z]))
    || (n < curr < |open| && open[n] && (forall z :: curr < z < |open| || 0 <= z < n ==> !open[z]))
    || (n == next && (forall z :: 0 <= z < |open| && z != curr ==> !open[z]))
  }

  lemma {:induction false} NextFromFinds(open: seq<bool>, curr: nat, next: nat, i: nat)
    requires curr < |open| && 1 <= i <= |open|
    requires forall z :: curr < z < |open| && z < curr + i ==> !open[z]
    requires forall z :: 0 <= z < curr + i - |open| ==> !open[z]
    ensures FirstAfter(open, curr, next, NextFrom(open, curr, next, i))
    decreases |open| - i
  {
    if i < |open| {
      var z := if curr + i < |open| then curr + i else curr + i - |open|;
      ModIs(curr + i, if curr + i < |open| then 0 else 1, z, |open|);
      if !open[z] {
        NextFromFinds(open, curr, next, i + 1);
      }
    }
  }

  /** The loop as it is written: the first open terminal after `curr` in cyclic order. */
  method Select(open: seq<bool>, curr: nat, next: nat) returns (chosen: nat)
    requires curr < |open|
    ensures FirstAfter(open, curr, next, chosen) && chosen == NextTerminal(open, curr, next)
  {
    NextFromFinds(open, curr, next, 1);
    chosen := next;
    var i := 1;
    while i < |open|
      invariant 1 <= i && (i <= |open|) && chosen == next
      invariant NextTerminal(open, curr, next) == NextFrom(open, curr, next, i)
    {
      if open[(curr + i) % |open|] {
        chosen := (curr + i) % |open|;
        break;
      }
      i := i + 1;
    }
  }

  lemma NextRank(open: seq<bool>, curr: nat, next: nat, n: nat)
    requires Running(open, curr, next) && FirstAfter(open, curr, next, n)
    ensures n < |open| && open[n] && Rank(open, curr) < OpenCount(open)
    ensures Rank(open, n) == if Rank(open, curr) + 1 == OpenCount(open) then 0 else Rank(open, curr) + 1
  {
    RankDeterminesTerminal(open, curr, curr);
    RankDeterminesTerminal(open, n, n);
    if curr < n {
      RankGrows(open, curr + 1, n);
    } else {
      RankGrows(open, curr + 1, |open|);
      RankGrows(open, 0, n);
    }
  }

  /** A tick moves on by one in the order of the open terminals, and so selects an open one. */
  lemma TickAdvances(open: seq<bool>, curr: nat, next: nat)
    requires Running(open, curr, next)
    ensures OpenCount(open) > 0 && Running(open, NextTerminal(open, curr, next), NextTerminal(open, curr, next))
    ensures Rank(open, NextTerminal(open, curr, next)) == (Rank(open, curr) + 1) % OpenCount(open)
  {
    hide NextFrom, Rank, FirstAfter;
    NextFromFinds(open, curr, next, 1);
    NextRank(open, curr, next, NextTerminal(open, curr, next));
    var r, m := Rank(open, curr), OpenCount(open);
    ModIs(r + 1, if r + 1 == m then 1 else 0, if r + 1 == m then 0 else r + 1, m);
  }

  lemma {:induction false} TicksAdvance(open: seq<bool>, curr: nat, next: nat, k: nat)
    requires Running(open, curr, next)
    ensures OpenCount(open) > 0 && AfterTicks(open, curr, next, k) < |open| && open[AfterTicks(open, curr, next, k)]
    ensures Rank(open, AfterTicks(open, curr, next, k)) == (Rank(open, curr) + k) % OpenCount(open)
    decreases k
  {
    hide NextFrom, Rank;
    var m := OpenCount(open);
    RankDeterminesTerminal(open, curr, curr);
    if k == 0 {
      ModIs(Rank(open, curr), 0, Rank(open, curr), m);
    } else {
      TickAdvances(open, curr, next);
      var n := NextTerminal(open, curr, next);
      TicksAdvance(open, n, n, k - 1);
      ModAdd(Rank(open, curr), k - 1, m);
    }
  }

  lemma NoTicks(open: seq<bool>, curr: nat, next: nat)
    requires |open| > 0
    ensures AfterTicks(open, curr, next, 0) == curr
  {
  }

  /** The last of the ticks, which finds `next` and `curr` equal when others came before it. */
  lemma {:induction false} OneTickMore(open: seq<bool>, curr: nat, next: nat, k: nat)
    requires |open| > 0
    ensures var c := AfterTicks(open, curr, next, k);
      AfterTicks(open, curr, next, k + 1) == NextTerminal(open, c, if k == 0 then next else c)
    decreases k
  {
    hide NextTerminal;
    if k == 0 {
      NoTicks(open, NextTerminal(open, curr, next), NextTerminal(open, curr, next));
    } else {
      OneTickMore(open, NextTerminal(open, curr, next), NextTerminal(open, curr, next), k - 1);
    }
  }

  /** Tick number `k` selects terminal `t`. */
  ghost predicate Selects(open: seq<bool>, curr: nat, next: nat, k: nat, t: nat)
    requires |open| > 0
  {
    AfterTicks(open, curr, next, k) == t
  }

  /**
   Round robin: from any running state, any OpenCount consecutive ticks select every
   open terminal exactly once, and never a closed one.
   */
  lemma RoundRobin(open: seq<bool>, curr: nat, next: nat, start: nat, t: nat)
    requires Running(open, curr, next) && t < |open|
    ensures (exists k: nat :: start < k <= start + OpenCount(open) && Selects(open, curr, next, k, t)) <==> open[t]
    ensures forall j: nat, k: nat | start < j <= k <= start + OpenCount(open) ::
      Selects(open, curr, next, j, t) && Selects(open, curr, next, k, t) ==> j == k
  {
    var m, r := OpenCount(open), Rank(open, curr);
    RankDeterminesTerminal(open, curr, curr);
    forall k: nat | Selects(open, curr, next, k, t) ensures open[t] && Rank(open, t) == (r + k) % m {
      TicksAdvance(open, curr, next, k);
    }
    forall j: nat, k: nat | start < j <= k <= start + m && Selects(open, curr, next, j, t)
        && Selects(open, curr, next, k, t)
      ensures j == k
    {
      SameResidue(r + j, r + k, m);
    }
    if open[t] {
      RankDeterminesTerminal(open, t, t);
      var k := HitResidue(r + start, Rank(open, t), m);
      TicksAdvance(open, curr, next, start + k);
      RankDeterminesTerminal(open, AfterTicks(open, curr, next, start + k), t);
      assert Selects(open, curr, next, start + k, t);
    }
  }
}

/**
 Process slots, terminals with their chains of parents, and the one live user mapping:
 execute and halt (syscall.c), the timer switch (schedule.c), opening a terminal
 (terminal.c) and the page-directory writes (initpaging.c).

 The first part is the state and its transitions as values, for any number of slots
 and terminals; KernelState.dfy holds the fields and methods that perform them.
 */
module Processes {
  import opened Common
  import opened Residues
  import opened Scheduling

  const MAX_PROCESSES: nat := 6
  const NUM_TERMINALS: nat := 3
  const NO_PARENT: nat := 0xFFFF_FFFF
  const KB_8: nat := 0x2000
  const MB_4: nat := 0x400000
  const MB_8: nat := 0x800000
  const USER_FLAGS: nat := 0x87

  datatype Pcb = Pcb(pid: nat, parent: nat)

  /** `curPcb` is an address, `started` the field first_process. */
  datatype Terminal = Terminal(open: bool, started: bool, currentPid: nat, curPcb: nat)

  /** `displayed` is current_id - 1, `userEntry` page-directory entry 32. */
  datatype State = State(
    procs: seq<bool>, pcbs: seq<Pcb>, terms: seq<Terminal>,
    displayed: nat, curr: nat, next: nat, userEntry: nat, esp0: nat)

  // ---------------------------------------------------------------- addresses

  /** 8MB - 8KB * (pid + 1) in 32-bit arithmetic: the PCB of `pid`, and the value of esp0 execute gives it. */
  function PcbAddress(pid: nat): nat {
    (MB_8 - KB_8 * (pid + 1)) % WORD
  }

  /** A frame address with flag bits or-ed into its clear low bits. */
  function WithFlags(frame: nat, flags: nat): nat
    requires frame % 0x1000 == 0 && flags < 0x1000
  {
    frame + flags
  }

  /** (pid + 2) * 4MB in 32-bit arithmetic: where map_to_user_phy places a process. */
  function UserFrame(pid: nat): (frame: nat)
    ensures frame == (pid + 2) % 1024 * MB_4 && frame % 0x1000 == 0
  {
    FrameWraps(pid + 2);
    (pid + 2) * MB_4 % WORD
  }

  /** 8MB + pid * 4MB in 32-bit arithmetic: where the timer switch finds it, which is the same frame. */
  function SwitchFrame(pid: nat): (frame: nat)
    ensures frame == UserFrame(pid) && frame % 0x1000 == 0
  {
    assert MB_8 + pid * MB_4 == (pid + 2) * MB_4;
    (MB_8 + pid * MB_4) % WORD
  }

  lemma FrameWraps(k: nat)
    ensures k * MB_4 % WORD == k % 1024 * MB_4
  {
    ModIs(k * MB_4, k / 1024, k % 1024 * MB_4, WORD);
  }

  /** The page-directory entry for the process in a slot. */
  function UserEntry(pid: nat): nat {
    WithFlags(UserFrame(pid), USER_FLAGS)
  }

  /** The first byte of the 4 MB frame an entry maps. */
  function FrameOf(entry: nat): nat {
    entry - entry % MB_4
  }

  /** The slot whose PCB lies at an address. */
  function SlotAt(address: nat): int {
    (MB_8 - address) / KB_8 - 1
  }

  // -------------------------------------------------------------- transitions

  ghost predicate Sized(s: State) {
    && 0 < |s.terms| <= |s.procs| == |s.pcbs| <= 256
    && s.displayed < |s.terms| && s.curr < |s.terms| && s.next < |s.terms|
  }

  /** The test for the "Maximum Processes" branch. */
  predicate Full(s: State) {
    forall i :: |s.terms| <= i < |s.procs| ==> s.procs[i]
  }

  function FreeSlot(procs: seq<bool>, from: nat): (n: nat)
    requires from <= |procs|
    requires exists i :: from <= i < |procs| && !procs[i]
    ensures from <= n < |procs| && !procs[n] && forall i :: from <= i < n ==> procs[i]
    decreases |procs| - from
  {
    if !procs[from] then from else FreeSlot(procs, from + 1)
  }

  /** execute, from the mapping on, with slot `n` chosen for the displayed terminal. */
  function Launch(s: State, n: nat, parent: nat): State
    requires Sized(s) && n < |s.procs|
  {
    var t := s.displayed;
    s.(procs := s.procs[n := true], pcbs := s.pcbs[n := Pcb(n, parent)],
       terms := s.terms[t := s.terms[t].(started := true, currentPid := n, curPcb := PcbAddress(n))],
       curr := t, userEntry := UserEntry(n), esp0 := PcbAddress(n))
  }

  /** execute; `valid` says that the file exists and starts with the executable's magic. */
  function Execute(s: State, valid: bool): (State, bool)
    requires Sized(s)
  {
    if !valid then (s, false)
    else if !s.terms[s.displayed].started then (Launch(s, s.displayed, NO_PARENT), true)
    else if Full(s) then (s, false)
    else (Launch(s, FreeSlot(s.procs, |s.terms|), s.terms[s.displayed].currentPid), true)
  }

  /** The current PCB pointer of the scheduled terminal points to a PCB with a slot's pid. */
  ghost predicate HaltReady(s: State) {
    && Sized(s)
    && 0 <= SlotAt(s.terms[s.curr].curPcb) < |s.pcbs|
    && s.terms[s.curr].curPcb == PcbAddress(SlotAt(s.terms[s.curr].curPcb))
    && s.pcbs[SlotAt(s.terms[s.curr].curPcb)].pid < |s.procs|
  }

  function HaltingPcb(s: State): Pcb
    requires HaltReady(s)
  {
    s.pcbs[SlotAt(s.terms[s.curr].curPcb)]
  }

  /** The end of halt: the parent becomes current again. */
  function Resume(s: State, parent: nat): State
    requires Sized(s)
  {
    var t := s.curr;
    s.(terms := s.terms[t := s.terms[t].(currentPid := parent, curPcb := PcbAddress(parent))],
       userEntry := UserEntry(parent), esp0 := PcbAddress(parent))
  }

  /** halt; `shell` says that the shell's image can be executed. */
  function Halt(s: State, shell: bool): State
    requires HaltReady(s)
  {
    var pcb, t := HaltingPcb(s), s.curr;
    var freed := s.(procs := s.procs[pcb.pid := false]);
    if pcb.parent != NO_PARENT then Resume(freed, pcb.parent)
    else
      var (again, ok) := Execute(freed.(terms := s.terms[t := s.terms[t].(started := false)]), shell);
      if ok then again else Resume(again, pcb.parent)
  }

  function OpenFlags(terms: seq<Terminal>): (open: seq<bool>)
    ensures |open| == |terms| && forall i :: 0 <= i < |terms| ==> open[i] == terms[i].open
  {
    seq(|terms|, i requires 0 <= i < |terms| => terms[i].open)
  }

  /** pit_handler and do_switch. */
  function Tick(s: State): State
    requires Sized(s)
  {
    var n := NextTerminal(OpenFlags(s.terms), s.curr, s.next);
    var pid := s.terms[n].currentPid;
    s.(next := n, curr := n, userEntry := WithFlags(SwitchFrame(pid), USER_FLAGS),
       esp0 := (MB_8 - KB_8 * (pid + 1) - 4) % WORD)
  }

  /** switch_to_terminal_1/2/3: show terminal `t`, and start a shell there when it was not open yet. */
  function Show(s: State, t: nat, shell: bool): State
    requires Sized(s) && t < |s.terms|
  {
    if t == s.displayed then s
    else if s.terms[t].open then s.(displayed := t)
    else Execute(s.(terms := s.terms[t := s.terms[t].(open := true)], displayed := t), shell).0
  }

  // ------------------------------------------------------------------ invariant

  /** One stack of pids per terminal, innermost process first. */
  type Chains = seq<seq<nat>>

  /** `c` is the parent chain of terminal `t`: linked by the PCBs, ending in the root, whose pid is `t`. */
  ghost predicate IsChain(s: State, t: nat, c: seq<nat>)
    requires |s.pcbs| == |s.procs|
  {
    && c != [] && c[|c| - 1] == t
    && (forall i :: 0 <= i < |c| ==> c[i] < |s.procs| && s.pcbs[c[i]].pid == c[i])
    && (forall i :: 0 <= i < |c| - 1 ==> c[i] >= |s.terms| && s.pcbs[c[i]].parent == c[i + 1])
    && s.pcbs[t].parent == NO_PARENT
  }

  /** No pid occurs twice, in one chain or in two. */
  ghost predicate Disjoint(ch: Chains) {
    && (forall t, i, j :: 0 <= t < |ch| && 0 <= i < j < |ch[t]| ==> ch[t][i] != ch[t][j])
    && (forall t, u, p :: 0 <= t < u < |ch| && p in ch[t] ==> p !in ch[u])
  }

  ghost predicate Owned(ch: Chains, p: nat) {
    exists t :: 0 <= t < |ch| && p in ch[t]
  }

  ghost predicate Scheduled(s: State) {
    Sized(s) && s.terms[s.displayed].open && Running(OpenFlags(s.terms), s.curr, s.next)
  }

  /** Terminal `t` is closed and has no process, or it is open and `c` is its chain. */
  ghost predicate Rooted(s: State, t: nat, c: seq<nat>)
    requires |s.pcbs| == |s.procs| && t < |s.terms|
  {
    && s.terms[t].open == s.terms[t].started == (c != [])
    && (c != [] ==> IsChain(s, t, c) && AtHead(s.terms[t], c))
  }

  ghost predicate AllRooted(s: State, ch: Chains)
    requires |s.pcbs| == |s.procs|
  {
    |ch| == |s.terms| && forall t :: 0 <= t < |ch| ==> Rooted(s, t, ch[t])
  }

  ghost predicate LiveOwned(procs: seq<bool>, ch: Chains) {
    forall p :: 0 <= p < |procs| ==> (procs[p] <==> Owned(ch, p))
  }

  /**
   The forest invariant: the terminals that are open have a chain that starts at their
   current process, and the live slots are exactly the union of the disjoint chains.
   */
  ghost predicate Forest(s: State, ch: Chains) {
    Scheduled(s) && AllRooted(s, ch) && Disjoint(ch) && LiveOwned(s.procs, ch)
  }

  /** current_pid and cur_pcb agree and name the innermost process. */
  ghost predicate AtHead(terminal: Terminal, c: seq<nat>)
    requires c != []
  {
    terminal.currentPid == c[0] && terminal.curPcb == PcbAddress(c[0])
  }

  /** The live mapping and the kernel stack are those of the scheduled terminal's process. */
  ghost predicate Mapped(s: State)
    requires Sized(s)
  {
    var pid := s.terms[s.curr].currentPid;
    && s.userEntry == UserEntry(pid)
    && (s.esp0 == PcbAddress(pid) || s.esp0 == PcbAddress(pid) - 4)
  }

  // ---------------------------------------------------------------- preservation

  function Push(ch: Chains, t: nat, n: nat): Chains
    requires t < |ch|
  {
    ch[t := [n] + ch[t]]
  }

  function Pop(ch: Chains, t: nat): Chains
    requires t < |ch| && ch[t] != []
  {
    ch[t := ch[t][1..]]
  }

  lemma PcbAddresses(pid: nat)
    requires pid < 256
    ensures PcbAddress(pid) == MB_8 - KB_8 * (pid + 1) && SlotAt(PcbAddress(pid)) == pid
    ensures (MB_8 - KB_8 * (pid + 1) - 4) % WORD == PcbAddress(pid) - 4
  {
  }

  lemma PushedChains(ch: Chains, t: nat, n: nat, p: nat)
    requires t < |ch| && Disjoint(ch) && !Owned(ch, n)
    ensures Disjoint(Push(ch, t, n))
    ensures Owned(Push(ch, t, n), p) <==> p == n || Owned(ch, p)
  {
    var ch' := Push(ch, t, n);
    if Owned(ch, p) {
      var u :| 0 <= u < |ch| && p in ch[u];
      assert p in ch'[u];
    }
    assert n in ch'[t];
  }

  lemma PoppedChains(ch: Chains, t: nat, p: nat)
    requires t < |ch| && Disjoint(ch) && ch[t] != []
    ensures Disjoint(Pop(ch, t))
    ensures Owned(Pop(ch, t), p) <==> p != ch[t][0] && Owned(ch, p)
  {
    var ch', c := Pop(ch, t), ch[t];
    assert forall q :: q in ch'[t] ==> q in c;
    if p != c[0] && Owned(ch, p) {
      var u :| 0 <= u < |ch| && p in ch[u];
      assert c == [c[0]] + c[1..];
      assert p in ch'[u];
    }
    if Owned(ch', p) {
      var u :| 0 <= u < |ch'| && p in ch'[u];
      assert p in ch[u] && c[0] in ch[t];
    }
  }

  /** A chain depends only on the PCBs of its members. */
  lemma RootedFrame(s: State, s': State, t: nat, c: seq<nat>)
    requires |s.pcbs| == |s.procs| == |s'.pcbs| == |s'.procs| && t < |s.terms| == |s'.terms|
    requires Rooted(s, t, c) && s'.terms[t] == s.terms[t]
    requires forall p :: p in c && p < |s.pcbs| ==> s'.pcbs[p] == s.pcbs[p]
    ensures Rooted(s', t, c)
  {
    if c != [] {
      assert t in c;
      assert forall i :: 0 <= i < |c| ==> c[i] in c;
    }
  }

  lemma LaunchKeepsForest(s: State, ch: Chains, n: nat)
    requires Forest(s, ch) && |s.terms| <= n < |s.procs| && !s.procs[n]
    ensures var s' := Launch(s, n, s.terms[s.displayed].currentPid);
      Forest(s', Push(ch, s.displayed, n)) && Mapped(s') && s'.esp0 == MB_8 - KB_8 * (n + 1)
  {
    hide Disjoint, Owned, Running, NextFrom;
    var t, s', ch' := s.displayed, Launch(s, n, s.terms[s.displayed].currentPid), Push(ch, s.displayed, n);
    PcbAddresses(n);
    assert !Owned(ch, n);
    forall p | 0 <= p < |s.procs| ensures s'.procs[p] <==> Owned(ch', p) {
      PushedChains(ch, t, n, p);
    }
    forall u | 0 <= u < |ch'| ensures Rooted(s', u, ch'[u]) {
      assert Rooted(s, u, ch[u]);
      NotInChain(ch, u, n);
      if u != t {
        RootedFrame(s, s', u, ch[u]);
      }
    }
    PushedChains(ch, t, n, n);
    StillRunning(s, s');
  }

  lemma NotInChain(ch: Chains, u: nat, n: nat)
    requires u < |ch| && !Owned(ch, n)
    ensures n !in ch[u]
  {
  }

  lemma StillRunning(s: State, s': State)
    requires |s'.terms| == |s.terms| && Running(OpenFlags(s.terms), s.curr, s.next) && s'.next == s.next
    requires forall t :: 0 <= t < |s.terms| && s.terms[t].open ==> s'.terms[t].open
    requires s'.curr == s.curr || (s'.curr < |s'.terms| && s'.terms[s'.curr].open)
    ensures Running(OpenFlags(s'.terms), s'.curr, s'.next)
  {
  }

  /** Starting the root of the displayed terminal, whose chain is empty so far. */
  lemma RootLaunchKeepsForest(s: State, ch: Chains)
    requires Scheduled(s) && |ch| == |s.terms| && ch[s.displayed] == []
    requires forall u :: 0 <= u < |ch| && u != s.displayed ==> Rooted(s, u, ch[u])
    requires Disjoint(ch) && LiveOwned(s.procs, ch)
    ensures var s' := Launch(s, s.displayed, NO_PARENT);
      Forest(s', Push(ch, s.displayed, s.displayed)) && Mapped(s')
  {
    hide Disjoint, Running, NextFrom;
    var t, s', ch' := s.displayed, Launch(s, s.displayed, NO_PARENT), Push(ch, s.displayed, s.displayed);
    PcbAddresses(t);
    forall u | 0 <= u < |ch| ensures t !in ch[u] {
      if u != t {
        assert Rooted(s, u, ch[u]);
        assert forall i :: 0 <= i < |ch[u]| ==> ch[u][i] != t;
      }
    }
    forall p | 0 <= p < |s.procs| ensures s'.procs[p] <==> Owned(ch', p) {
      PushedChains(ch, t, t, p);
    }
    forall u | 0 <= u < |ch'| ensures Rooted(s', u, ch'[u]) {
      if u != t {
        RootedFrame(s, s', u, ch[u]);
      }
    }
    PushedChains(ch, t, t, t);
    StillRunning(s, s');
  }

  /** halt finds the PCB of the innermost process, and that has no parent exactly when it is the root. */
  lemma HaltFindsTheTop(s: State, ch: Chains)
    requires Forest(s, ch)
    ensures ch[s.curr] != [] && HaltReady(s) && HaltingPcb(s).pid == ch[s.curr][0]
    ensures HaltingPcb(s).parent == if |ch[s.curr]| == 1 then NO_PARENT else ch[s.curr][1]
  {
    hide Disjoint, LiveOwned, NextFrom;
    assert Rooted(s, s.curr, ch[s.curr]);
    PcbAddresses(ch[s.curr][0]);
  }

  /** halt of a process with a parent frees its slot and resumes the parent. */
  lemma HaltResumesParent(s: State, ch: Chains, shell: bool)
    requires Forest(s, ch) && |ch[s.curr]| > 1
    ensures HaltReady(s) && ch[s.curr][0] < |s.procs| && ch[s.curr][1] < 256
    ensures Halt(s, shell) == Resume(s.(procs := s.procs[ch[s.curr][0] := false]), ch[s.curr][1])
  {
    hide Disjoint, LiveOwned, Running, NextFrom;
    HaltFindsTheTop(s, ch);
    assert Rooted(s, s.curr, ch[s.curr]);
  }

  lemma HaltChildKeepsForest(s: State, ch: Chains, shell: bool)
    requires Forest(s, ch) && |ch[s.curr]| > 1
    ensures HaltReady(s) && Forest(Halt(s, shell), Pop(ch, s.curr)) && Mapped(Halt(s, shell))
  {
    hide Disjoint, Running, NextFrom, Halt, HaltReady, PcbAddress;
    HaltResumesParent(s, ch, shell);
    var t, s', ch' := s.curr, Halt(s, shell), Pop(ch, s.curr);
    assert Rooted(s, t, ch[t]);
    forall p | 0 <= p < |s.procs| ensures s'.procs[p] <==> Owned(ch', p) {
      PoppedChains(ch, t, p);
    }
    forall u | 0 <= u < |ch'| ensures Rooted(s', u, ch'[u]) {
      assert Rooted(s, u, ch[u]);
      if u != t {
        RootedFrame(s, s', u, ch[u]);
      }
    }
    PoppedChains(ch, t, t);
    StillRunning(s, s');
    assert AllRooted(s', ch') && LiveOwned(s'.procs, ch');
  }

  /** A root that halts on the displayed terminal is replaced by a new root in the same slot. */
  lemma HaltRootKeepsForest(s: State, ch: Chains)
    requires Forest(s, ch) && |ch[s.curr]| == 1 && s.curr == s.displayed
    ensures HaltReady(s) && Forest(Halt(s, true), ch) && Mapped(Halt(s, true))
  {
    hide Disjoint, Running, NextFrom;
    HaltFindsTheTop(s, ch);
    var t, ch' := s.curr, Pop(ch, s.curr);
    assert Rooted(s, t, ch[t]);
    var freed := s.(procs := s.procs[t := false], terms := s.terms[t := s.terms[t].(started := false)]);
    forall p | 0 <= p < |s.procs| ensures freed.procs[p] <==> Owned(ch', p) {
      PoppedChains(ch, t, p);
    }
    forall u | 0 <= u < |ch'| && u != t ensures Rooted(freed, u, ch'[u]) {
      assert Rooted(s, u, ch[u]);
    }
    PoppedChains(ch, t, t);
    StillRunning(s, freed);
    RootLaunchKeepsForest(freed, ch');
    assert ch'[t] == [] && Push(ch', t, t)[t] == [t] + ch'[t] == [t] == ch[t];
    assert forall u :: 0 <= u < |ch| ==> Push(ch', t, t)[u] == ch[u];
    assert Push(ch', t, t) == ch;
  }

  /** A root that halts when the shell cannot be executed: its slot is free, and the kernel's frame is mapped for it. */
  lemma RootHaltFails(s: State, ch: Chains)
    requires Forest(s, ch) && |ch[s.curr]| == 1
    ensures HaltReady(s)
    ensures var t, s' := s.curr, Halt(s, false);
      && s' == s.(procs := s.procs[t := false], userEntry := s'.userEntry, esp0 := MB_8,
                  terms := s.terms[t := s.terms[t].(started := false, currentPid := NO_PARENT, curPcb := MB_8)])
      && FrameOf(s'.userEntry) == MB_4
  {
    hide Disjoint, LiveOwned, Running, NextFrom;
    HaltFindsTheTop(s, ch);
    assert Rooted(s, s.curr, ch[s.curr]);
    NoParentMapsTheKernel();
  }

  /** A root that halts while another terminal is displayed is not replaced: the new shell becomes a child there. */
  lemma RootHaltElsewhere(s: State, ch: Chains)
    requires Forest(s, ch) && |ch[s.curr]| == 1 && s.curr != s.displayed
    ensures HaltReady(s)
    ensures var t, d, s' := s.curr, s.displayed, Halt(s, true);
      && !s'.procs[t] && s'.terms[t].open && !s'.terms[t].started && s'.displayed == d
      && (!Full(s) ==> |s.terms| <= s'.terms[d].currentPid < |s.procs| && !s.procs[s'.terms[d].currentPid]
                       && s'.pcbs[s'.terms[d].currentPid].parent == s.terms[d].currentPid && s'.curr == d)
  {
    hide Disjoint, LiveOwned, Running, NextFrom, UserEntry, PcbAddress;
    HaltFindsTheTop(s, ch);
    assert Rooted(s, s.curr, ch[s.curr]) && Rooted(s, s.displayed, ch[s.displayed]);
    var freed := s.procs[s.curr := false];
    assert forall i :: |s.terms| <= i < |s.procs| ==> freed[i] == s.procs[i];
  }

  lemma OpeningKeepsForest(s: State, ch: Chains, t: nat)
    requires Forest(s, ch) && t < |s.terms| && !s.terms[t].open
    ensures Forest(Show(s, t, true), Push(ch, t, t)) && Mapped(Show(s, t, true))
  {
    hide Disjoint, Running, NextFrom;
    var shown := s.(terms := s.terms[t := s.terms[t].(open := true)], displayed := t);
    assert Rooted(s, t, ch[t]);
    forall u | 0 <= u < |ch| && u != t ensures Rooted(shown, u, ch[u]) {
      assert Rooted(s, u, ch[u]);
    }
    StillRunning(s, shown);
    RootLaunchKeepsForest(shown, ch);
  }

  /** Changes of the displayed or scheduled terminal leave the forest alone. */
  lemma FocusKeepsForest(s: State, s': State, ch: Chains)
    requires Forest(s, ch) && Scheduled(s')
    requires s'.procs == s.procs && s'.pcbs == s.pcbs && s'.terms == s.terms
    ensures Forest(s', ch)
  {
    hide Disjoint, Running, NextFrom;
    forall u | 0 <= u < |ch| ensures Rooted(s', u, ch[u]) {
      assert Rooted(s, u, ch[u]);
    }
  }

  lemma TickKeepsForest(s: State, ch: Chains)
    requires Forest(s, ch)
    ensures Forest(Tick(s), ch) && Mapped(Tick(s))
    ensures Tick(s).esp0 == MB_8 - KB_8 * (Tick(s).terms[Tick(s).curr].currentPid + 1) - 4
  {
    hide Disjoint, NextFrom;
    var s' := Tick(s);
    TickAdvances(OpenFlags(s.terms), s.curr, s.next);
    FocusKeepsForest(s, s', ch);
    assert Rooted(s, s'.curr, ch[s'.curr]);
    PcbAddresses(s'.terms[s'.curr].currentPid);
  }

  // ------------------------------------------------------------------------ runs

  /** The atomic steps; the arguments say whether the image to execute is usable. */
  datatype Action = DoExecute(valid: bool) | DoHalt(shell: bool) | DoTick | DoShow(t: nat, shell: bool)

  /**
   What a run has to respect: a root halts only while its terminal is both scheduled
   and displayed, and the shell can be executed whenever halt or opening needs it.
   */
  ghost predicate Allowed(s: State, a: Action)
    requires HaltReady(s)
  {
    match a
    case DoExecute(_) => true
    case DoHalt(shell) => HaltingPcb(s).parent != NO_PARENT || (s.curr == s.displayed && shell)
    case DoTick => true
    case DoShow(t, shell) => t < |s.terms| && (shell || s.terms[t].open)
  }

  function Step(s: State, a: Action): State
    requires HaltReady(s) && (a.DoShow? ==> a.t < |s.terms|)
  {
    match a
    case DoExecute(valid) => Execute(s, valid).0
    case DoHalt(shell) => Halt(s, shell)
    case DoTick => Tick(s)
    case DoShow(t, shell) => Show(s, t, shell)
  }

  /** The same step on the stacks: push on the displayed terminal, pop from the scheduled one. */
  ghost function StepChains(s: State, ch: Chains, a: Action): Chains
    requires Forest(s, ch) && (a.DoShow? ==> a.t < |s.terms|)
  {
    match a
    case DoExecute(valid) => if valid && !Full(s) then Push(ch, s.displayed, FreeSlot(s.procs, |s.terms|)) else ch
    case DoHalt(_) => if |ch[s.curr]| > 1 then Pop(ch, s.curr) else ch
    case DoTick => ch
    case DoShow(t, _) => if s.terms[t].open then ch else Push(ch, t, t)
  }

  /**
   Every allowed step keeps the forest and performs the stack operation on it; the
   mapping stays, or becomes, the one of the scheduled terminal's process.
   */
  lemma StepKeepsForest(s: State, ch: Chains, a: Action)
    requires Forest(s, ch) && Mapped(s)
    requires HaltReady(s) && Allowed(s, a)
    ensures Forest(Step(s, a), StepChains(s, ch, a)) && Mapped(Step(s, a))
  {
    hide Disjoint, Running, NextFrom, LiveOwned;
    match a
    case DoExecute(valid) =>
      assert Rooted(s, s.displayed, ch[s.displayed]);
      if valid && !Full(s) {
        LaunchKeepsForest(s, ch, FreeSlot(s.procs, |s.terms|));
      }
    case DoHalt(shell) =>
      HaltFindsTheTop(s, ch);
      assert Rooted(s, s.curr, ch[s.curr]);
      if |ch[s.curr]| > 1 {
        assert ch[s.curr][1] < |s.procs|;
        HaltChildKeepsForest(s, ch, shell);
      } else {
        HaltRootKeepsForest(s, ch);
      }
    case DoTick =>
      TickKeepsForest(s, ch);
    case DoShow(t, _) =>
      if !s.terms[t].open {
        OpeningKeepsForest(s, ch, t);
      } else if t != s.displayed {
        FocusKeepsForest(s, s.(displayed := t), ch);
      }
  }

  lemma OpenIsStarted(s: State, ch: Chains, t: nat)
    requires Sized(s) && t < |s.terms| && s.terms[t].open && !s.terms[t].started
    ensures !Forest(s, ch)
  {
    assert AllRooted(s, ch) ==> Rooted(s, t, ch[t]);
  }

  ghost predicate Invariant(s: State) {
    Sized(s) && Mapped(s) && exists ch :: Forest(s, ch)
  }

  /** The guard is exact: a step taken from a state of the invariant keeps it if and only if it is allowed. */
  lemma GuardIsExact(s: State, a: Action)
    requires Invariant(s) && (a.DoShow? ==> a.t < |s.terms|)
    ensures HaltReady(s) && (Invariant(Step(s, a)) <==> Allowed(s, a))
  {
    hide Disjoint, Running, NextFrom, LiveOwned;
    var ch :| Forest(s, ch);
    HaltFindsTheTop(s, ch);
    if Allowed(s, a) {
      StepKeepsForest(s, ch, a);
    } else {
      var s', t := Step(s, a), if a.DoHalt? then s.curr else a.t;
      assert Rooted(s, t, ch[t]);
      assert s'.terms[t].open && !s'.terms[t].started;
      forall ch' ensures !Forest(s', ch') {
        OpenIsStarted(s', ch', t);
      }
    }
  }

  /** The states of a run, one more than its actions, each step being allowed. */
  ghost predicate IsRun(states: seq<State>, acts: seq<Action>) {
    && |states| == |acts| + 1
    && forall i :: 0 <= i < |acts| ==>
      HaltReady(states[i]) && Allowed(states[i], acts[i]) && states[i + 1] == Step(states[i], acts[i])
  }

  /** The stacks that go with a run. */
  ghost predicate ChainsOfRun(states: seq<State>, acts: seq<Action>, chains: seq<Chains>) {
    && |states| == |acts| + 1 == |chains|
    && (forall i :: 0 <= i < |states| ==> Forest(states[i], chains[i]) && Mapped(states[i]))
    && forall i :: 0 <= i < |acts| ==>
      (acts[i].DoShow? ==> acts[i].t < |states[i].terms|) && chains[i + 1] == StepChains(states[i], chains[i], acts[i])
  }

  /** Forest and mapping hold in every state of every run, and the chains move as stacks do. */
  lemma {:induction false} RunKeepsForest(states: seq<State>, acts: seq<Action>, ch: Chains) returns (chains: seq<Chains>)
    requires IsRun(states, acts) && Forest(states[0], ch) && Mapped(states[0])
    ensures ChainsOfRun(states, acts, chains) && chains[0] == ch
    decreases |acts|
  {
    hide Forest, Mapped, HaltReady, Step, StepChains;
    var n := |acts|;
    if n == 0 {
      chains := [ch];
    } else {
      var shorter := RunKeepsForest(states[..n], acts[..n - 1], ch);
      StepKeepsForest(states[n - 1], shorter[n - 1], acts[n - 1]);
      chains := shorter + [StepChains(states[n - 1], shorter[n - 1], acts[n - 1])];
    }
  }

  // --------------------------------------------------------- the displayed terminal

  /** A switch shows the terminal in all cases; for an open one that is all it does. */
  lemma SwitchShows(s: State, t: nat, shell: bool)
    requires Sized(s) && t < |s.terms|
    ensures Show(s, t, shell).displayed == t
    ensures s.terms[t].open ==> Show(s, t, shell) == s.(displayed := t)
    ensures t != s.displayed ==> Show(s, t, shell).terms[t].open
  {
  }

  /** No other step changes what is displayed. */
  lemma OthersKeepDisplay(s: State, a: Action)
    requires HaltReady(s) && !a.DoShow?
    ensures Step(s, a).displayed == s.displayed
  {
    hide PcbAddress, UserEntry, NextTerminal;
  }

  /** The terminal of the last switch among the first `k` steps, `first` when there is none. */
  function LastShown(acts: seq<Action>, first: nat, k: nat): nat
    requires k <= |acts|
  {
    if k == 0 then first else if acts[k - 1].DoShow? then acts[k - 1].t else LastShown(acts, first, k - 1)
  }

  lemma {:induction false} LastShownIsDisplayed(states: seq<State>, acts: seq<Action>, k: nat)
    requires IsRun(states, acts) && k <= |acts|
    ensures states[k].displayed == LastShown(acts, states[0].displayed, k)
  {
    hide Step, Show, HaltReady;
    if k > 0 {
      LastShownIsDisplayed(states, acts, k - 1);
      StepDisplays(states[k - 1], acts[k - 1]);
    }
  }

  lemma StepDisplays(s: State, a: Action)
    requires HaltReady(s) && Allowed(s, a)
    ensures Step(s, a).displayed == if a.DoShow? then a.t else s.displayed
  {
    if a.DoShow? {
      SwitchShows(s, a.t, a.shell);
    } else {
      OthersKeepDisplay(s, a);
    }
  }

  /** In every run an execute that succeeds puts its process on the terminal last switched to, and on no other. */
  lemma ExecutesGoToTheLastShown(states: seq<State>, acts: seq<Action>, chains: seq<Chains>, k: nat)
    requires IsRun(states, acts) && ChainsOfRun(states, acts, chains) && k < |acts|
    requires acts[k].DoExecute? && Execute(states[k], acts[k].valid).1
    ensures var t := LastShown(acts, states[0].displayed, k);
      && t < |chains[k]| == |chains[k + 1]| && chains[k + 1][t] != [] && chains[k + 1][t][1..] == chains[k][t]
      && states[k + 1].curr == t && states[k + 1].terms[t].currentPid == chains[k + 1][t][0]
      && forall u :: 0 <= u < |chains[k]| && u != t ==> chains[k + 1][u] == chains[k][u]
  {
    hide Disjoint, Running, NextFrom, LiveOwned, LastShown;
    LastShownIsDisplayed(states, acts, k);
    var s, ch := states[k], chains[k];
    FailedExecuteChangesNothing(s, ch, acts[k].valid);
    FullMeansAllChildren(s, ch);
    assert Rooted(s, s.displayed, ch[s.displayed]);
  }

  // -------------------------------------------------------------------- fairness

  /**
   Steps that leave the timer's order alone: ticks, halts, showing an open terminal, a
   failing execute, and one on a terminal that is both displayed and scheduled.
   */
  ghost predicate Quiet(s: State, a: Action)
    requires Sized(s)
  {
    match a
    case DoExecute(valid) => s.displayed == s.curr || !Execute(s, valid).1
    case DoHalt(_) => true
    case DoTick => true
    case DoShow(t, _) => t < |s.terms| && s.terms[t].open
  }

  lemma QuietSteps(s: State, a: Action)
    requires Sized(s)
    ensures a.DoTick? || a.DoHalt? ==> Quiet(s, a)
    ensures a.DoShow? && a.t < |s.terms| && s.terms[a.t].open ==> Quiet(s, a)
    ensures a.DoExecute? && (s.displayed == s.curr || !Execute(s, a.valid).1) ==> Quiet(s, a)
  {
  }

  lemma QuietStep(s: State, a: Action)
    requires HaltReady(s) && Allowed(s, a) && Quiet(s, a) && !a.DoTick?
    ensures var s' := Step(s, a);
      s'.curr == s.curr && s'.next == s.next && OpenFlags(s'.terms) == OpenFlags(s.terms)
  {
    hide PcbAddress, UserEntry, Full;
  }

  /** The number of ticks among the first `n` steps. */
  function TicksBy(acts: seq<Action>, n: nat): nat
    requires n <= |acts|
  {
    if n == 0 then 0 else TicksBy(acts, n - 1) + if acts[n - 1].DoTick? then 1 else 0
  }

  lemma {:induction false} TicksByGrows(acts: seq<Action>, i: nat, j: nat)
    requires i <= j <= |acts|
    ensures TicksBy(acts, i) <= TicksBy(acts, j)
    decreases j
  {
    if i < j {
      TicksByGrows(acts, i, j - 1);
    }
  }

  lemma {:induction false} FindTick(acts: seq<Action>, n: nat, k: nat) returns (i: nat)
    requires n <= |acts| && 1 <= k <= TicksBy(acts, n)
    ensures i < n && acts[i].DoTick? && TicksBy(acts, i + 1) == k
  {
    if k <= TicksBy(acts, n - 1) {
      i := FindTick(acts, n - 1, k);
    } else {
      i := n - 1;
    }
  }

  ghost predicate IsQuietRun(states: seq<State>, acts: seq<Action>) {
    IsRun(states, acts) && forall i :: 0 <= i < |acts| ==> Quiet(states[i], acts[i])
  }

  lemma {:induction false} QuietRunsFollowTheSchedule(states: seq<State>, acts: seq<Action>, i: nat)
    requires IsQuietRun(states, acts) && i <= |acts| && |states[0].terms| > 0
    ensures var (s, n) := (states[0], TicksBy(acts, i));
      && OpenFlags(states[i].terms) == OpenFlags(s.terms)
      && states[i].curr == AfterTicks(OpenFlags(s.terms), s.curr, s.next, n)
      && states[i].next == if n == 0 then s.next else states[i].curr
  {
    hide NextTerminal, HaltReady, Allowed, Quiet, AfterTicks, OpenFlags, PcbAddress, UserEntry, UserFrame;
    var s := states[0];
    if i == 0 {
      NoTicks(OpenFlags(s.terms), s.curr, s.next);
    } else {
      QuietRunsFollowTheSchedule(states, acts, i - 1);
      if acts[i - 1].DoTick? {
        OneTickMore(OpenFlags(s.terms), s.curr, s.next, TicksBy(acts, i - 1));
      } else {
        QuietStep(states[i - 1], acts[i - 1]);
      }
    }
  }

  /** Step `i` is one of the `m` ticks that follow the first `start` ones, and it schedules terminal `t`. */
  ghost predicate GivesTurn(states: seq<State>, acts: seq<Action>, start: nat, m: nat, i: nat, t: nat)
    requires |states| > |acts|
  {
    i < |acts| && acts[i].DoTick? && start < TicksBy(acts, i + 1) <= start + m && states[i + 1].curr == t
  }

  /**
   Any stretch of as many ticks as there are open terminals schedules each open terminal
   exactly once and no other, whatever quiet steps lie between the ticks.
   */
  lemma EveryTerminalGetsOneTurn(states: seq<State>, acts: seq<Action>, ch: Chains, start: nat, m: nat, t: nat)
    requires IsQuietRun(states, acts) && Forest(states[0], ch) && t < |states[0].terms|
    requires m == OpenCount(OpenFlags(states[0].terms)) && start + m <= TicksBy(acts, |acts|)
    ensures (exists i: nat :: GivesTurn(states, acts, start, m, i, t)) <==> states[0].terms[t].open
    ensures forall i: nat, j: nat |
      GivesTurn(states, acts, start, m, i, t) && GivesTurn(states, acts, start, m, j, t) :: i == j
  {
    hide Disjoint, AllRooted, LiveOwned, NextFrom, Rank, AfterTicks, TicksBy, Quiet, Allowed, Step, HaltReady;
    var s, open := states[0], OpenFlags(states[0].terms);
    forall i: nat | i < |acts| && acts[i].DoTick?
      ensures states[i + 1].curr == t <==> Selects(open, s.curr, s.next, TicksBy(acts, i + 1), t)
    {
      QuietRunsFollowTheSchedule(states, acts, i + 1);
    }
    RoundRobin(open, s.curr, s.next, start, t);
    if s.terms[t].open {
      var k: nat :| start < k <= start + m && Selects(open, s.curr, s.next, k, t);
      var i := FindTick(acts, |acts|, k);
      assert GivesTurn(states, acts, start, m, i, t);
    }
    forall i: nat, j: nat | GivesTurn(states, acts, start, m, i, t) && GivesTurn(states, acts, start, m, j, t)
      ensures i == j
    {
      SameTick(acts, i, j);
    }
  }

  lemma SameTick(acts: seq<Action>, i: nat, j: nat)
    requires i < |acts| && j < |acts| && acts[i].DoTick? && acts[j].DoTick?
    ensures TicksBy(acts, i + 1) == TicksBy(acts, j + 1) ==> i == j
  {
    if i < j {
      TicksByGrows(acts, i + 1, j);
    } else if j < i {
      TicksByGrows(acts, j + 1, i);
    }
  }

  // ----------------------------------------------------------------- restoration

  /** What a step does to the number of processes of terminal `t`: execute and opening +1, halt of a child -1. */
  ghost function Nesting(s: State, a: Action, t: nat): int
    requires HaltReady(s) && (a.DoShow? ==> a.t < |s.terms|)
  {
    match a
    case DoExecute(valid) => if valid && !Full(s) && s.displayed == t then 1 else 0
    case DoHalt(_) => if s.curr == t && HaltingPcb(s).parent != NO_PARENT then -1 else 0
    case DoTick => 0
    case DoShow(u, _) => if u == t && !s.terms[u].open then 1 else 0
  }

  ghost function NestingAfter(states: seq<State>, acts: seq<Action>, t: nat, k: nat): int
    requires IsRun(states, acts) && k <= |acts|
  {
    if k == 0 then 0 else NestingAfter(states, acts, t, k - 1) + Nesting(states[k - 1], acts[k - 1], t)
  }

  /** The last `d` elements: the part of a stack that lies deepest. */
  function Bottom(c: seq<nat>, d: nat): seq<nat>
    requires d <= |c|
  {
    c[|c| - d..]
  }

  lemma StepMovesStack(s: State, ch: Chains, a: Action, t: nat)
    requires Forest(s, ch) && HaltReady(s) && Allowed(s, a) && t < |ch|
    ensures |StepChains(s, ch, a)| == |ch|
    ensures var c, c' := ch[t], StepChains(s, ch, a)[t];
      && |c'| == |c| + Nesting(s, a, t)
      && forall d: nat :: d <= |c| && d <= |c'| ==> Bottom(c', d) == Bottom(c, d)
  {
    hide Disjoint, Running, NextFrom, LiveOwned;
    HaltFindsTheTop(s, ch);
    assert Rooted(s, s.curr, ch[s.curr]);
    if a.DoShow? {
      assert Rooted(s, a.t, ch[a.t]);
    }
  }

  lemma {:induction false} BottomStays(states: seq<State>, acts: seq<Action>, chains: seq<Chains>, t: nat, k: nat)
    requires IsRun(states, acts) && ChainsOfRun(states, acts, chains) && k <= |acts|
    requires t < |chains[0]| && forall i :: 0 <= i <= k ==> NestingAfter(states, acts, t, i) >= 0
    ensures |chains[k]| == |chains[0]|
    ensures |chains[k][t]| == |chains[0][t]| + NestingAfter(states, acts, t, k)
    ensures Bottom(chains[k][t], |chains[0][t]|) == chains[0][t]
  {
    hide Forest, Mapped, HaltReady, Allowed, Step, Nesting;
    if k > 0 {
      BottomStays(states, acts, chains, t, k - 1);
      StepMovesStack(states[k - 1], chains[k - 1], acts[k - 1], t);
    }
  }

  /**
   Restoration: when the executes and halts on terminal `t` balance and never go below
   where they started, then whatever happened elsewhere the terminal is back at the same
   process with the same chain of live ancestors, and every other live slot belongs to
   another terminal.
   */
  lemma BalancedRunRestores(states: seq<State>, acts: seq<Action>, t: nat) returns (ch: Chains, ch': Chains)
    requires IsRun(states, acts) && Invariant(states[0]) && t < |states[0].terms| && states[0].terms[t].open
    requires forall i :: 0 <= i <= |acts| ==> NestingAfter(states, acts, t, i) >= 0
    requires NestingAfter(states, acts, t, |acts|) == 0
    ensures Forest(states[0], ch) && Forest(states[|acts|], ch') && |ch'| == |ch| == |states[0].terms|
    ensures states[|acts|].terms[t] == states[0].terms[t] && ch'[t] == ch[t]
    ensures forall p :: 0 <= p < |states[|acts|].procs| && states[|acts|].procs[p] && p !in ch[t] ==>
      OwnedElsewhere(ch', t, p)
  {
    var s, s' := states[0], states[|acts|];
    ch :| Forest(s, ch);
    var chains := RunKeepsForest(states, acts, ch);
    ch' := chains[|acts|];
    assert |chains[0]| == |s.terms| && Bottom(ch[t], |ch[t]|) == ch[t];
    hide Disjoint, Running, NextFrom;
    assert ch'[t] == ch[t] && |ch'| == |ch| by {
      BottomStays(states, acts, chains, t, |acts|);
    }
    assert Rooted(s, t, ch[t]) && Rooted(s', t, ch'[t]);
    forall p | 0 <= p < |s'.procs| && s'.procs[p] && p !in ch[t] ensures OwnedElsewhere(ch', t, p) {
      assert Owned(ch', p);
    }
  }

  ghost predicate OwnedElsewhere(ch: Chains, t: nat, p: nat) {
    exists u :: 0 <= u < |ch| && u != t && p in ch[u]
  }

  // ------------------------------------------------------------- a failed execute

  /** Processes other than roots on the first `k` terminals. */
  function Children(ch: Chains, k: nat): nat
    requires k <= |ch|
  {
    if k == 0 then 0 else Children(ch, k - 1) + (if ch[k - 1] == [] then 0 else |ch[k - 1]| - 1)
  }

  function Inner(c: seq<nat>): seq<nat> {
    if c == [] then [] else c[..|c| - 1]
  }

  ghost function Elements(c: seq<nat>): set<nat> {
    set p | p in c
  }

  lemma {:induction false} DistinctCount(c: seq<nat>)
    requires forall i, j :: 0 <= i < j < |c| ==> c[i] != c[j]
    ensures |Elements(c)| == |c|
  {
    if c == [] {
      assert Elements(c) == {};
    } else {
      DistinctCount(c[1..]);
      assert c == [c[0]] + c[1..];
      assert Elements(c) == {c[0]} + Elements(c[1..]);
    }
  }

  ghost function ChildSet(ch: Chains, k: nat): set<nat>
    requires k <= |ch|
  {
    if k == 0 then {} else ChildSet(ch, k - 1) + Elements(Inner(ch[k - 1]))
  }

  ghost predicate OwnedBelow(ch: Chains, k: nat, p: nat)
    requires k <= |ch|
  {
    exists t :: 0 <= t < k && p in ch[t]
  }

  lemma {:induction false} ChildSetMembers(ch: Chains, k: nat, p: nat)
    requires k <= |ch|
    ensures p in ChildSet(ch, k) <==> exists t :: 0 <= t < k && p in Inner(ch[t])
    ensures p in ChildSet(ch, k) ==> OwnedBelow(ch, k, p)
  {
    if k > 0 {
      ChildSetMembers(ch, k - 1, p);
    }
  }

  lemma InnerIsNew(ch: Chains, k: nat)
    requires Disjoint(ch) && k < |ch|
    ensures ChildSet(ch, k) !! Elements(Inner(ch[k]))
  {
    hide ChildSet;
    forall p: nat | p in ChildSet(ch, k) ensures p !in Elements(Inner(ch[k])) {
      ChildSetMembers(ch, k, p);
      assert p !in ch[k];
    }
  }

  lemma {:induction false} ChildrenCount(ch: Chains, k: nat)
    requires Disjoint(ch) && k <= |ch|
    ensures |ChildSet(ch, k)| == Children(ch, k)
  {
    hide Disjoint, Elements;
    if k > 0 {
      ChildrenCount(ch, k - 1);
      InnerIsNew(ch, k - 1);
      InnerCount(ch, k - 1);
    }
  }

  lemma InnerCount(ch: Chains, k: nat)
    requires Disjoint(ch) && k < |ch|
    ensures |Elements(Inner(ch[k]))| == |Inner(ch[k])|
  {
    DistinctCount(Inner(ch[k]));
  }

  function Interval(low: nat, high: nat): (r: set<nat>)
    requires low <= high
    ensures |r| == high - low && forall p :: p in r <==> low <= p < high
    decreases high
  {
    if low == high then {} else Interval(low, high - 1) + {high - 1}
  }

  /** A slot from |ch| on is live exactly when it is in the inner part of some chain. */
  lemma LiveChildren(s: State, ch: Chains, p: nat)
    requires Forest(s, ch)
    ensures p in ChildSet(ch, |ch|) <==> |ch| <= p < |s.procs| && s.procs[p]
  {
    hide Disjoint, Running, NextFrom;
    ChildSetMembers(ch, |ch|, p);
    forall t | 0 <= t < |ch| ensures p in Inner(ch[t]) <==> |ch| <= p < |s.procs| && p in ch[t] {
      assert Rooted(s, t, ch[t]);
    }
  }

  lemma SubsetCount(a: set<nat>, b: set<nat>)
    requires a <= b
    ensures |a| <= |b| && (|a| == |b| <==> a == b)
  {
    assert b == a + (b - a);
  }

  lemma SameLength(s: State, ch: Chains)
    requires Forest(s, ch)
    ensures |ch| == |s.terms|
  {
  }

  /** All non-root slots are live exactly when the chains hold that many processes besides the roots. */
  lemma FullMeansAllChildren(s: State, ch: Chains)
    requires Forest(s, ch)
    ensures Children(ch, |ch|) <= |s.procs| - |s.terms|
    ensures Full(s) <==> Children(ch, |ch|) == |s.procs| - |s.terms|
  {
    hide Running, NextFrom, ChildSet, Children, Disjoint, AllRooted, LiveOwned;
    SameLength(s, ch);
    var live, all := ChildSet(ch, |ch|), Interval(|ch|, |s.procs|);
    ChildrenCount(ch, |ch|);
    forall p: nat ensures p in live <==> p in all && s.procs[p] {
      LiveChildren(s, ch, p);
    }
    SubsetCount(live, all);
    assert Full(s) <==> live == all;
  }

  /** execute fails exactly for an unusable image or when every child slot is in some chain, and then changes nothing. */
  lemma FailedExecuteChangesNothing(s: State, ch: Chains, valid: bool)
    requires Forest(s, ch)
    ensures Execute(s, valid).1 <==> valid && Children(ch, |ch|) < |s.procs| - |s.terms|
    ensures !Execute(s, valid).1 ==> Execute(s, valid).0 == s
  {
    hide Disjoint, Running, NextFrom;
    FullMeansAllChildren(s, ch);
    assert Rooted(s, s.displayed, ch[s.displayed]);
  }

  // ---------------------------------------------------------------- address space

  lemma EntryFrame(pid: nat)
    requires pid < 256
    ensures FrameOf(UserEntry(pid)) == (pid + 2) * MB_4
  {
    ModIs(UserEntry(pid), pid + 2, USER_FLAGS, MB_4);
  }

  lemma EntryIs(pid: nat)
    ensures UserEntry(pid) == (pid + 2) % 1024 * 0x40_0000 + 135
  {
  }

  /** The entry of a process is present, writable, open to user mode and maps one frame of 4 MB. */
  lemma EntryBits(pid: nat)
    ensures var entry := UserEntry(pid);
      entry % 2 == 1 && entry / 2 % 2 == 1 && entry / 4 % 2 == 1 && entry / 128 % 2 == 1 && entry / 4096 % 1024 == 0
  {
    hide UserEntry;
    var k, entry := (pid + 2) % 1024, UserEntry(pid);
    EntryIs(pid);
    ModIs(entry, k * 0x20_0000 + 67, 1, 2);
    ModIs(k * 0x20_0000 + 67, k * 0x10_0000 + 33, 1, 2);
    ModIs(entry, k * 0x10_0000 + 33, 3, 4);
    ModIs(k * 0x10_0000 + 33, k * 0x8_0000 + 16, 1, 2);
    ModIs(entry, k * 0x8000 + 1, 7, 128);
    ModIs(k * 0x8000 + 1, k * 0x4000, 1, 2);
    ModIs(entry, k * 1024, 135, 4096);
    ModIs(k * 1024, k, 0, 1024);
  }

  /** `m` bytes at `a` and `n` bytes at `b` have no byte in common. */
  predicate Apart(a: int, m: nat, b: int, n: nat) {
    a + m <= b || b + n <= a
  }

  /**
   Distinct pids have distinct 4 MB frames, none of them the first frame or the kernel's;
   and their PCBs, which hold `size` bytes, lie apart from each other in the kernel's frame.
   */
  lemma FramesAndPcbsAreDisjoint(p: nat, q: nat, size: nat)
    requires p < 256 && q < 256 && p != q && size <= KB_8
    ensures FrameOf(UserEntry(p)) % MB_4 == 0 && FrameOf(UserEntry(p)) >= MB_8
    ensures FrameOf(UserEntry(p)) != FrameOf(UserEntry(q))
    ensures MB_4 <= PcbAddress(p) && PcbAddress(p) + size <= MB_8
    ensures Apart(PcbAddress(p), size, PcbAddress(q), size)
  {
    hide FrameOf, UserEntry, PcbAddress;
    EntryFrame(p);
    EntryFrame(q);
    PcbAddresses(p);
    PcbAddresses(q);
  }

  /**
   The kernel stack of `p` grows down from its PCB towards the PCB of slot p + 1: when `d`
   bytes deep it is clear of every PCB, its own included, if and only if it leaves that
   PCB's `size` bytes free in the 8 KB between the two.
   */
  lemma StackClearsPcbsIff(p: nat, slots: nat, size: nat, d: nat)
    requires p < slots <= 256 && 0 < size <= KB_8
    ensures (forall q: nat :: q < slots ==> Apart(PcbAddress(p) - d, d, PcbAddress(q), size))
      <==> p + 1 == slots || d == 0 || d + size <= KB_8
  {
    hide PcbAddress;
    forall q: nat | q < 256 ensures PcbAddress(q) == MB_8 - KB_8 * (q + 1) {
      PcbAddresses(q);
    }
    if p + 1 < slots && d + size > KB_8 && d > 0 {
      assert !Apart(PcbAddress(p) - d, d, PcbAddress(p + 1), size);
    }
  }

  /** Resuming "no parent", as halt does when its execute fails, maps the kernel's own frame for the user. */
  lemma NoParentMapsTheKernel()
    ensures FrameOf(UserEntry(NO_PARENT)) == MB_4
    ensures PcbAddress(NO_PARENT) == MB_8
  {
  }
}

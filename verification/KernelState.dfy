/**
 The kernel's globals and the code that updates them in place: process_array, the PCBs,
 terminals[], current_id, curr_terminal, next_terminal, the page directory and esp0.
 Every method performs the transition of the same name in Processes.dfy.
 */
module KernelState {
  import opened Common
  import opened Processes
  import opened Residues
  import Scheduling

  const DIRECTORY_SIZE: nat := 1024
  const USER_INDEX: nat := 128 / 4
  const KERNEL_FLAGS: nat := 0x83
  const TABLE_FLAGS: nat := 3
  const NOT_PRESENT: nat := 2
  const USER_ADDRESS: nat := 0x8000000

  /** Not-present entries except the first page table and the kernel's own 4 MB frame. */
  function InitialDirectory(pageTable: nat): (r: seq<nat>)
    requires pageTable % 0x1000 == 0
    ensures |r| == DIRECTORY_SIZE && FrameOf(r[1]) == MB_4
  {
    [WithFlags(pageTable, TABLE_FLAGS), WithFlags(MB_4, KERNEL_FLAGS)] + seq(DIRECTORY_SIZE - 2, _ => NOT_PRESENT)
  }

  /**
   The low 4 MB go through the page table, the next 4 MB are one frame of the kernel's that
   user mode may not touch, and nothing else is present.
   */
  lemma DirectoryBits(pageTable: nat, i: nat)
    requires pageTable % 0x1000 == 0 && i < DIRECTORY_SIZE
    ensures var e := InitialDirectory(pageTable)[i];
      && (i == 0 ==> e % 2 == 1 && e - e % 0x1000 == pageTable && e / 128 % 2 == 0)
      && (i == 1 ==> e % 2 == 1 && e / 4 % 2 == 0 && e / 128 % 2 == 1 && e - e % 0x40_0000 == 0x40_0000)
      && (i > 1 ==> e % 2 == 0)
  {
    if i == 0 {
      var e, q := InitialDirectory(pageTable)[0], pageTable / 0x1000;
      assert e == q * 0x1000 + 3;
      hide InitialDirectory;
      ModIs(e, q, 3, 0x1000);
      ModIs(e, q * 2048 + 1, 1, 2);
      ModIs(e, q * 32, 3, 128);
      ModIs(q * 32, q * 16, 0, 2);
    }
  }

  /** The first execute, on the only open terminal, starts its root. */
  lemma FirstShell(s: State)
    requires Sized(s) && |s.terms| == 3 && s.displayed == s.curr == s.next == 0
    requires forall p :: 0 <= p < |s.procs| ==> !s.procs[p]
    requires forall t :: 0 <= t < 3 ==> s.terms[t].open == (t == 0) && !s.terms[t].started
    ensures Forest(Processes.Execute(s, true).0, [[0], [], []]) && Mapped(Processes.Execute(s, true).0)
  {
    var none: Chains := [[], [], []];
    assert forall p :: !Owned(none, p);
    RootLaunchKeepsForest(s, none);
    assert Push(none, 0, 0)[0] == [0] + none[0] == [0];
    assert Push(none, 0, 0) == [[0], [], []];
  }

  class Kernel {
    const processArray: array<bool>
    const pcbs: array<Pcb>
    const terminals: array<Terminal>
    const pageDirectory: array<nat>
    var displayed: nat
    var currTerminal: nat
    var nextTerminal: nat
    var esp0: nat

    ghost predicate Shaped()
      reads this
    {
      && processArray.Length == MAX_PROCESSES == pcbs.Length && terminals.Length == NUM_TERMINALS
      && pageDirectory.Length == DIRECTORY_SIZE
      && displayed < NUM_TERMINALS && currTerminal < NUM_TERMINALS && nextTerminal < NUM_TERMINALS
    }

    ghost function View(): (s: State)
      reads this, processArray, pcbs, terminals, pageDirectory
      requires Shaped()
      ensures Sized(s)
    {
      State(processArray[..], pcbs[..], terminals[..], displayed, currTerminal, nextTerminal,
            pageDirectory[USER_INDEX], esp0)
    }

    /** terminal_init, pit_init, paging_initialize and the first shell. */
    constructor Boot(pageTable: nat)
      requires pageTable % 0x1000 == 0
      ensures Shaped() && fresh(processArray) && fresh(pcbs) && fresh(terminals) && fresh(pageDirectory)
      ensures Forest(View(), [[0], [], []]) && Mapped(View())
      ensures pageDirectory[..] == InitialDirectory(pageTable)[32 := UserEntry(0)]
    {
      processArray := new bool[MAX_PROCESSES](_ => false);
      pcbs := new Pcb[MAX_PROCESSES](_ => Pcb(0, 0));
      terminals := new Terminal[NUM_TERMINALS](i => Terminal(i == 0, false, 0, 0));
      pageDirectory := new nat[DIRECTORY_SIZE];
      displayed, currTerminal, nextTerminal, esp0 := 0, 0, 0, 0;
      new;
      PagingInitialize(pageTable);
      FirstShell(View());
      var _ := Execute(true);
    }

    method PagingInitialize(pageTable: nat)
      requires Shaped() && pageTable % 0x1000 == 0
      modifies pageDirectory
      ensures pageDirectory[..] == InitialDirectory(pageTable)
    {
      for i := 0 to DIRECTORY_SIZE
        invariant forall j :: 0 <= j < i ==> pageDirectory[j] == NOT_PRESENT
      {
        pageDirectory[i] := NOT_PRESENT;
      }
      pageDirectory[0] := WithFlags(pageTable, TABLE_FLAGS);
      pageDirectory[1] := WithFlags(MB_4, KERNEL_FLAGS);
    }

    /** Both callers pass 4 MB as the program size. */
    method MapToUserPhy(programNumber: nat)
      requires Shaped()
      modifies pageDirectory
      ensures pageDirectory[..] == old(pageDirectory[..])[32 := UserEntry(programNumber)]
    {
      pageDirectory[USER_INDEX] := WithFlags(UserFrame(programNumber), USER_FLAGS);
    }

    method VurPhy(phy: nat, vir: nat)
      requires Shaped() && phy % 0x1000 == 0 && vir / 0x400000 < DIRECTORY_SIZE
      modifies pageDirectory
      ensures pageDirectory[..] == old(pageDirectory[..])[vir / 0x400000 := WithFlags(phy, USER_FLAGS)]
    {
      pageDirectory[vir / 0x400000] := WithFlags(phy, USER_FLAGS);
    }

    method Execute(valid: bool) returns (ok: bool)
      requires Shaped()
      modifies this, processArray, pcbs, terminals, pageDirectory
      ensures Shaped() && (View(), ok) == Processes.Execute(old(View()), valid)
      ensures pageDirectory[..] == old(pageDirectory[..])[32 := pageDirectory[32]]
    {
      if !valid {
        return false;
      }
      var processNum: nat;
      var t := displayed;
      if !terminals[t].started {
        processArray[t] := true;
        processNum := t;
      } else {
        if processArray[3] && processArray[4] && processArray[5] {
          return false;
        }
        processNum := 3;
        while processArray[processNum]
          invariant 3 <= processNum < MAX_PROCESSES
          invariant forall i :: 3 <= i < processNum ==> processArray[i]
          decreases MAX_PROCESSES - processNum
        {
          processNum := processNum + 1;
        }
        assert processNum == FreeSlot(processArray[..], NUM_TERMINALS);
        processArray[processNum] := true;
      }
      MapToUserPhy(processNum);
      var parent := if !terminals[t].started then NO_PARENT else terminals[t].currentPid;
      pcbs[processNum] := Pcb(processNum, parent);
      terminals[t] := terminals[t].(started := true, currentPid := processNum, curPcb := PcbAddress(processNum));
      currTerminal := t;
      esp0 := PcbAddress(processNum);
      ok := true;
    }

    method Halt(shell: bool)
      requires Shaped() && HaltReady(View())
      modifies this, processArray, pcbs, terminals, pageDirectory
      ensures Shaped() && View() == Processes.Halt(old(View()), shell)
      ensures pageDirectory[..] == old(pageDirectory[..])[32 := pageDirectory[32]]
    {
      var pcb := pcbs[SlotAt(terminals[currTerminal].curPcb)];
      processArray[pcb.pid] := false;
      if pcb.parent == NO_PARENT {
        terminals[currTerminal] := terminals[currTerminal].(started := false);
        var entered := Execute(shell);
        if entered {
          return;
        }
      }
      MapToUserPhy(pcb.parent);
      esp0 := PcbAddress(pcb.parent);
      terminals[currTerminal] :=
        terminals[currTerminal].(curPcb := PcbAddress(pcb.parent), currentPid := pcb.parent);
    }

    method PitHandler()
      requires Shaped()
      modifies this, pageDirectory
      ensures Shaped() && View() == Processes.Tick(old(View()))
      ensures pageDirectory[..] == old(pageDirectory[..])[32 := pageDirectory[32]]
    {
      var i := 1;
      while i < NUM_TERMINALS
        invariant 1 <= i <= NUM_TERMINALS && nextTerminal == old(nextTerminal)
        invariant Shaped() && View() == old(View())
        invariant Scheduling.NextTerminal(OpenFlags(terminals[..]), currTerminal, nextTerminal)
          == Scheduling.NextFrom(OpenFlags(terminals[..]), currTerminal, nextTerminal, i)
      {
        if terminals[(currTerminal + i) % NUM_TERMINALS].open {
          nextTerminal := (currTerminal + i) % NUM_TERMINALS;
          break;
        }
        i := i + 1;
      }
      var nextPid := terminals[nextTerminal].currentPid;
      VurPhy(SwitchFrame(nextPid), USER_ADDRESS);
      esp0 := (MB_8 - KB_8 * (nextPid + 1) - 4) % WORD;
      currTerminal := nextTerminal;
    }

    method SwitchToTerminal(t: nat, shell: bool)
      requires Shaped() && t < NUM_TERMINALS
      modifies this, processArray, pcbs, terminals, pageDirectory
      ensures Shaped() && View() == Processes.Show(old(View()), t, shell) && displayed == t
      ensures old(terminals[t].open) ==> View() == old(View()).(displayed := t)
      ensures pageDirectory[..] == old(pageDirectory[..])[32 := pageDirectory[32]]
    {
      SwitchShows(View(), t, shell);
      if displayed == t {
        return;
      }
      if terminals[t].open {
        displayed := t;
      } else {
        terminals[t] := terminals[t].(open := true);
        displayed := t;
        var _ := Execute(shell);
      }
    }
  }
}

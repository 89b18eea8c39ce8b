# A verified model of a small teaching operating system

The project models the stateful parts of a small x86 operating system and of its user
programs, and proves what they keep over whole runs. Code that updates globals, arrays or
linked nodes in place is written as classes and methods with loops; each method is proved
against a function on values, and the properties are lemmas about those functions.

| files | part of the system |
|---|---|
| `Processes.dfy`, `KernelState.dfy`, `Scheduling.dfy` | process slots, parent chains, the live user mapping, the timer's round robin |
| `Screens.dfy`, `ScreenText.dfy`, `Console.dfy` | one live screen and three saved pages that behave like three independent screens, and what text looks like on them |
| `Grep.dfy` | the streaming line search of grep over a 1024-byte buffer |
| `FileData.dfy`, `Descriptors.dfy`, `DirectoryListing.dfy`, `ImageLayout.dfy` | the read-only file system: blocks, positions, descriptors, directory, and the image they are read from |
| `BlinkList.dfy` | the linked list of blinking characters in its arena, and their timing |
| `LineEditor.dfy` | from keys to `terminal_read` |
| `Numbers.dfy`, `RawMemory.dfy`, `Arguments.dfy` | number printing, memory moves, command-line tokenising and joining |
| `Common.dfy`, `Residues.dfy` | bytes, C strings, arithmetic of remainders |

## Results in short

- Every allowed run of execute, halt, timer ticks and terminal switches keeps the live
  slots equal to the disjoint union of the terminals' parent chains, moves these chains as
  stacks, and keeps the user mapping and the kernel stack on the scheduled process. The
  guard under which a step is allowed is exact.
- Whatever is written where and whoever is displayed, each open terminal shows what a
  screen of its own would show that was sent that terminal's bytes only: the last 25 lines
  of these bytes, each with its last 80 bytes.
- A file-system image laid out as boot block, inode blocks and data blocks is read back:
  entries, sizes and the bytes of every range.
- Lines that are typed are read as typed, a backspace undoes the character before it, and
  a closed descriptor's number is free again.
- grep prints exactly the matching lines, for every pattern, if and only if every line has
  at most 1024 bytes and no newline left behind the buffer cuts a line; for all other files
  the exact output is given.
- Several things the code does differ from what its comments say; the code is kept, and
  the exact condition or a concrete case is a lemma: `Grep.PrintsMatchingLinesIff`,
  `Grep.TornBufferLosesAMatch`, `Processes.GuardIsExact`, `Processes.StackClearsPcbsIff`,
  `FileData.ReadsTheFileIffWithin`, `Descriptors.WholeFileIff`, `BlinkList.AddKeepsListIff`,
  `BlinkList.AddKeepsNoneAtZeroIff`, `BlinkList.AddAfterZeroMakesACycle`,
  `LineEditor.DeliveredAsTypedIff`, `DirectoryListing.LookUpFindsTheEntryIffFirst`.
- `ece391_getargs` stores one byte behind the `nbytes` it is given exactly when some
  arguments, from the first on and joined, just fill them (`Arguments.GetArgs`, with
  `Arguments.FullArgumentOverruns` as a case). Programs that pass the whole size of their
  buffer, as cat and grep do, are safe when their command line came through
  `ece391_execute` (`Arguments.CommandsNeverOverrun`).

Two places where code and comment part without a lemma of their own: `putc` is described
as printing to the console, and behind column 79 it goes on in the same row; the value
esp0 gets is the address of the process's own PCB, so that a process's kernel stack grows
down towards the PCB of the next slot (how deep it may become is
`Processes.StackClearsPcbsIff`).

## Model

| member | source | states |
|---|---|---|
| Processes.StepKeepsForest | student-distrib/syscall.c:281-327 | each allowed execute, halt, tick and terminal switch keeps the forest (chains from current_pid to the root with parent -1, disjoint, covering exactly the live slots), acts on the chains as push or pop, and leaves mapping and esp0 on the scheduled process |
| Processes.RunKeepsForest | student-distrib/syscall.c:409-451 | the same in every state of every allowed run, with the chains following as stacks |
| Processes.GuardIsExact | student-distrib/syscall.c:434-451 | a step from a good state leads to a good state if and only if it is allowed: a root may halt only while its terminal is both scheduled and displayed and the shell can be executed, and opening a terminal needs the shell |
| Processes.BalancedRunRestores | student-distrib/syscall.c:312-327 | executes and halts that balance on one terminal and never go below the start bring back its process, PCB and whole chain, whatever other terminals do, and every other live slot belongs to another terminal |
| Processes.FailedExecuteChangesNothing | student-distrib/syscall.c:265-298 | execute fails exactly for an unusable image or when the chains hold as many non-root processes as there are non-root slots, and then the state is unchanged |
| Processes.FullMeansAllChildren | student-distrib/syscall.c:286-289 | the limit branch is taken exactly when the chains' non-root processes fill the non-root slots, a count over all chains |
| Processes.HaltFindsTheTop | student-distrib/syscall.c:421-427 | halt's PCB is that of the innermost process of the scheduled terminal, and has no parent exactly when that is the root |
| Processes.LaunchKeepsForest | student-distrib/syscall.c:286-327 | starting a process in a free slot puts it on top of the displayed terminal's chain |
| Processes.HaltChildKeepsForest | student-distrib/syscall.c:421-451 | halting a child takes it off the scheduled terminal's chain and maps its parent |
| Processes.HaltRootKeepsForest | student-distrib/syscall.c:434-439 | a root halting on the displayed terminal is replaced in the same slot |
| Processes.OpeningKeepsForest | student-distrib/terminal.c:192-214 | opening a terminal starts its root in the slot of its own number |
| Processes.TickKeepsForest | student-distrib/schedule.c:109-116 | a tick keeps the forest and maps the process of the terminal it selects |
| Processes.SwitchShows | student-distrib/terminal.c:77-348 | after a switch the terminal is displayed in all three cases, and for an open one nothing else has changed |
| Processes.LastShownIsDisplayed | student-distrib/terminal.c:119-119 | in every run the displayed terminal is the one last switched to |
| Processes.ExecutesGoToTheLastShown | student-distrib/syscall.c:306-327 | in every run an execute that succeeds pushes its process on the chain of the terminal last switched to, schedules that terminal, and changes no other chain |
| Processes.RootHaltElsewhere | student-distrib/syscall.c:434-439 | a root that halts while another terminal is displayed is not replaced, and the new shell becomes a child on the displayed terminal |
| Processes.RootHaltFails | student-distrib/syscall.c:434-451 | what is left when a root halts and the shell cannot be executed: a free slot, no process, and the kernel's frame mapped |
| Processes.EntryBits | student-distrib/initpaging.c:75-87 | a process's directory entry is present, writable, open to user mode and maps one 4 MB frame |
| Processes.SwitchFrame | student-distrib/schedule.c:109-109 | the timer's address arithmetic gives the frame map_to_user_phy gives |
| Processes.UserFrame | student-distrib/initpaging.c:75-87 | the frame is 4 MB times (pid + 2), taken modulo the 32-bit space |
| Processes.FramesAndPcbsAreDisjoint | student-distrib/initpaging.c:82-83 | distinct pids have different frames above the kernel's, and PCBs that lie apart in the kernel's frame |
| Processes.StackClearsPcbsIff | student-distrib/syscall.c:365-365 | a kernel stack d bytes deep is clear of every PCB, its own process's included, if and only if d and a PCB's size together fit the 8 KB down to the next slot's PCB, or there is no next slot |
| Processes.NoParentMapsTheKernel | student-distrib/syscall.c:441-451 | what the excluded case of halt would map: the kernel's own frame |
| Processes.EveryTerminalGetsOneTurn | student-distrib/schedule.c:43-67 | from every good state, any m consecutive ticks with m terminals open schedule each open terminal exactly once and no other, with any halts, shows of open terminals, failing executes and executes on the scheduled terminal between the ticks |
| Processes.QuietRunsFollowTheSchedule | student-distrib/schedule.c:109-116 | over such a run the scheduled terminal depends on the number of ticks alone |
| Scheduling.RoundRobin | student-distrib/schedule.c:48-54 | the same for the selection loop alone, for any number of terminals and any stretch of ticks |
| Scheduling.TickAdvances | student-distrib/schedule.c:48-54 | the selected terminal is open and is the next one in the cyclic order of the open terminals |
| Scheduling.Select | student-distrib/schedule.c:48-54 | the loop returns the first open terminal after the current one in cyclic order, and the previous choice when there is no other |
| KernelState.Kernel.Boot | student-distrib/initpaging.c:21-62 | after booting the forest holds with one root, and the directory is the initial one with the root's frame as its user entry |
| KernelState.DirectoryBits | student-distrib/initpaging.c:23-52 | the initial directory maps the page table and one supervisor frame of 4 MB, and nothing else is present |
| KernelState.Kernel.Execute | student-distrib/syscall.c:281-366 | the updates of process_array, PCB, terminal, directory and esp0 are the transition Execute, and no other directory entry changes |
| KernelState.Kernel.Halt | student-distrib/syscall.c:421-451 | the in-place halt, with its nested execute and the fall-through when that fails, is the transition Halt |
| KernelState.Kernel.PitHandler | student-distrib/schedule.c:43-116 | the selection loop and the switch are the transition Tick |
| KernelState.Kernel.SwitchToTerminal | student-distrib/terminal.c:77-348 | showing or opening a terminal is the transition Show; the terminal is displayed afterwards, and for an open one nothing else changes |
| KernelState.Kernel.MapToUserPhy | student-distrib/initpaging.c:75-87 | entry 32 maps the process's frame and all other entries stay |
| KernelState.Kernel.VurPhy | student-distrib/initpaging.c:111-117 | only the entry of the virtual address changes |
| Screens.ScreensAreIndependent | student-distrib/terminal.c:77-348 | after every run each open terminal's screen and position are those of a blank screen that was sent that terminal's bytes since it opened, and no others |
| Screens.EventKeepsTranscript | student-distrib/terminal.c:418-444 | one event extends what a terminal has been sent, and its screen follows |
| Screens.SwitchEffects | student-distrib/terminal.c:77-348 | after a switch the terminal is displayed and open, a new one is blank, and no other screen changes |
| Screens.ScheduleEffects | student-distrib/schedule.c:48-54 | the timer schedules the next open terminal and execute the displayed one, and no screen changes |
| ScreenText.LineWritten | student-distrib/lib.c:246-251 | from any screen, a text without line breaks of any length stays in its row, where its last 80 bytes remain, and changes no other cell |
| ScreenText.NextLineWritten | student-distrib/lib.c:228-251 | a line break and a line: the cursor's column and row, every cell of the line, and every other cell, which moves up a row exactly when the break was on the last row |
| ScreenText.TextOnScreen | student-distrib/lib.c:219-326 | for every text, a blank screen that is sent it shows the text's last 25 lines |
| ScreenText.CellsOfText | student-distrib/lib.c:219-326 | the same cell by cell |
| ScreenText.TerminalsShowTheirText | student-distrib/terminal.c:418-444 | in every run each open terminal shows the last lines of the bytes it was sent since it opened |
| Console.Video.Putc | student-distrib/lib.c:219-262 | putc performs the abstract byte step on the live page and screen_x, screen_y, and touches no other page |
| Console.Video.Putm | student-distrib/lib.c:265-326 | putm performs the same step on the scheduled terminal's saved page and position, and touches nothing else |
| Console.Video.ResetVideo | student-distrib/lib.c:357-371 | rows 1 to 24 move up by one in place, with the standard attribute |
| Console.Video.ClearRow | student-distrib/lib.c:378-386 | the last row becomes blank and nothing else changes |
| Console.Video.TerminalWrite | student-distrib/terminal.c:418-444 | all bytes go to the scheduled terminal's screen, wherever it is kept, and the count is returned |
| Console.Video.Puts | student-distrib/lib.c:204-213 | kernel output goes to the displayed terminal's screen only |
| Console.Video.SwitchTo | student-distrib/terminal.c:77-348 | a switch changes no open terminal's screen, opens a closed one blank, and prints a message when the terminal is already displayed |
| Console.Video.SaveDisplayed | student-distrib/terminal.c:163-185 | saving page and position changes no screen and leaves the saved copy in step |
| Console.OneScreenWritten | student-distrib/lib.c:219-326 | writing one terminal's storage changes that terminal's screen and no other |
| Grep.DoOneFile | syscalls/ece391grep.c:9-66 | for every NUL-free file, every pattern and any initial buffer the exact printed lines, which are the matching lines of the file when they fit and none is cut; read is never asked for 0 bytes; the loops end |
| Grep.ScanBuffer | syscalls/ece391grep.c:28-57 | one pass over the buffer prints what its finished lines owe and shifts the unfinished one to the front |
| Grep.PrintsMatchingLinesIff | syscalls/ece391grep.c:20-60 | the output is the matching lines for every pattern if and only if every line has at most 1024 bytes and a newline left behind the buffer, if there is one, cuts no line |
| Grep.UncutPrintsLines | syscalls/ece391grep.c:33-39 | with fitting, uncut lines a left-over newline makes no difference to any pattern's output |
| Grep.CutLineIsLost | syscalls/ece391grep.c:33-39 | a cut line, taken as the pattern, is printed once less than it should be |
| Grep.PiecesAreCutLines | syscalls/ece391grep.c:33-39 | for every file the lines searched are the file's lines cut at 1024 bytes |
| Grep.TornBufferLosesAMatch | syscalls/ece391grep.c:33-33 | a concrete case: a file of fitting lines whose two-byte line is cut and whose only match is lost |
| Grep.Search | syscalls/ece391grep.c:42-51 | a line is printed exactly when the non-empty pattern occurs in it |
| Grep.Strncmp | syscalls/ece391support.c:35-46 | 0 exactly when the pattern stands at that place within the line |
| Grep.StrcpyDown | syscalls/ece391support.c:14-17 | the overlapping copy moves the rest of the buffer to its front |
| FileData.ReadData | student-distrib/filesystem.c:232-330 | -1, 0 or min(length, size) bytes, equal to the byte stream of the inode's blocks from the offset on, whatever the block numbers outside the range; the rest of the buffer is untouched |
| FileData.ReadsTheFileIffWithin | student-distrib/filesystem.c:265-270 | the bytes read are the file's slice cut at its end if and only if the read starts at 0 or stays within the size |
| ImageLayout.ReadLaidOut | student-distrib/filesystem.c:232-330 | on an image laid out as a concatenation of boot block, inode blocks and data blocks, read_data returns the slice of the blocks laid out for the file |
| ImageLayout.StreamIsLaidOut | student-distrib/filesystem.c:254-260 | the bytes found through the inode's block numbers are the file's blocks end to end |
| ImageLayout.CountsAreRead | student-distrib/filesystem.c:234-234 | counts and sizes are read as they were laid out, low byte first |
| ImageLayout.EntryIsRead | student-distrib/filesystem.h:6-23 | name, file type and inode of every directory entry are read as they were laid out |
| ImageLayout.NamedFileIsRead | student-distrib/filesystem.c:183-202 | looking a name up and reading its inode gives the file laid out under that name |
| FileData.BlockIsStream | student-distrib/filesystem.c:254-260 | the address arithmetic of one block finds the stream's bytes |
| Descriptors.Process.FileRead | student-distrib/filesystem.c:143-175 | count, bytes and new position of a regular read, with the reset when the size is overshot |
| Descriptors.Process.Cat | syscalls/ece391cat.c:21-28 | for every size, reading in chunks ends and delivers the file's prefix of length Delivered, leaving the position at the size or at 0 |
| Descriptors.WholeFileIff | student-distrib/filesystem.c:165-174 | chunks deliver the whole file exactly when one read suffices or the chunk size divides the file's |
| Descriptors.ChunkStep | student-distrib/filesystem.c:157-174 | each read advances within the size or ends the reading, so the position never exceeds the size |
| Descriptors.NextChunkFits | student-distrib/filesystem.c:265-270 | no chunk asks for bytes behind the overshoot of the last one, and for none behind the size when one read suffices or the chunks divide it |
| Descriptors.DescriptorsDoNotInterfere | student-distrib/syscall.c:96-181 | in every interleaving of open, close and read each descriptor ends as, and returns what, its own calls alone would give, also when two name one file |
| Descriptors.OpenTakesTheLeastFree | student-distrib/syscall.c:110-135 | open returns the least free descriptor of 2..7, and -1 exactly when there is none or no such file |
| Descriptors.OpenBinds | student-distrib/syscall.c:110-135 | an opened descriptor is used, at position 0 and has the operations of its file's type; no other one changes |
| Descriptors.CloseFrees | student-distrib/syscall.c:145-158 | close succeeds exactly on a used descriptor from 2 on, which is free afterwards, and changes no other |
| Descriptors.ClosedNumberIsReused | student-distrib/syscall.c:145-158 | reading or closing a closed descriptor again fails, and the next open gets the least of it and the numbers free before |
| Descriptors.UseIsBalanced | student-distrib/syscall.c:96-158 | in every session the descriptors in use number the opens minus the closes that succeeded |
| Descriptors.UsedCounts | student-distrib/syscall.c:353-359 | that number starts at 0 and is 6 exactly when none is free |
| Descriptors.ReadOutcomes | student-distrib/syscall.c:168-181 | read fails on bad, unused and write-only descriptors and moves no other one |
| Descriptors.ApplyKeepsTable | student-distrib/syscall.c:145-158 | descriptors 0 and 1 stay bound and positions stay within sizes |
| Descriptors.Process.OpenFile | student-distrib/syscall.c:96-135 | the loop over the table is the abstract open, and the descriptor it returns is bound to the file's start |
| Descriptors.Process.CloseFile | student-distrib/syscall.c:145-158 | close is the abstract close, and the descriptor is free afterwards |
| DirectoryListing.ListedNamesLeadBack | student-distrib/filesystem.c:183-224 | in a directory of distinct non-empty names a listing gives each name once and in order, and looking a listed name up finds that entry's type and inode |
| DirectoryListing.LookUpFindsTheEntryIffFirst | student-distrib/filesystem.c:183-202 | a listed name leads back to its entry exactly when no earlier slot has the name |
| DirectoryListing.Reader.List | syscalls/ece391ls.c:20-27 | the loop of ls delivers the names up to the end of the listing, and starts over afterwards |
| DirectoryListing.Reader.DirRead | student-distrib/filesystem.c:35-69 | successive calls give the entries' names, full 32-byte names included, then 0 and the start again |
| DirectoryListing.ReadDentryByName | student-distrib/filesystem.c:183-202 | the first entry with the name, or none |
| DirectoryListing.Strncmp | student-distrib/lib.c:623-637 | 0 exactly when the first 32 bytes spell the entry's name |
| BlinkList.BlinkClosedForm | fish/blink.S:64-86 | for all 16-bit lengths and from any point of the period, after k ticks an entry is k positions further, is on exactly in the first part of its period, and its countdown is given by the same residue |
| BlinkList.AddedAtZero | fish/blink.S:135-138 | a new entry is at the start of its period |
| BlinkList.BlinkTiming | fish/blink.S:64-86 | for lengths 1 to 32767, k ticks after it was added an entry is on exactly when k modulo both lengths together is below the on length, and the countdown is what is left of the length it is in |
| BlinkList.EveryEntryBlinks | fish/blink.S:49-99 | over every run of adds, removals, synchronisations and ticks the list survives, and an entry they do not remove or synchronise follows its closed form by the number of ticks |
| BlinkList.StepKeepsCourse | fish/blink.S:105-300 | every operation leaves a proper list with all entries somewhere in their periods, and only a tick changes the entries it spares |
| BlinkList.InStepForever | fish/blink.S:267-275 | two entries with the same timing keep it under every later tick |
| BlinkList.NodesAreTheUsedSlotsIff | fish/fish.c:160-175 | the nodes reachable from the head are exactly the slots with non-zero location if and only if no node is at location 0 |
| BlinkList.AddKeepsListIff | fish/blink.S:131-162 | an add leaves a linked list without repeats if and only if its location is off the screen or the first slot with location 0 is not a node; otherwise the links run in a cycle |
| BlinkList.AddKeepsNoneAtZeroIff | fish/blink.S:131-162 | an add keeps a list without nodes at location 0 such a list if and only if its own location is not 0 or no slot is free |
| BlinkList.AddAfterZeroMakesACycle | fish/blink.S:131-162 | an addition at location 0 and any further one leave a head that links to itself |
| BlinkList.BlinkArena.AddBlink | fish/blink.S:105-184 | for every location add prepends the entry, switched on, when it gets an unused slot, and fails exactly for a location off the screen or when no slot has location 0 |
| BlinkList.BlinkArena.FindHelper | fish/blink.S:351-379 | the newest node at the location, or NULL |
| BlinkList.BlinkArena.RemoveBlink | fish/blink.S:187-237 | exactly the newest node at the location is unlinked and cleared, the others keep order and content, and the walk ends |
| BlinkList.BlinkArena.AddThenRemove | fish/fish.c:52-66 | adding at a location and removing it restores list and arena |
| BlinkList.BlinkArena.SyncBlinks | fish/blink.S:240-300 | the second entry takes over the first's timing and nothing else changes |
| BlinkList.BlinkArena.RtcTasklet | fish/blink.S:49-99 | exactly the nodes of the list take one tick |
| BlinkList.BlinkArena.FindBlink | fish/blink.S:302-349 | a copy of the newest node at the location, or failure |
| BlinkList.BlinkArena.Malloc | fish/fish.c:160-170 | the first slot with location 0, or NULL |
| LineEditor.ReadsAreTheFinishedLines | student-distrib/terminal.c:384-406 | the reads of a session return the finished lines' deliveries, once each and in order |
| LineEditor.DeliveredAsTypedIff | student-distrib/terminal.c:392-401 | a line is delivered as typed plus newline exactly when it has at most 126 characters; what longer ones become |
| LineEditor.KeyLaws | student-distrib/keyboard.c:678-771 | a character is undone by a backspace and dropped when the line is full, a backspace at the start does nothing, Ctrl-L forgets the line |
| LineEditor.TypedLinesAreRead | student-distrib/keyboard.c:216-259 | lines of at most 126 characters that are simply typed are read as typed, each with its newline |
| LineEditor.ErasedCharacterIsNotRead | student-distrib/keyboard.c:735-771 | a character that is taken back at once changes no read, unless the line was full |
| LineEditor.Keyboard.Prout | student-distrib/keyboard.c:678-721 | the character is appended below the cap, count and index stay equal, and the cursor copies stay consistent |
| LineEditor.Keyboard.BackspaceKey | student-distrib/keyboard.c:735-771 | the last character of the line goes, always, because the cursor cannot be at the origin behind a typed character |
| LineEditor.Keyboard.EnterKey | student-distrib/keyboard.c:216-259 | the line becomes readable and the editor starts an empty one |
| LineEditor.Keyboard.HandOver | student-distrib/keyboard.c:222-227 | the typed bytes with their newline become the terminal's line, and the keyboard's buffer is cleared |
| LineEditor.Keyboard.NextRow | student-distrib/keyboard.c:230-258 | both branches leave consistent cursor copies and an empty line |
| LineEditor.Keyboard.ClearKey | student-distrib/keyboard.c:289-299 | Ctrl-L drops the line |
| LineEditor.Keyboard.TerminalRead | student-distrib/terminal.c:384-406 | the bytes returned are the waiting delivery, and the terminal's buffer is all NUL afterwards |
| LineEditor.Keyboard.CopyToTerminal | student-distrib/terminal.c:456-467 | the typed bytes are handed over and counted |
| Numbers.TextIsTheNumber | student-distrib/lib.c:395-425 | in every radix 2..36 the text evaluates to the number and has no leading zero |
| Numbers.TextIsUnique | student-distrib/lib.c:395-425 | it is the only text without leading zero that does |
| Numbers.TextIsShortest | student-distrib/lib.c:395-425 | no text with the same value is shorter |
| Numbers.DigitsAreTheLookupString | student-distrib/lib.c:396-396 | the digits are 0 to 9 and the capital letters |
| Numbers.Itoa | student-distrib/lib.c:395-425 | digits, NUL and reversal leave the text in the buffer and change nothing else |
| Numbers.Strrev | student-distrib/lib.c:431-444 | the string is reversed in place, also the variant of the support library |
| Numbers.PrintHexPadded | student-distrib/lib.c:131-141 | %#x prints exactly 8 digits that evaluate to the number |
| Numbers.PrintDecimal | student-distrib/lib.c:157-169 | %d is right for every signed 32-bit value including the least |
| RawMemory.Memmove | student-distrib/lib.c:592-610 | for every overlap the destination holds the old source bytes and nothing else changes |
| RawMemory.Memcpy | student-distrib/lib.c:546-583 | the same for disjoint ranges and for moves to lower addresses, at every alignment and length |
| RawMemory.Memset | student-distrib/lib.c:463-497 | exactly n bytes are set to the low byte of c, at every alignment and length |
| Arguments.JoinThenTokenise | syscalls/ece391emulate.c:131-157 | tokenising a program and its joined arguments gives both back |
| Arguments.TokenisedArgumentsSurvive | syscalls/ece391emulate.c:81-100 | any command's arguments can be joined and tokenised again unchanged |
| Arguments.WordsAreCleanAndFew | syscalls/ece391emulate.c:87-98 | n bytes hold at most (n + 1) / 2 arguments, none empty or with a separator |
| Arguments.WordBoundaries | syscalls/ece391emulate.c:87-98 | a word ends at the first space or newline, spaces in front are skipped, and a newline where a word would start ends the text |
| Arguments.Tokenise | syscalls/ece391emulate.c:67-100 | commands over 1023 bytes are refused; for all others the scan stays in the buffer, the pointers lead to "./" and the program and to the arguments, and fewer than 1024 are used |
| Arguments.GetArgs | syscalls/ece391emulate.c:131-157 | 0 exactly when the join and its NUL fit, and then the buffer holds the join; the byte behind the nbytes asked for is set to NUL exactly when some arguments from the first on just fill them, and is needed only then |
| Arguments.OverrunDecided | syscalls/ece391emulate.c:138-144 | copying one argument decides whether the buffer is overrun, and a later one cannot overrun it any more |
| Arguments.FullArgumentOverruns | syscalls/ece391emulate.c:139-141 | an argument of exactly nbytes bytes is a case |
| Arguments.CommandsNeverOverrun | syscalls/ece391emulate.c:76-77 | the arguments of any command that is accepted stay below a buffer of 1024 bytes |

## Left out

- Boot code, descriptor tables, interrupt controller, timer and RTC programming: hardware ports and constant tables.
- esp and ebp save and restore, iret, cli and sti, TLB flushes: execute, halt, a tick and a terminal switch are atomic steps; interrupts inside them are not modelled.
- The descriptor tables that execute fills and halt clears are in `Descriptors.dfy`, for one process, and not part of the PCBs of `Processes.dfy`.
- Fish mode, vidmap, the hardware cursor, and the characters blink.S pokes to the screen.
- Key echo on the screen and the scan-code table: keys arrive decoded; only the cursor copies that backspace depends on are kept.
- Switching terminals while a line is being typed, and pressing Enter twice without a read between.
- Grep.DoOneFile: files with NUL bytes are not covered, because printing and shifting use C strings; a read is taken to return min(asked, remaining), and a failing open, read or close is left out.
- Video memory is an array of cells of two bytes, so the 96 bytes of a page behind row 24 are two-byte cells too.
- Directory and device reads through a descriptor are given outcomes; the directory's shared position is modelled in `DirectoryListing.dfy`.
- FileData.ReadData: the bytes of the range read have to lie in the image; reads that the code lets run into memory behind it are not described.
- Descriptors.ApplyKeepsTable: a regular directory entry has to name an inode of the image.
- RawMemory.Memcpy: a move to higher addresses within an overlap is not described.
- The direction flag stays set after a backward memmove; the model has no flags.
- fork, exec, mmap and readdir of the emulation layer.
- The remaining cases of printf, and the user programs without state.

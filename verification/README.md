# A debugger that leaves no trace

This project models the ptrace debugger of `hw4` and proves that the program under it runs as if
it had never been patched, and stops exactly where it should. Four smaller parts of the repository
are modelled beside it: the command-line tokenizer of the debugger and its table of memory maps, and
`setjmp`/`longjmp` and the signal sets of the small C library in `hw3`.

## How it is built

The debugger is described three times, and the descriptions are proved to agree.

1. `Debugger.dfy` has the debugger as the object it is in the repository: fields, commands as
   methods, the process behind PEEK, POKE, SINGLESTEP and CONT, whole-word masks, loops. `Session.dfy`
   has the loop that reads lines and dispatches them.
2. `Commands.dfy` says byte by byte what a command does to the state: `Exec`, and `ExecAll` for a
   sequence of commands. Every method is proved to do what `Exec` says, for every state.
3. `Observer.dfy` is a debugger that never touches the program: it runs the unpatched process, knows a
   list of addresses, and looks at the program counter. `Refinement.dfy` proves that the real debugger
   refines it: the same commands return, the process is at every moment the observed one with a trap
   byte at each listed address, and the same things are printed as long as `disasm` is used where it
   is right.

`Manual.dfy` says what each command does for any program, in any state, with bounds and numbers written
out and without the helper functions the descriptions share; `CommandLine.dfy` does the same for what a
line of text means, and `Binary.dfy` for words as numbers. `Overwrites.dfy` is about the step-over when the program stores where the debugger writes.
`Sessions.dfy`, `Stops.dfy`, `Theorems.dfy`, `Lifecycle.dfy` and `Disassembly.dfy` draw the
consequences for users. They speak of *faithful* states of the debugger: every state that a session of
admissible commands reaches from the start is one (`StartsFaithful`, `FaithfulSession`). `Program(d)` is
the process with the saved byte of every breakpoint put back, computed from the debugger's own table
and memory.

The process may run for ever, and then `cont` does not return. `fuel` bounds how many instructions the
debugger waits for; a command that is still waiting has the result `None`. Every statement is for all
amounts of fuel, and more fuel never changes a result (`SessionWaitingLonger`).

## What is assumed of the program

Assumptions are predicates that the theorems name, never axioms. `h` is any set of addresses that
contains all breakpoints ever set in the session.

- `Good`, for each instruction about to be executed: it decodes, it is not a trap of the program's own,
  no address of `h` lies strictly inside it or among the bytes it reads, and it does not store into the
  text range or the seven bytes behind it. `Behaved` says this of a whole execution.
- `Proper`: the word of a breakpoint on the last text byte is inside the address space.
- ptrace requests succeed, there are no signals, and every start of the program begins with the same
  image.
- `Admissible`, for commands that are not refused: `load` of a program that behaves; `break` only in `h`;
  after a `set` the program still behaves; `delete` not of the oldest of several entries for one address.
  `disasm` is always admissible, and so is a `load` or a `break` that is refused.
- `Legible`, only where a theorem says that the output is the same: `disasm` where no address of `h`
  is strictly inside an instruction shown.

`NopsAreRunnable` and `StoreJumpExitRuns` show that the assumptions can be met, by programs with
breakpoints anywhere and by programs that store, branch and exit; `ExampleRuns` names one.

## What turned out otherwise

- *Breaking twice.* `break` on an address that already has a breakpoint warns and adds a second entry,
  which saves the trap byte as the original. Deleting the older entry then restores the program's byte
  while the address stays listed. `DeleteExact` gives the exact condition. The entry that is left does
  harm: stepping at its address executes the saved trap byte and leaves the process inside the
  program's instruction (`OrphanSkips`). `DuplicateDisarmed` and `DuplicateSkips` are sessions that show
  both in any program. Deleting the other entry too leaves nothing listed and a trap byte in the program
  (`TrapLeftBehind`), where the next `cont` stops with no breakpoint to report (`LeftTrapStops`);
  `EmptiedExact` says exactly when a session of `break` and `delete` that leaves
  nothing listed leaves the program as it was. `FreshSession` says that none of this arises when no
  address is broken twice.
- *`disasm` after `delete`.* A comment in the source says the output has no trap bytes. A saved word may
  hold the trap byte of a neighbour, and keeps it after the neighbour is deleted: `StaleWordShown` is a
  session in which `disasm` shows a breakpoint that no longer exists. The exact conditions: at an
  address that is not listed every breakpoint strictly inside the instruction must stand on a trap byte
  of the program itself (`PeekedLineExact`); at a listed address the same must hold of the breakpoints
  that were listed when it was set, whatever has happened since (`ShownLineExact`); and a whole
  `disasm` after any session is right if and only if this holds of every line it shows (`DisasmExact`).
- *Stepping over.* The step-over writes back the whole old word. `StoreLost` is a session in which an
  instruction of the program loses its store. `StepOverExact` says exactly when a step-over is one
  instruction of the program with the patches as before: no byte stored may change one of the seven
  behind the breakpoint, or be stored under another breakpoint farther away, and no byte read may lie
  under another breakpoint, unless the byte is the same anyway.
- *`longjmp` with 0.* ISO C11, section 7.13.2.1, asks that `setjmp` then return 1. The code returns 0.
  `ConformsUnlessZero` says exactly when the code conforms.
- *`set` to 0* changes no register: 0 is how the register handler is asked to read. `SetRegExact` says
  that the register reads back as the value exactly if that is not 0 or was there already. `set rip 0`
  still counts as a `set rip`, unless `rip` reads as -1, and then the next `cont` from a breakpoint
  executes nothing (`SetRipThenCont`).

## Model

| member | source | states |
|---|---|---|
| Words.PokeLow | hw4/command.hpp:211-212 | peeking a word, masking in another low byte and poking it back changes exactly one byte of memory, whatever the neighbours are |
| Words.PokeTrap | hw4/command.hpp:490-493 | the mask with the trap byte likewise changes exactly one byte |
| Words.PokeBack | hw4/command.hpp:223 | poking back an old word restores the eight bytes it was read from |
| Binary.PeekValue | hw4/command.hpp:211-212 | PEEK reads eight bytes as a little-endian number |
| Tracee.DecodePrefix | hw4/breakpoint.hpp:31-44 | decoding depends on no byte behind the instruction found |
| Tracee.StepOnPatch | hw4/command.hpp:244-246 | on a breakpoint the patched process stops just past the trap byte with nothing else changed |
| Tracee.StepOffPatch | hw4/command.hpp:207-221 | off a breakpoint one step of the patched process is one step of the unpatched one, with the patches unchanged |
| Tracee.StepsAppend | hw4/command.hpp:413-430 | executions compose: n and then k instructions are n + k instructions |
| BreakpointTable.Table.IndexOfAddr | hw4/breakpoint.hpp:80-89 | the search loop finds the first entry for an address, or -1 |
| BreakpointTable.Table.IncludeAddr | hw4/breakpoint.hpp:114-117 | true exactly for listed addresses |
| BreakpointTable.Table.Lookup | hw4/breakpoint.hpp:95-98 | the first entry for a listed address; the index -1 is never used |
| BreakpointTable.Table.Del | hw4/breakpoint.hpp:104-108 | removes one position and shifts the later ones down |
| BreakpointTable.LookupsAreInverse | hw4/breakpoint.hpp:80-98 | with distinct addresses, looking up by position and by address are mutually inverse |
| BreakpointTable.IndexOfRemove | hw4/breakpoint.hpp:104-108 | how the first position of every address changes when an entry is deleted |
| BreakpointTable.RemoveKeepsOrder | hw4/breakpoint.hpp:104-108 | deleting takes out one occurrence and keeps all others in order, for any table; distinct addresses stay distinct and exactly one goes |
| Debugger.Process.Continue | hw4/command.hpp:443-444 | the process runs to its first trap, fault or exit |
| Debugger.Debugger.constructor | hw4/command.hpp:62-70 | the initial state: nothing loaded, nothing listed |
| Debugger.Debugger.Release | hw4/command.hpp:72-77 | back to loaded, no process, flag cleared |
| Debugger.Debugger.RegHandler | hw4/command.hpp:129-159 | reads on 0 and writes otherwise; -1 for an unknown name and for a register that reads as -1 |
| Debugger.Debugger.SetReg | hw4/command.hpp:181-204 | does what the byte-level command does to the whole state |
| Debugger.Debugger.CheckThenRestoreSiReput | hw4/command.hpp:207-227 | restore, single-step and put back are a step-over; an exit in between leaves the table alone |
| Debugger.Debugger.WaitThenCheckExit | hw4/command.hpp:229-242 | an exit is reported and releases the process |
| Debugger.Debugger.CheckHitBreakPointOrNot | hw4/command.hpp:244-265 | reports the breakpoint the process stands on, or after cont stands just past, and then rewinds it; with no listed address there the process is left alone |
| Debugger.Debugger.Disasm | hw4/command.hpp:299-324 | the loop prints the sweep over the text |
| Debugger.Debugger.Load | hw4/command.hpp:326-343 | does what the byte-level command does to the whole state |
| Debugger.Debugger.ReputAllBreakpointsFrom | hw4/command.hpp:345-357 | the loop puts the trap byte at every entry not below the given address |
| Debugger.Debugger.Run | hw4/command.hpp:359-373 | does what the byte-level command does to the whole state |
| Debugger.Debugger.Start | hw4/command.hpp:375-411 | a fresh process with every entry re-armed |
| Debugger.Debugger.StepIn | hw4/command.hpp:413-430 | does what the byte-level command does to the whole state |
| Debugger.Debugger.Cont | hw4/command.hpp:432-447 | does what the byte-level command does to the whole state, and returns exactly when that does |
| Debugger.Debugger.DeleteBreakPoint | hw4/command.hpp:449-470 | word masks and erase are one byte of memory and one entry of the table |
| Debugger.Debugger.SetBreakPoint | hw4/command.hpp:472-501 | word masks and push_back are one byte of memory and one entry of the table; an entry is added exactly while running, for an address from text_begin to text_end, both included |
| Session.RunLine | hw4/hw4.cpp:39-72 | the first word of a line chooses the method that is called, with the arguments the other words give |
| Session.Interact | hw4/hw4.cpp:32-74 | the loop over input lines runs the commands those lines stand for, up to exit |
| Session.Sdb | hw4/hw4.cpp:11-74 | the same from a new debugger, after loading the program named on the shell's command line |
| CommandLine.FirstWordDecides | hw4/hw4.cpp:34-72 | for every command name and synonym: a line beginning with it is that command, no other line is, and exit and q end the session |
| CommandLine.NextWordsAreArguments | hw4/command.hpp:188-194 | what the second and third word give each command, and when they are missing |
| CommandLine.LineOfWords | hw4/parser.hpp:112-123 | a line joined from proper words is read as those words |
| CommandLine.RegisterNames | hw4/command.hpp:129-151 | each of the 18 names reaches its own register, and no other name reaches any |
| CommandLine.StrtolReads | hw4/command.hpp:309 | signed hexadecimal, octal and decimal text reads back as its number, cut to a long and taken as unsigned |
| CommandLine.AtoiReads | hw4/command.hpp:454-458 | decimal text reads back as its number, if that is an int |
| Manual.RefusedWhen | hw4/command.hpp:449-458 | which commands are refused in which state or without an argument, with what message, and that nothing else happens |
| Manual.LoadDoes | hw4/command.hpp:326-343 | the image, the range of the section or of none, the message |
| Manual.StartDoes | hw4/command.hpp:375-411 | every byte of the fresh process: a trap where listed from text_begin on, else the image's |
| Manual.SiDoes | hw4/command.hpp:413-430 | one instruction of the process, with a saved byte in memory when its address is listed, also when it traps, faults or exits |
| Manual.ContFreely | hw4/command.hpp:432-447 | the process runs to its first trap or fault and is moved back by one exactly if the address before is listed, or it exits, or it is still running |
| Manual.ContOver | hw4/command.hpp:207-265 | the same from a listed address, after a step-over |
| Manual.ContWithoutBreakpoints | hw4/command.hpp:249-254 | with an empty table the process is left where it stopped, past a trap or at a fault, and no breakpoint is reported |
| Manual.RunDoes | hw4/command.hpp:359-373 | start and cont, or a message and cont |
| Manual.SetDoes | hw4/command.hpp:181-204 | exactly the named register takes a nonzero value |
| Manual.BreakDoes | hw4/command.hpp:472-501 | an entry is added if and only if the address is from the first to the last of the text; the warning names the first position |
| Manual.DeleteDoes | hw4/command.hpp:449-470 | entry i goes, and its low byte is put back, if and only if there is one |
| Manual.DisasmDoes | hw4/command.hpp:299-324 | one to ten lines, each where the one before ends, all in the text, fewer than ten only at its end |
| Refinement.SameLine | hw4/breakpoint.hpp:25-45 | a word that is right except where breakpoints have been disassembles like the program, when none has been strictly inside the instruction |
| Refinement.RearmPatches | hw4/command.hpp:345-357 | re-arming skips no entry of the text and patches exactly the listed addresses |
| Overwrites.StepOverExact | hw4/command.hpp:207-227 | restore, step and put back are one instruction of the program with the patches as before if and only if what it stores and reads, known before the step, collides with no byte that differs |
| Refinement.StepOverRefines | hw4/command.hpp:207-227 | so they are for every program that does not store into its text or read under a breakpoint |
| Refinement.ResumeRefines | hw4/command.hpp:443-444 | the patched process stops just past the trap byte exactly where the unpatched one first reaches a listed address, and exits when that exits |
| Refinement.BreakRefines | hw4/command.hpp:472-501 | setting a breakpoint keeps the debugger coupled to the observer, duplicates included |
| Refinement.DeleteRefines | hw4/command.hpp:449-470 | so does deleting one, unless it is the oldest of several for its address |
| Refinement.ContRefines | hw4/command.hpp:432-447 | cont returns exactly when the observer's does, with the same output and the process at the same place |
| Refinement.DisasmRefines | hw4/command.hpp:299-324 | whatever disasm prints, it changes nothing else; legible, it prints what the observer prints |
| Refinement.CommandRefines | hw4/hw4.cpp:34-72 | every admissible command keeps the coupling, and prints what the observer prints if it is legible |
| Refinement.SessionRefines | hw4/hw4.cpp:32-74 | so does every sequence of commands: the coupling needs no condition on disasm, the output does |
| Sessions.UnpatchInverts | hw4/command.hpp:449-501 | putting the saved bytes back gives exactly the unpatched process |
| Sessions.FaithfulSession | hw4/hw4.cpp:32-74 | every session of admissible commands from a faithful state returns from the same commands and ends in a faithful state, the observer's but for the output, and with the output if all is legible |
| Sessions.PatchInvariant | hw4/command.hpp:207-227 | while running: trap byte at every entry, all in the text, first entries hold the program's byte and later ones the trap byte, every other text byte is the program's |
| Sessions.Transparent | hw4/command.hpp:207-265 | without set, the process with its patches read back is a state of the program's own execution from its entry |
| Stops.RunUntilStops | hw4/command.hpp:443-445 | running until a listed address finds the least such position, or the end before any |
| Stops.ContStopsNext | hw4/command.hpp:432-447 | cont stops at the least listed position after the present one, the present one included just after set rip |
| Stops.ContsVisit | hw4/command.hpp:432-447 | k times cont is at the k-th listed position |
| Stops.StopsNest | hw4/command.hpp:432-447 | with more breakpoints the stops with fewer are a subsequence: same positions, increasing numbers |
| Theorems.SessionWaitingLonger | hw4/command.hpp:443-444 | a session that returns has the same result however much longer the debugger is ready to wait |
| Theorems.ContExact | hw4/command.hpp:432-447 | one cont of the real debugger: least listed position, registers and data of the program there, or loaded when the program exits first; the table intact, saved words included |
| Theorems.ContReturns | hw4/command.hpp:432-447 | cont returns whenever there is such a position or an end, and runs on exactly in the first case |
| Theorems.ContsExact | hw4/command.hpp:244-265 | repeated cont skips no listed position and sees none twice |
| Theorems.ContsComplete | hw4/command.hpp:432-447 | every listed position is reached, by as many cont as there are such positions up to it |
| Theorems.MoreBreakpointsStopMore | hw4/command.hpp:432-447 | two debuggers on one process: the stops with fewer breakpoints are a subsequence of the stops with more, position by position of the program's execution |
| Theorems.SisExact | hw4/command.hpp:413-430 | n times si is exactly n instructions of the program, on breakpoints or not, flag set or not, with the patches as before and the table intact, saved words included |
| Theorems.SetRipThenCont | hw4/command.hpp:203-204 | set rip to a breakpoint, or with 0 on one, and cont: no instruction runs, the breakpoint is reported with the program's instruction, only rip differs |
| Theorems.FlagMeansJustSet | hw4/command.hpp:439-446 | for any program and commands: the flag is true if and only if some set rip was carried out and no command since then let the process run |
| Theorems.SetRegExact | hw4/command.hpp:181-204 | the register reads back as the value if and only if that is not 0 or was there already; nothing else changes; the flag is raised by every set rip but one taken for an unknown register |
| Disassembly.ShowsNextInstruction | hw4/breakpoint.hpp:25-45 | the disassembler shows exactly the bytes and the instruction the process executes next, if they fit its seven bytes, and moves on by their number |
| Disassembly.HitShowsNextInstruction | hw4/command.hpp:263-264 | a breakpoint is reported with the program's instruction there, not with the trap |
| Disassembly.DisasmShowsProgram | hw4/command.hpp:299-324 | disasm prints the program as loaded, when nothing that ever carried a breakpoint is strictly inside what it prints |
| Disassembly.PeekedLineExact | hw4/command.hpp:313-318 | the line for an unlisted address is the program's if and only if every breakpoint strictly inside the instruction stands on a trap byte of the program itself |
| Disassembly.FirstKept | hw4/breakpoint.hpp:80-108 | no command but the delete of that very entry changes the entry found for an address |
| Disassembly.ShownLineExact | hw4/command.hpp:313-318 | the line for a listed address, after any commands since it was set, is the program's if and only if that held of the breakpoints there were just before |
| Disassembly.NotedSession | hw4/command.hpp:491-499 | over every session each saved word is the program's with trap bytes at exactly the addresses listed when it was saved |
| Disassembly.SweepExact | hw4/command.hpp:299-324 | a sweep equals the survey of the program if and only if each of the survey's lines is right |
| Disassembly.DisasmExact | hw4/command.hpp:299-324 | after any session disasm prints the program as loaded if and only if no breakpoint that counts is strictly inside an instruction it shows, but on a trap byte of the program |
| Lifecycle.SessionSound | hw4/command.hpp:326-343 | for any program and commands: nothing is listed before a load, no-load is never re-entered, image and text range never change |
| Lifecycle.LoadsOnce | hw4/command.hpp:326-331 | after one successful load every other is refused |
| Lifecycle.ExitKeepsTable | hw4/command.hpp:72-77 | however the process ends, the debugger is loaded again with the same table |
| Lifecycle.RunIsStartThenCont | hw4/command.hpp:364-367 | run from loaded equals start and then cont |
| Lifecycle.Restart | hw4/command.hpp:375-411 | after an exit, even in the middle of a step-over, start gives a fresh process with every breakpoint in place |
| Lifecycle.OrderDoesNotMatter | hw4/command.hpp:449-501 | after any setting and deleting, close together or not, the process depends only on the set of addresses left |
| Lifecycle.NoBreakpointsNoPatches | hw4/command.hpp:449-501 | with all breakpoints deleted by safe deletes the process is the program, byte for byte |
| Lifecycle.EmptiedExact | hw4/command.hpp:449-501 | after any breaks and deletes that leave nothing listed, safe or not, the process is the program if and only if for each address the entry deleted last had saved the program's byte |
| Lifecycle.DeleteExact | hw4/command.hpp:463-469 | deleting keeps the debugger faithful if and only if it does not take the oldest of several entries where the program has no trap byte of its own; otherwise the address stays listed, unpatched, with a trap byte saved for it |
| Lifecycle.OrphanSkips | hw4/command.hpp:207-227 | after such a delete si at the address executes no instruction and leaves rip one byte further on |
| Lifecycle.FreshSession | hw4/command.hpp:486-488 | when no address is broken twice, addresses stay distinct and every delete is safe |
| Witnesses.NopsAreRunnable | hw4/command.hpp:375-411 | the assumptions hold of some programs, for every set of breakpoints |
| Witnesses.StoreJumpExitRuns | hw4/command.hpp:229-242 | and of programs that store, branch and exit |
| Witnesses.DuplicateDisarmed | hw4/command.hpp:486-499 | breaking twice and deleting the first leaves the address listed and its breakpoint gone, in any program |
| Witnesses.DuplicateSkips | hw4/command.hpp:207-227 | and then si with the process standing there skips into the program's instruction |
| Witnesses.TrapLeftBehind | hw4/command.hpp:449-470 | deleting both entries, oldest first, leaves nothing listed and the trap byte in the program |
| Witnesses.LeftTrapStops | hw4/command.hpp:249-254 | a cont after that stops behind the left-over trap byte and is not moved back |
| Witnesses.BreakInSection | hw4/command.hpp:482-485 | load, start and break list the address if and only if it is in the section of the file, both ends included |
| Witnesses.StaleWordShown | hw4/command.hpp:316-317 | after deleting a breakpoint inside an instruction, disasm may still show its trap byte |
| Witnesses.StoreLost | hw4/command.hpp:222-226 | stepping over a breakpoint on an instruction that stores just behind itself loses the store |
| Maps.OrderIsStrict | hw4/parser.hpp:29-32 | on ranges apart from each other the order is strict, total, and that of addresses |
| Maps.OrderExact | hw4/parser.hpp:29-32 | on all ranges: the one that begins lower comes first, unless one lies within the other, and then neither does |
| Maps.NotWeakInGeneral | hw4/parser.hpp:29-32 | on overlapping ranges, being neither less nor greater is not transitive, as a map needs it to be |
| Maps.MapsParser | hw4/parser.hpp:34-62 | the loop assigns every line of six fields or more, in order, and skips the others |
| Maps.AcceptedExact | hw4/parser.hpp:48 | exactly the lines of six fields or more are kept, in their order |
| Maps.AssignReplaces | hw4/parser.hpp:59 | assigning under an equivalent key replaces the region and keeps the key |
| Maps.AssignAdds | hw4/parser.hpp:59 | any other key adds one entry, before the first that is not less |
| Maps.KeepsEveryLine | hw4/parser.hpp:34-62 | on ranges apart from each other the map keeps one entry for each accepted line, in address order |
| Tokenizer.ParseLine | hw4/parser.hpp:112-123 | the loop terminates and yields the pieces between delimiters without the empty ones, the last always kept |
| Tokenizer.ParseIsWellFormed | hw4/parser.hpp:112-123 | the result is not empty, no word has the delimiter in it, none but the last is empty |
| Tokenizer.JoinThenParse | hw4/parser.hpp:112-123 | parsing undoes joining for exactly the lists that parsing can produce |
| Jump.Processor.Setjmp | hw3/libmini64.asm:117-130 | returns 0 to the caller and saves in the jmp_buf, and nowhere else, what that return consists of |
| Jump.Processor.Longjmp | hw3/libmini64.asm:133-143 | loads all of it back and takes the low half of the value as result |
| Jump.SavedLayout | hw3/libmini64.asm:117-130 | which word of the jmp_buf holds which register |
| Jump.RestoredLayout | hw3/libmini64.asm:133-143 | and from which word each is taken back |
| Jump.JumpReturnsToSetjmp | hw3/libmini64.asm:117-143 | after every run that leaves the jmp_buf alone, at any depth, longjmp reaches the state of setjmp's own return, with the value as result |
| Jump.ConformsUnlessZero | hw3/libmini64.asm:134-143 | the result is the one the C standard requires if and only if the low half of the value is not 0 |
| Jump.Processor.CallEach | hw3/testcase/jmp1.c:21-28 | a program that loops by jumping back, wherever longjmp leaves rip, calls each of its functions once, in order, and ends |
| Binary.BitIsTested | hw3/libmini.c:9-10 | testing against a shifted one reads that bit of the number |
| SignalSet.AddBit | hw3/libmini.c:52-60 | adding a signal sets bit sig - 1 of the number and no other |
| SignalSet.DelBit | hw3/libmini.c:63-71 | deleting it clears that bit and no other |
| SignalSet.AddToEmpty | hw3/libmini.c:9-10 | added to the empty set, a signal gives two to the power sig - 1 |
| SignalSet.OpsRefine | hw3/libmini.c:51-93 | after any sequence of empty, fill, add and delete the bits of the mask, read as a number, are the set of signals 1 to 31 those operations mean; illegal signals change nothing |
| SignalSet.Memset | hw3/libmini.c:12-17 | the byte loop fills the first n bytes of any buffer with the low byte of the value and leaves the rest |
| SignalSet.NarrowValue | hw3/libmini.c:15 | storing an int in a byte of the buffer keeps its low byte, whatever the rest is |
| SignalSet.Library.SigAddSet | hw3/libmini.c:52-60 | -1 and EINVAL with the set unchanged for no set or an illegal signal, else 0 and exactly bit sig - 1 of the number set |
| SignalSet.Library.SigDelSet | hw3/libmini.c:63-71 | likewise, with exactly that bit cleared |
| SignalSet.Library.SigEmptySet | hw3/libmini.c:74-82 | -1 and EINVAL for no set, else the empty mask |
| SignalSet.Library.SigFillSet | hw3/libmini.c:85-93 | -1 and EINVAL for no set, else the full mask |
| SignalSet.Library.SigIsMember | hw3/libmini.c:42-49 | answers bit sig - 1 of the number, and then leaves errno alone |

## Left out

- The instruction set is a small stand-in for x86-64, and decoding is part of the model; Capstone is not.
- Signals, failing ptrace requests, `waitpid` decoding, and the forked child: the process stops or exits.
- The program's own trap flag: `set flags` changes only the zero flag the conditional jump looks at.
- `help`, `list`, `get`, `getregs`, `dump`, `vmmap` and the printed process number only display.
- `exit` ends the session; the release it does just before has no effect that a command could see.
- ELF parsing is I/O: `load` is given the entry point, the text range, if any, and the initial process.
- The section name table and the options of the shell's command line.
- Reading `/proc/<pid>/maps`: `MapsParser` is given the fields of each line; a line without a `-` in its first field does not occur. Its map is a sorted list, and its lookup the first key that is not less.
- `memset` leaves its loop counter uninitialized; the model starts it at 0, as it must be meant.
- System call wrappers, `sigaction`, `sleep`, `perror` in `hw3`, and all of `hw1` and `hw2`.
- The signal mask of a jmp_buf: `setjmp` as written does not touch it.
- Tracee.DecodePrefix: is a property of the small decoder; of x86-64 and Capstone it is an assumption behind the model.
- Debugger.Debugger.WaitThenCheckExit: has no death by a signal, for which the source asserts; the process stops or exits.
- Disassembly.DisasmShowsProgram: one direction only, from a state alone; `DisasmExact` is the exact condition, from the session.
- Overwrites.StepOverExact: leaves out breakpoints strictly inside the instruction stepped over, which change what is decoded.
- Refinement.SessionRefines: speaks of sessions under the assumptions above; outside them the program can observe its patches.

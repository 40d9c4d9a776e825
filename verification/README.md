# cdbg: a verification model

Cdbg is a command-line debugger for ARM64 on macOS. This project models the
parts of it whose correctness rests on several functions working together,
and proves what they promise. `dafny verify dfyconfig.toml` checks everything.

## What is modelled

**Stopping and resuming** (`Common`, `Machine`, `Slots`, `Overlay`, `Breakpoint`,
`Stepping`, `Debugger`, `Repl`). The debuggee is an abstract machine: what an
instruction does and which bytes it loads and stores are parameters, the words it
is fetched from are the patched text, and `BRK #0` and an access that the debug
registers match trap without progress. The debugger's table of breakpoints, its
state and its pid are updated in place, as in `cdbg_t`. Three facts carry the
protocol. The *overlay*: the text is the original with `BRK` exactly at the
enabled entries (and at a planted temporary breakpoint, which may sit on top of
one). *Disabled only at the pc*: whenever the debuggee is stopped. *Tracking*:
registers and data are those the program reaches with no debugger after the
same number of instructions, in every state, whatever calls failed. `Session`
runs any sequence of commands and keeps all three. What each command achieves is
stated of the instructions run and the requests made: a *run free of traps* between
two stops, the *line* of each instruction `step` runs, the *course* of `next` over
calls (`Stepping`), and the reason the debuggee stopped for.

Every system call may fail, and all that concern a process do once it is gone.
The model counts such failures in ghost fields
(`faults`, `waitFaults`, and `leaks` for those that may leave a debug register
armed), so each promise says which failures it survives: tracking survives all
of them, the relation of state, pid and tables all but a failing waitpid, the
overlay those on debug registers; the account of armed watchpoints is promised
as long as none occurs. Signals are counted too (`signals`), because one may stop or
end the process anywhere.

**Hardware watchpoints** (`WatchEncoding`, `WatchBank`). Register words bit by
bit against the DBGWVR<n>_EL1 and DBGWCR<n>_EL1 descriptions of the Arm
Architecture Reference Manual (DDI 0487), and the registers of all threads
against the table: slots, rollback, the step with everything disarmed. Threads
end and appear at every waitpid. The bank keeps *account*: on each listed thread
exactly those watchpoints are armed that were armed since it came onto the list.

**Deletion by number** (`Deletion`, `LifoUndo`), the **line-number program**
(`Words`, `Leb128`, `ReaderSteps`, `LineMachine`, `LineProgram`, `LineEncoder`,
`LineParser`) against
sections 6.2.5 and 7.6 of DWARF Version 5, **lookups** over the line table
(`LineLookup`), the **expression language** (`ExprSyntax`, `ExprEval`, `ExprLaws`,
`Scalars`) and **stack unwinding** (`Unwind`).

Words are numbers below 2^64 or 2^32. Where the source works on their bits, `Words`
defines the operators digit by digit, and their arithmetic is proved;
the watchpoint control words are bit-vectors.

The evaluator's three functions call each other on the same node; they end by
the measure (expression, rank), the pointer evaluation ranking above the value
and that above the place.

## Findings

Where the code does not do what it is meant to, the exact condition is proved:

- `break` at an address with an enabled breakpoint makes the second entry save
  a trap. Some order of deletion then leaves `BRK` behind, exactly in that case
  (`Overlay.RepeatIsUndoneIff`). `del all` fails to restore the original text
  exactly if at some address the first enabled entry saved something else or, with
  none enabled, the text has something else (`Overlay.DelAllRestoresIff`). It does
  restore it right after `break` (`Overlay.RepeatThenDelAll`) and after a breakpoint
  repeated where it had been hit (`Overlay.RepeatWhereHitIsUndone`), and never does
  right after a stop at one repeated while armed (`Overlay.RepeatThenHitLeavesTrap`;
  `Repl.BreakTwiceHitDelete` is the input). The flag `repeated` marks such a session.
- `continue` ends the whole prompt loop, with no failing call, if and only if the
  process ends in the step over the breakpoint it starts from (`Repl.Continued`).
- A breakpoint hit inside a call that `next` runs over is reported and disarmed, and
  `next` still goes on if and only if that pc has no line or the line `next` started
  from (`Debugger.Debugger.NextTowards`). It then runs past that breakpoint; each
  of its advances runs past none but the one at its pc (`Debugger.Debugger.Advance`).
- Nothing arms a watchpoint on a thread created after it, until the next step past
  a watchpoint. The watchpoints are armed on every listed thread if and only if
  there is none or no listed thread came onto the list after one was last armed (`WatchBank.Bank.InStepIff`,
  `Repl.Session`; `WatchBank.CreatedThreadUnarmed` is the input).
- An instruction that keeps the pc under a breakpoint, or touches watched memory,
  leaves that breakpoint disarmed when PT_CONTINUE is issued, and no other does
  (`Overlay.RearmedAfterStep`, `Overlay.StepsAwayIff`; `Overlay.SelfBranchStays`,
  `Debugger.Debugger.ContinueAtSelfBranch`).
- A failed read-back in cdbg_watch_arm leaves an existing slot armed with no entry
  owning it (`WatchBank.LeftArmedIff`).
- The prompt comes back in state running if and only if the waitpid of cdbg_run, of
  run_to_entry_stop or of step_past_all_watchpoints failed, whose results
  the prompt loop drops (`Repl.Turn`; `Repl.CmdInstruction` has the input).
- A watchpoint that ends at the top of the address space is never attributed
  (`WatchEncoding.AttributionExact`), and a line entry in its last 128 bytes
  never found (`LineLookup.WindowWraps`).
- A special opcode whose line increment exceeds 127 is decoded with 256 less
  (`LineProgram.SpecialExact`).
- parse_line_program drops the header's maximum_operations_per_instruction
  (src/lineno.c:610). With more than one an operation advance moves the address too
  far unless it is 0, or 1 from the last operation (`LineProgram.AdvanceExact`,
  `LineProgram.AdvancePcExact`; `LineProgram.SecondOperationLost` is the input).
- Lines and columns of 2^32 and more are cut (`LineMachine.KeptExact`).
- A standard opcode the code does not know is skipped by as many *bytes* as the header
  declares *operands*, which are LEB128 numbers: right if and only if all are below
  128 (`LineProgram.SkipExact`; `LineProgram.SkipLosesStep` is the input).
- Pointers to pointers cannot be dereferenced twice
  (`ExprEval.PointerToPointerLost`); `p[0]` differs from `*p` when the
  pointed-to type is not known (`ExprEval.IndexZeroIsDeref`), and `p[i]` always
  from `*(p + i)` (`ExprEval.SumIsUnscaled`).
- Values narrower than eight bytes are not sign-extended: an `int` that is -1 does not
  equal -1 (`ExprLaws.NarrowIsUnsigned`, if and only if the number held is negative).
- The size of a scalar goes by the words in its type's name. It is right for the types
  named by keywords (`ExprLaws.KeywordSizes`) and wrong for others
  (`ExprLaws.NamesMisjudged`): `set` on a `uint8_t` overwrites three bytes more
  (`ExprLaws.SetOverruns`).

The design documents say that the pc after `BRK` is the next instruction's and
has to be moved back (docs/03_詳細設計書.md:163); the code compares it with the
breakpoint's own address (src/breakpoint.c:44-50) and so does the model.
They also say that new threads are armed at every stop (docs/02_基本設計書.md:181);
the code arms them in step_past_all_watchpoints only.

## Model

| member | source | states |
|---|---|---|
| `Machine.Tracee.WaitPid` | src/debugger.c:492-508 | whatever a stopped or resumed debuggee does before it stops, exits or is ended by a signal, its registers and data are those it reaches with no debugger attached after the same number of instructions, none of them a trap or touching what the debug registers watch; a step runs one instruction, or none if that traps or touches watched memory; a continued one stops at a trap, before a watched access, or for a signal |
| `BreakpointOps.BpEnable` | src/breakpoint.c:9-28 | on success the word at the address is saved and replaced by `BRK #0` and nothing else changes; on failure the text is untouched and the entry is not enabled |
| `BreakpointOps.BpDisable` | src/breakpoint.c:30-42 | an enabled entry's saved word goes back and the entry is disabled; a disabled entry succeeds without touching the text; a failure changes nothing |
| `Overlay.EnableKeepsOverlay` | src/breakpoint.c:9-28 | enabling a disabled entry keeps the overlay: text equal to the original with `BRK` exactly at the enabled entries, each of which saved the original word |
| `Overlay.DisableKeepsOverlay` | src/breakpoint.c:30-42 | disabling an enabled entry keeps the overlay |
| `Overlay.AppendKeepsOverlay` | src/debugger.c:4494-4499 | a new breakpoint at an address that no entry has keeps the overlay |
| `Overlay.RemoveKeepsOverlay` | src/debugger.c:4347-4352 | dropping a disabled entry from the table keeps the overlay |
| `Overlay.EnableKeepsExact` | src/debugger.c:470-490 | re-arming an entry keeps the overlay under a planted temporary breakpoint too |
| `Overlay.PlantKeepsExact` | src/debugger.c:611-616 | a temporary breakpoint may be planted on top of an enabled entry, or anywhere but at a disabled one; lifting it gives back the overlay |
| `Overlay.HitRestores` | src/debugger.c:1065-1087 | disarming the entry that was hit leaves the original word at its address and no armed entry there |
| `Overlay.RestoredAtDisabled` | src/debugger.c:459-468 | at the address of a disabled entry the text has the original word, whatever temporary breakpoint is planted elsewhere |
| `Overlay.RearmedAfterStep` | src/debugger.c:510-535 | after the step off a disabled breakpoint every entry is armed exactly when there was none at the pc or the step moved the pc |
| `Overlay.StoppedAgain` | src/debugger.c:470-508 | after a wait that returns 0 every disabled entry is at the pc, and no armed entry was disarmed |
| `Overlay.ArmedRunMissesNone` | src/debugger.c:537-558 | while all entries are armed no run of the debuggee executes an instruction at a listed address |
| `Machine.RanNotAt` | src/debugger.c:611-633 | no run gets past a planted trap: none of the instructions executed was at its address |
| `Overlay.EmptyTableIsOriginal` | src/debugger.c:4373-4380 | with no breakpoints left the overlay is the original text |
| `Overlay.UndoableIsUndone` | src/debugger.c:4331-4353 | deleting the entries of an overlay in any order whatever restores the original text |
| `Overlay.RepeatIsUndoneIff` | src/debugger.c:4489-4499 | `break` does not look for an entry at the address: after it, deleting in every order restores the original text if and only if no enabled breakpoint was there before |
| `Overlay.FirstWins` | src/debugger.c:4373-4380 | deleting last to first leaves at every address what the first enabled entry there saved, and the text as it is where none is |
| `Overlay.DelAllRestoresIff` | src/debugger.c:4373-4380 | for every text and table, repeats included: `del all` restores the original text if and only if at every address the first enabled entry saved the original word or, where none is enabled, the text already has it |
| `Overlay.RepeatThenDelAll` | src/debugger.c:4489-4499 | right after `break`, even at an address with an enabled breakpoint, `del all` restores the original text |
| `Overlay.RepeatWhereHitIsUndone` | src/debugger.c:470-490 | nor does a breakpoint repeated where one was just hit: both are re-armed in their order, and `del all` restores the original text |
| `Overlay.RepeatThenHitLeavesTrap` | src/debugger.c:1065-1087 | but after a stop at a breakpoint repeated while armed `del all` leaves a trap, in every overlay: the first entry is disarmed and the word put back, and the second has saved the trap |
| `Repl.BreakTwiceHitDelete` | src/debugger.c:4373-4380 | the input: `break` twice at one address, the stop there and `del all`, with no failing call, leave a text that is not the original |
| `Overlay.SelfBranchStays` | src/debugger.c:510-535 | a program whose instruction at the breakpoint just hit keeps the pc: the condition for all entries to be armed at PT_CONTINUE fails for it |
| `Overlay.StepsAwayIff` | src/debugger.c:510-535 | the exact condition for all entries to be armed at PT_CONTINUE when one is disarmed at an instruction: that touches nothing watched and does not keep the pc |
| `Debugger.Debugger.IsTrap` | src/breakpoint.c:44-60 | true exactly when an enabled entry is at the pc |
| `Debugger.Debugger.HasDisabledAt` | src/debugger.c:459-468 | true exactly when a disabled entry is at the pc |
| `Debugger.Debugger.Reenable` | src/debugger.c:470-490 | on success exactly the disabled entries away from the pc become enabled, the others stay as they are, and the overlay is kept on every path |
| `Debugger.Debugger.Wait` | src/debugger.c:492-508 | returning 0 means stopped, with every entry away from the pc enabled, and for the reason waitpid gave; 1 means exited and idle; -1 leaves the state alone if waitpid failed; the overlay is kept and, if all entries were armed, no listed address was run past |
| `Debugger.Debugger.SingleStep` | src/debugger.c:560-574 | on success the state is running and the process was asked for one step; on failure the state stays |
| `Debugger.Debugger.StepOverDisabled` | src/debugger.c:510-535 | the original instruction under a disarmed breakpoint at the pc runs exactly once, before re-arming; otherwise nothing runs; afterwards all entries are armed exactly when none was disarmed at the pc or the pc moved |
| `Debugger.Debugger.Continue` | src/debugger.c:537-558 | PT_CONTINUE is issued once, after the step over a disarmed breakpoint if there is one at the pc; all entries are armed then exactly when none was or that step moved the pc; overlay kept on every path |
| `Debugger.Debugger.ContinueAtSelfBranch` | src/debugger.c:537-558 | for every such program: when PT_CONTINUE is issued the entry at the pc is still disarmed |
| `Debugger.Debugger.CallReturnAddress` | src/debugger.c:578-589 | on a word that can be read, succeeds if and only if it is BL, and gives the address after it modulo 2^64 |
| `Debugger.Debugger.FinishTemp` | src/debugger.c:591-609 | the temporary breakpoint is gone on every path; success means that the debuggee is at it or that report_stop was called; with no failing call the overlay and the account of the watchpoints are kept |
| `Debugger.Debugger.StepOverCall` | src/debugger.c:611-636 | success means resumed and, if stopped, at the return address or reported; no instruction executed was at the return address; with no watchpoint, signal or failing call it is left for the return address, a breakpoint, a trap of the program or its exit alone; failure needs a failing call, an exit or a return address outside the text; keeps the overlay also when the return address holds an enabled breakpoint; runs past no breakpoint but the one at the pc |
| `Debugger.Debugger.HandleBreakpointHit` | src/debugger.c:1065-1087 | the entry is disarmed, its saved word is back and the pc stays at its address; only that entry changes |
| `Debugger.Debugger.HandleHitAt` | src/debugger.c:1348-1355 | the first enabled entry at the pc is the one disarmed, and the word it saved is put back; from an overlay no enabled entry is left there |
| `Debugger.Debugger.ReportProcessExit` | src/debugger.c:1089-1113 | once idle: pid 0 and nothing enabled; otherwise nothing changes |
| `Debugger.Debugger.StopDebuggee` | src/debugger.c:309-347 | success means pid 0, idle and nothing enabled; failure leaves pid, state and tables as they were |
| `Debugger.Debugger.ReportStop` | src/debugger.c:1327-1364 | a hit breakpoint is disarmed without running anything and none stays armed at the pc; where none is, a watchpoint's exception makes the debuggee step once, with no failing call over exactly the instruction at the pc, and nothing else does; failure needs a failing call |
| `Debugger.Debugger.StepNextLine` | src/debugger.c:885-948 | `step` runs only instructions of the line it starts from or without a line, whatever calls fail, unless a signal stops it while a watchpoint is set; with only breakpoints to interrupt it, it stops on another source line, which is then the first instruction of another line it reached, or at a breakpoint just hit; gives up only after 100000 steps; where there is no line it runs one instruction; runs past no breakpoint but the one at the pc; keeps overlay and state |
| `Debugger.Debugger.NextSourceLine` | src/debugger.c:950-1023 | `next`, with no signal and no failing call, ran a chain of legs, each of at most one instruction of the starting line or without a line, or from a BL there up to its return address, at which nothing ran; with no watchpoint set such a leg ends at the return address, at a breakpoint, at a trap of the program or with its exit. With only breakpoints to interrupt it `next` stops as `step` does; gives up only after 100000 steps, or at a call whose return address is not in the text |
| `Debugger.Debugger.StepInstruction` | src/debugger.c:4816-4838 | `si` runs exactly one instruction, or none when that traps, if no watchpoint is set |
| `Debugger.Debugger.RunToEntryStop` | src/debugger.c:255-307 | in every outcome, exit included, no instruction executed was at the entry address; the entry breakpoint is lifted on every path and the overlay is kept; 1 means the pc is at the entry; 0 that the debuggee was resumed and stopped elsewhere, with no breakpoint, watchpoint, signal or failing call at a trap of its own; -1 needs a failing call, an exit or an entry outside the text |
| `Debugger.Debugger.EnableEntry` | src/breakpoint.c:9-28 | one disabled entry becomes enabled or, on failure, stays disabled; no other entry changes and the overlay is kept |
| `Debugger.Debugger.RunToTemp` | src/debugger.c:611-633 | continue to a temporary breakpoint, at which nothing is executed; it is lifted again unless the debuggee stopped, and no breakpoint but the one at the pc is run past |
| `Debugger.Debugger.ContinueAndWait` | src/debugger.c:4780-4796 | PT_CONTINUE is issued exactly once, unless the step over a disarmed breakpoint fails or ends the process, and a stop is at a word that traps, before a watched access, or for a signal; no trap was run through and nothing watched touched; all entries are armed then and none but the one at the start was run past |
| `Debugger.Debugger.LineReached` | src/debugger.c:998-1018 | after an instruction, report a breakpoint or watchpoint, or stop on another line; go on only with nothing changed, on the starting line or without a line; nothing more is executed unless a watchpoint's exception is reported |
| `Debugger.Debugger.CallAndLook` | src/debugger.c:976-996 | a call is run until the return address, at which nothing is executed, or a reported stop; the overlay is kept |
| `Debugger.Debugger.NextTowards` | src/debugger.c:973-1019 | a round of `next` is one leg of it, and goes on only on the starting line or without a line; after a stop reported inside a call it goes on if and only if that pc has no line or the line `next` started from |
| `Stepping.CourseExtends` | src/debugger.c:973-1019 | one more leg of `next` makes a longer chain of legs |
| `Debugger.Debugger.Advance` | src/debugger.c:974-996 | at a BL the debuggee ends up at the return address, at which nothing was executed, or a stop was reported; elsewhere exactly the instruction at the pc runs, or none if it traps or touches watched memory; no breakpoint is run past but the one at the pc |
| `Debugger.Debugger.StepAndLook` | src/debugger.c:910-925 | exactly the instruction at the pc runs, or none if it traps or touches watched memory |
| `Debugger.Debugger.StepOnce` | src/debugger.c:560-574 | exactly the instruction at the pc, or none if it traps or touches watched memory; run past no breakpoint but the one at the pc; afterwards all are armed if that instruction moves the pc |
| `Debugger.Debugger.AnnounceStop` | src/debugger.c:1327-1364 | reporting a stop keeps it true that no listed address was run past, and leaves no breakpoint armed at the pc when no watchpoint is set; a stop of a continue that is for no signal is shown as a breakpoint just hit, a trap of the program, or the watched access, which has been made then |
| `Debugger.Debugger.StopKnown` | src/debugger.c:1327-1364 | a stop of a continue that is for no signal: before a watched access if and only if the exception is a watchpoint's and a watchpoint is set, else at an enabled breakpoint or a trap of the program |
| `Debugger.Debugger.TryReportWatchpointHit` | src/debugger.c:1263-1284 | reports exactly when a watchpoint is set and the exception is a watchpoint's, unless reading it fails, and then steps once, with no failing call over exactly the instruction at the pc; the first live watchpoint that holds the fault address is the only one whose last value may change; a failing waitpid in it leaves the state running |
| `WatchEncoding.ControlDecodes` | src/watchpoint.c:40-50 | every field of the control word decodes to what was asked: enabled, EL0 only, no link or mask, load and store by kind, byte select exactly the bytes of the range |
| `WatchEncoding.EncodingExact` | src/watchpoint.c:19-50 | the register pair traps an access to a byte if and only if the byte is in addr..addr+size-1 and the access is of the requested kind |
| `WatchEncoding.AttributionExact` | src/watchpoint.c:81-87 | cdbg_watch_addr_hit agrees with the hardware on every fault address if and only if addr+size does not reach 2^64; a watchpoint that does is never attributed |
| `WatchBank.TrapsExactly` | src/watchpoint.c:19-50 | a thread on which exactly the table is armed traps an access if and only if a live watchpoint has the byte and wants the kind of access |
| `WatchBank.ClearTrapsNothing` | src/debugger.c:1162-1176 | a thread with all slots disarmed traps no access |
| `WatchBank.Bank.InStepTraps` | src/debugger.c:1129-1147 | while the watchpoints are armed, the executing thread traps exactly the accesses they watch |
| `WatchBank.EnabledIffOwned` | src/debugger.c:1129-1159 | on a thread accounted for, a slot is enabled if and only if a live entry owns it and was armed since the thread came onto the list, and then it traps exactly that entry's accesses |
| `WatchBank.ClearEnable` | src/watchpoint.c:72-78 | disarming clears the enable bit and no other |
| `WatchBank.FreeSlotChange` | src/debugger.c:1137-1145 | a rolled-back arming, confined to a slot without an owner and left disabled, does not disturb a thread |
| `WatchBank.LeftArmedIff` | src/watchpoint.c:52-61 | cdbg_watch_arm does not undo its write when the read-back fails: after it the thread is in step with the table if and only if the slot does not exist |
| `WatchBank.MatchesForIff` | src/debugger.c:1129-1147 | a thread in step for one set of armed slots is so for another if and only if both have the same owned slots |
| `WatchBank.NewThreadMatchesIff` | src/debugger.c:1129-1147 | a new thread is in step with the table if and only if that has no live watchpoint |
| `WatchBank.CreatedThreadUnarmed` | src/debugger.c:492-508 | the input: one watchpoint, armed on a thread, is not armed on a thread created after |
| `WatchBank.Bank.InStepIff` | src/debugger.c:492-508 | the watchpoints are armed on every listed thread if and only if there is none or no listed thread came onto the list after one was last armed |
| `WatchBank.Bank.ThreadsChange` | src/debugger.c:492-508 | threads that end or appear between stops do not disturb the account of which watchpoint is armed on which |
| `WatchBank.AppendedMatches` | src/debugger.c:4692-4709 | arming the new entry in a free slot puts a thread in step with the longer table |
| `WatchBank.RemovedMatches` | src/debugger.c:4504-4522 | disarming the slot of the removed entry puts a thread in step with the shorter table |
| `WatchBank.SomeSlotFree` | src/debugger.c:4601-4616 | pigeonhole: fewer than four entries leave a slot free |
| `WatchBank.Bank.Arm` | src/watchpoint.c:19-64 | succeeds only for an existing slot and 1 to 8 bytes in one granule, then the slot carries the encoding and no other slot or thread changes; after a failure the thread is as before or carries what was written |
| `WatchBank.Bank.Disarm` | src/watchpoint.c:66-79 | on success the slot is disabled and its other bits and all other slots are as before |
| `WatchBank.Bank.ArmAllThreads` | src/debugger.c:1129-1147 | all listed threads carry the entry, or on failure each one is as before or has the slot disabled |
| `WatchBank.Bank.DisarmAllThreads` | src/debugger.c:1149-1159 | unless a call failed the slot is disabled on every listed thread; no other slot changes |
| `WatchBank.Bank.FindFreeSlot` | src/debugger.c:4601-4616 | the least slot without an owner; -1 exactly when all four are owned, which cannot be with fewer than four entries |
| `WatchBank.Bank.Add` | src/debugger.c:4676-4717 | success appends one live entry in a free slot; failure leaves the table, and with no failing call means that the table is full, the range is not 1 to 8 bytes in one granule, or every slot the hardware has is owned; the threads stay accounted for unless a slot leaked |
| `WatchBank.Bank.DeleteAt` | src/debugger.c:4504-4522 | the table loses exactly that entry, and the threads stay accounted for unless a call failed |
| `WatchBank.Bank.DisarmEnabled` | src/debugger.c:1172-1176 | before the step no slot of any thread is enabled, unless a call failed or the threads were not accounted for |
| `WatchBank.Bank.RearmEnabled` | src/debugger.c:1189-1197 | from all clear, success arms exactly the table on every listed thread, those that appeared during the step included |
| `Debugger.Debugger.StepPastAllWatchpoints` | src/debugger.c:1170-1198 | with the threads accounted for and no failing call exactly the instruction at the pc runs, whatever watched memory it touches: nothing is armed then; afterwards all watchpoints are armed on all listed threads; only a failing waitpid leaves the state running |
| `Debugger.Debugger.HandleWatchpointHit` | src/debugger.c:1200-1261 | steps past the watchpoint, with no failing call over exactly the instruction at the pc, and remembers a value of no other watchpoint; keeps table, slots and overlay; if it ended the process, pid 0 and nothing enabled |
| `Debugger.Debugger.FindWatchpointHit` | src/debugger.c:1115-1124 | the first live watchpoint whose range has the fault address, none exactly when there is none |
| `Slots.Slots.Remove` | src/debugger.c:4347-4351 | the shifting loop removes exactly one position and keeps the order |
| `Deletion.KeepOneMore` | src/debugger.c:4347-4351 | shifting out a position below all those deleted before is deleting that position of the original table |
| `Deletion.Collect` | src/debugger.c:4383-4411 | accepts exactly lists of numbers below the count; the result has every number once; the array is never overrun, however many repeats |
| `Deletion.SortDescending` | src/debugger.c:4413-4421 | the exchange sort leaves the same numbers, largest first |
| `Deletion.ArmedIfKept` | src/debugger.c:4331-4353 | an address is armed in the kept table if and only if an entry not deleted is enabled there |
| `Deletion.DeletionRestores` | src/debugger.c:4331-4353 | between the overlays of a table and of what is kept of it, exactly the words under the deleted enabled entries are restored |
| `Repl.DeletesNext` | src/debugger.c:4423-4429 | each round of the last loop deletes one more original position |
| `Repl.DeleteBreakpointAt` | src/debugger.c:4331-4353 | the table loses exactly that entry, overlay kept; out of range or a failing write leaves table and text |
| `Repl.DeleteAll` | src/debugger.c:4373-4380 | the loop of `del all` undoes the table last to first, on every table |
| `Repl.DeleteEach` | src/debugger.c:4423-4429 | one-at-a-time deletion in descending order is one filter of the original table; a failure stops at a prefix of it |
| `Repl.CmdDel` | src/debugger.c:4355-4430 | `del` leaves the table filtered by the given numbers, `del all` empties it, undoing it last to first; a bad token changes nothing; exactly the deleted enabled addresses are restored |
| `Repl.CmdDelWatch` | src/debugger.c:4524-4599 | `delwatch` leaves the watchpoint table filtered likewise, and the threads accounted for |
| `LifoUndo.DeleteAllUndoes` | src/debugger.c:4373-4380 | on bytes, enabling breakpoints at any addresses, equal or overlapping, and deleting last to first restores memory byte for byte |
| `LifoUndo.FirstToLastLeavesTrap` | src/debugger.c:4331-4353 | deleting the first of two breakpoints at one address before the second leaves a trap |
| `LifoUndo.DisableUndoesEnable` | src/breakpoint.c:9-42 | enabling and then disabling restores every byte, at any alignment |
| `Repl.CmdBreak` | src/debugger.c:4489-4502 | a full table or an unreadable address changes nothing; otherwise one enabled entry is appended and its word replaced; the overlay is kept unless the address was listed |
| `Repl.CmdBreakTracked` | src/debugger.c:4877-4883 | the `break` case appends an entry or changes nothing, the latter only if the table is full, the address is not in the text, there is no process or a call failed; keeps overlay unless the address was listed |
| `Repl.CmdContinue` | src/debugger.c:4776-4802 | `continue` issues PT_CONTINUE once and, with the watchpoints accounted for and no signal, stops at a breakpoint just hit, at a trap of the program, or just after the one instruction that touched watched memory, which it steps over after all others ran without touching any; it runs past no breakpoint but the one it starts from; with no watchpoint set no breakpoint stays armed where it stops; with no failing call it ends the prompt loop if and only if the process ended in the step over a disarmed breakpoint |
| `Repl.CmdInstruction` | src/debugger.c:4816-4838 | `si` keeps overlay, account of watchpoints and state; the input that loses the debuggee: an instruction that touches watched memory, whose step past is not waited for |
| `Repl.CmdLine` | src/debugger.c:4803-4815 | `step` runs only instructions of the line it starts from and comes back to the prompt on another line or at a breakpoint just hit, unless a call failed or 100000 steps did not reach one; keeps overlay, account and state |
| `Repl.CmdNextLine` | src/debugger.c:4839-4851 | `next` likewise, running the calls on that line to their ends (`Stepping.Course`), or gives up at a call whose return address is not in the text |
| `Repl.CmdKill` | src/debugger.c:4922-4930 | with no failing call, pid 0 and nothing enabled |
| `Repl.CmdWatch` | src/debugger.c:4618-4718 | adds one live watchpoint or leaves the table; with no failing call the latter only if the debuggee is not stopped, the operand is no scalar that a slot can watch, the table is full or every slot is owned |
| `Repl.CmdRun` | src/debugger.c:349-413 | success means a fresh process stopped and both tables empty; with no failing call, unless it could not be spawned, the instruction at the entry address has not run in any outcome, exit included; if it has not ended it is stopped with its original text, at the entry if that is in the text, or for a signal or at a trap of its own |
| `Repl.CmdDelete` | src/debugger.c:4884-4886 | while stopped, `del` leaves exactly the entries not numbered; `del all` leaves the original text if and only if every word comes back, and always from an overlay |
| `Repl.Turn` | src/debugger.c:4768-4943 | one turn of the prompt loop does its command (`Repl.Did`) and keeps overlay, account of watchpoints, and the relation of state to process; back at the prompt, the state is running if and only if the waitpid of the launch or entry stop of `run`, or of the step past a watchpoint, failed |
| `Repl.Session` | src/debugger.c:4739-4947 | over every run of commands: while waitpid does not fail the state at the prompt is idle or stopped, idle exactly when pid is 0, and then nothing is enabled; while no call on the process fails and no breakpoint is repeated a stopped debuggee is overlaid exactly and, if none on debug registers fails either, its watchpoints are armed on every listed thread if and only if none came onto the list after one was last armed; its registers and data are always ones it reaches with no debugger |
| `Words.OrAbove` | src/lineno.c:145-152 | or-ing a shifted number onto one below it adds it |
| `Words.AndMask` | src/debugger.c:2424-2432 | masking with 2^k - 1 leaves the remainder modulo 2^k |
| `ReaderSteps.OrGroupIsSum` | src/lineno.c:145-152 | the step of both readers, `value |= (byte & 0x7f) << shift`, adds the group's weight, modulo 2^64 in the tenth |
| `ReaderSteps.OrSignIsSum` | src/lineno.c:169-172 | `value |= ~0 << shift`, under its guard, subtracts the weight of the next group modulo 2^64 |
| `ReaderSteps.OrByteIsSum` | src/lineno.c:132-139 | `value |= byte << 8 * i` adds the byte's weight |
| `Leb128.UlebInverts` | src/lineno.c:141-154 | the canonical encoding of any 64-bit value, with anything after it, is read back and consumed exactly |
| `Leb128.SlebInverts` | src/lineno.c:156-173 | the same for every signed 64-bit value, ten-byte encodings included |
| `LineParser.Cursor.ReadUleb` | src/lineno.c:141-154 | the loop reads what the decoding function says and stops where it says |
| `LineParser.Cursor.ReadSleb` | src/lineno.c:156-173 | the same, with the sign-extension guard at shift 64 |
| `LineParser.Cursor.ReadU64` | src/lineno.c:132-139 | eight single-byte reads put together, short reads included |
| `LineParser.Cursor.ReadU32` | src/lineno.c:119-130 | four bytes, or 0 without moving when fewer are left |
| `LineProgram.AddressInverts` | src/lineno.c:119-139 | a little-endian address of four or eight bytes is read back |
| `LineParser.ParseExtended` | src/lineno.c:622-649 | extended instructions end where their length says; an overrun fails without a row |
| `LineParser.ParseStandard` | src/lineno.c:651-684 | each standard opcode moves the cursor, sets the registers and appends rows as decoded |
| `LineProgram.SpecialExact` | src/lineno.c:687-692 | a special opcode is decoded as section 6.2.5.1 of DWARF Version 5 has it, op_index included, if and only if its line increment is at most 127 and its operation advance is taken as meant without an op_index |
| `LineProgram.SkipExact` | src/lineno.c:678-682 | a standard opcode the code does not know is consumed with its operands if and only if every operand takes one byte |
| `LineProgram.SkipLosesStep` | src/lineno.c:678-682 | the input: one two-byte operand, whose second byte is taken for an instruction and appends a row of its own |
| `LineProgram.DecodesUnknownExtended` | src/lineno.c:622-649 | an unknown extended instruction is skipped by its length, whatever it holds |
| `LineProgram.AdvanceExact` | src/lineno.c:687-691 | the advance of a special opcode or const_add_pc gives the address of the state machine if and only if there is one operation per instruction, instructions have no length, the advance is 0, or it is 1 from the last operation |
| `LineProgram.AdvancePcExact` | src/lineno.c:656-660 | advance_pc gives it if and only if the operations it counts too many amount to a multiple of 2^64 bytes |
| `LineProgram.SecondOperationLost` | src/lineno.c:656-660 | the input: with two operations per instruction an advance by one moves the address by a whole instruction |
| `LineMachine.OneOperationTaken` | src/lineno.c:603-610 | with one operation per instruction every encodable program is taken as meant |
| `LineMachine.KeptExact` | src/lineno.c:397-404 | the rows kept are those of the state machine if and only if their lines and columns fit in 32 bits |
| `LineProgram.DecodesInstruction` | src/lineno.c:620-693 | one round of the loop on any encoded instruction taken as meant consumes exactly its bytes and does what the state machine does |
| `LineProgram.ParseRefinesMachine` | src/lineno.c:603-696 | parsing any encoded program whose instructions are taken as meant succeeds and appends exactly the rows of the state machine of section 6.2.5 that have a positive line and a file in the table, in 32-bit fields |
| `LineProgram.UlebMoves` | src/lineno.c:141-154 | the reader never moves back nor past the end |
| `LineEncoder.SpecialInverts` | src/lineno.c:687-692 | division and remainder by line_range recover both advances of a special opcode |
| `LineEncoder.ConstThenSpecial` | src/lineno.c:670-672 | const_add_pc followed by a special opcode for the rest reaches the row |
| `LineEncoder.RowsRoundTrip` | src/lineno.c:603-696 | for any list of rows that fit the table there is a program (special opcodes, const_add_pc, set_address, advance_line and the rest) that means this list to the state machine and parses to it |
| `LineParser.LineTable.EmitRow` | src/lineno.c:397-404 | a row is appended exactly when its line is positive and its file is in the table |
| `LineParser.ParseOne` | src/lineno.c:620-693 | one round appends the rows, moves the cursor and sets the registers as the decoding function says, or fails without a row |
| `LineParser.ParseLineProgram` | src/lineno.c:603-696 | the loop over bytes terminates and appends exactly the decoded rows, up to an extended instruction that overruns the unit |
| `LineLookup.LookupPc` | src/lineno.c:1045-1058 | the first entry with the greatest runtime address not above the pc |
| `LineLookup.SlideMoves` | src/lineno.c:1038-1058 | unless an address wraps, what is found at pc + s under slide s is what is found at pc without one |
| `LineLookup.SlideMovesNext` | src/lineno.c:1232-1256 | and so is the line that follows |
| `LineLookup.EntryAtPc` | src/lineno.c:1196-1217 | the narrowing loop never decides: the entry of the pc lookup if its line is not 0 and the pc is within 128 bytes, in 64-bit arithmetic |
| `LineLookup.WindowWraps` | src/lineno.c:1203-1205 | that window means at most 128 bytes past if and only if the entry is not in the last 128 bytes of the address space; there nothing is found |
| `LineLookup.LookupLine` | src/lineno.c:1060-1080 | the first entry of the line and file with the least address |
| `LineLookup.MatchesIff` | src/lineno.c:1109-1117 | a filter matches exactly the paths it occurs in; the comparison with the base name never decides |
| `LineLookup.SuffixMatches` | src/lineno.c:1109-1117 | every trailing part of a path matches it |
| `LineLookup.LookupLineUnique` | src/lineno.c:1082-1107 | an entry exactly when the line occurs in one file only, and then the first with the least address |
| `LineLookup.UniqueAgrees` | src/lineno.c:1060-1107 | looking up the same line in the file of the entry found gives the same entry |
| `LineLookup.LookupNextLine` | src/lineno.c:1232-1256 | the least link address among later entries of the same file on another line |
| `ExprSyntax.ExprComplete` | src/expr.y:53-142 | the tokens of any tree the precedence declarations allow are parsed to its meaning, whatever may follow |
| `ExprSyntax.ExprSound` | src/expr.y:53-142 | whatever is parsed is the meaning of such a tree of exactly the tokens consumed |
| `ExprSyntax.ParseExact` | src/expr.y:53-142 | a token list parses to an expression if and only if it is the tokens of a tree of the grammar with that meaning |
| `ExprSyntax.RoundTrip` | src/expr.y:53-142 | every expression printed with the parentheses the ten levels call for is parsed back |
| `ExprSyntax.PrintInjective` | src/expr.y:53-142 | different expressions print differently |
| `ExprSyntax.PrintShortest` | src/expr.y:53-142 | no token list that parses to an expression is shorter than its printed form |
| `ExprEval.ArrowIsDerefMember` | src/expr_eval.c:177-303 | `p->m` and `(*p).m` are the same place or both fail, for every p, m, memory and type table |
| `ExprEval.PointerToPointerLost` | src/expr_eval.c:61-78 | stripping a type at its first star drops all levels: no `**p` ever evaluates |
| `ExprEval.StarIsWordWide` | src/expr_eval.c:177-303 | a place whose type has a star is eight bytes wide |
| `ExprEval.AddressOfDeref` | src/expr_eval.c:122-175 | what evaluates as a pointer has the value of `&*p`, and is that value unless it names an array |
| `ExprEval.IndexZeroIsDeref` | src/expr_eval.c:177-303 | `p[0]` and `*p` have the same address always and are the same place if and only if the pointed-to type is known |
| `ExprEval.SumIsUnscaled` | src/expr_eval.c:177-303 | adding to a pointer is not scaled and indexing is: `*(p + i)` and `p[i]` are never the same place, and at the same address if and only if i * (size - 1) vanishes modulo 2^64 |
| `ExprEval.SetVariableThenPrint` | src/debugger.c:3159-3178 | a variable set and then evaluated has the value cut to its size |
| `ExprEval.StripInvertsPointerTo` | src/expr_eval.c:41-78 | the type of `*&x` is that of x up to trailing blanks, if it has no star |
| `ExprEval.MembersApart` | src/expr_eval.c:222-257 | members of one struct are as far apart as the type table puts them, and the place of each is its offset from that of the struct |
| `ExprEval.ElementsApart` | src/debugger.c:2670-2710 | an array has exactly the declared number of elements, the first where the array is, and two are apart by their size times the difference of their indices |
| `ExprLaws.BinaryFailsIff` | src/expr_eval.c:391-401 | a binary operation has no value exactly when an operand has none or a divisor is zero; no operator skips its right operand |
| `ExprLaws.Sums` | src/expr_eval.c:80-83 | addition is commutative and associative with neutral 0 |
| `ExprLaws.DifferencePlus` | src/expr_eval.c:80-84 | (a - b) + b is a |
| `ExprLaws.Products` | src/expr_eval.c:80-85 | multiplication distributes over addition, is commutative, and has neutral 1 |
| `ExprLaws.DivisionInverts` | src/expr_eval.c:86-99 | (a / b) * b + a % b is a with a % b below b, and neither has a value exactly for b zero |
| `ExprLaws.Shifts` | src/expr_eval.c:100-101 | shifting by k below 64 multiplies by 2^k modulo 2^64, or divides by 2^k |
| `ExprLaws.Comparisons` | src/expr_eval.c:102-107 | exactly one of `<`, `==`, `>` is 1, `<=`, `>=`, `!=` are the negations of `>`, `<`, `==`, and `<` compares unsigned values |
| `ExprLaws.DeMorgan` | src/expr_eval.c:108-110 | ~(a & b) is ~a | ~b, and ~(a | b) is ~a & ~b |
| `ExprLaws.BitwiseSums` | src/expr_eval.c:108-110 | (a ^ b) ^ b is a; (a & b) + (a | b) and (a ^ b) + 2 * (a & b) are a + b |
| `ExprLaws.MaskIsRemainder` | src/expr_eval.c:108-110 | a & ((1 << k) - 1) is a % (1 << k) |
| `ExprLaws.Truths` | src/expr_eval.c:111-112 | `!!a` is the truth of a, and `&&` and `||` are `&` and `|` of the truths of both operands |
| `ExprLaws.Negations` | src/expr_eval.c:361-389 | x + -x is 0 and ~x + 1 is -x, unless x is floating-point, where -x flips the topmost bit; -(-x) is x |
| `ExprLaws.NarrowIsUnsigned` | src/expr_eval.c:316-346 | of a place of one to seven bytes x == n is 1 for the signed number n it holds if and only if n is not negative |
| `ExprLaws.KeywordSizes` | src/debugger.c:1501-1519 | char, short, int and long, signed or not, have sizes 1, 2, 4 and 8 |
| `ExprLaws.NamesMisjudged` | src/debugger.c:1501-1519 | uint8_t gets 4 bytes, _Bool and float 8, uint64_t 4 |
| `ExprLaws.SetOverruns` | src/debugger.c:1501-1519 | the input: setting a uint8_t variable zeroes the three bytes after it |
| `ExprEval.StripPointerStar` | src/expr_eval.c:61-78 | the loops compute the type before the first star without trailing blanks, and nothing without a star |
| `ExprEval.MakePointerType` | src/expr_eval.c:41-59 | the loop computes the trimmed type followed by a star |
| `Scalars.SetThenPrint` | src/debugger.c:2305-2331 | a write followed by a read gives the value modulo 2^(8*size), sizes 0 and above 8 acting as 8, and no other byte changes |
| `Scalars.MaskExact` | src/debugger.c:2424-2432 | the mask of `(1 << bits) - 1` leaves the value modulo 2^(8*size), sizes 0 and from 8 on leaving it whole |
| `Scalars.SignedBits` | src/debugger.c:2363-2370 | testing the sign bit and or-ing the complement of the mask subtracts 2^bits from the upper half |
| `Scalars.SignExtendExact` | src/debugger.c:2357-2371 | sign extension gives the one signed value of the width congruent to its operand |
| `Scalars.Memory.Write` | src/debugger.c:2322-2331 | all bytes of the scalar are written, or none |
| `Unwind.Registers.FrameUp` | src/regs.c:163-184 | pc and fp become those of the frame record with sp 16 above it, or else those of the link register; lr stays and fp never falls; a failure, which needs both to be implausible, changes nothing |
| `Unwind.Registers.FromStackTop` | src/regs.c:143-161 | the fallback: pc becomes lr and sp 16 above the given one, fp the saved one if that is higher; fails exactly for lr below 4096, changing nothing |
| `Unwind.RecordNext` | src/debugger.c:3246-3263 | backtrace and `up` accept the same frame records; the test for a zero saved fp never decides |
| `Unwind.WalkExtends` | src/debugger.c:3265-3289 | one more frame record is one more `up`, with a greater fp |
| `Unwind.Backtrace` | src/debugger.c:3265-3289 | frame k has the pc and fp of k uses of `up`, with strictly increasing fp, 64 frames at most, stopping only there or where no frame record is |
| `Unwind.FpNeverFalls` | src/regs.c:163-184 | repeated `up` never lowers the frame pointer |

## Left out

- Multi-threaded execution: one thread executes; the others end and appear, with their debug registers. Suspend counts do not balance across single steps and are not modelled.
- Debugger.Debugger.ReportStop: the choice of the thread that stopped is not modelled, because only one executes; nor are `thread`, `up` and `set $pc`, which move the selected frame or pc between stops. `quit` is `kill` and the end.
- `set` of a variable or of a register other than pc is no command of a session, because it changes the data the debuggee goes on with: the data it then reaches is not that of the unmodified program. What it writes is in `Scalars` and `ExprEval`.
- Debugger.Debugger.StopDebuggee: stop_debuggee detaches before it kills (src/debugger.c:327), so the process may run on, through planted traps, until the signal arrives, and goes on detached if the kill fails; the model kills a stopped process.
- Self-modifying programs, and programs that read their own patched text: what an instruction does depends on registers and data only.
- Debugger.Debugger.Wait: the debugger treats a stop for a signal like any other, and so does the model, which only counts them; whether the signal is delivered is not modelled. The exception state after one is arbitrary, and otherwise that of the stop.
- Debugger.Debugger.NextSourceLine: after a signal only what `Advance` and `LineReached` say of each round is promised of the instructions run.
- Bytes of the text in the stop protocol: breakpoints there are on words of the text, and one elsewhere fails. `LifoUndo` has bytes, any alignment and overlap, without execution.
- Repl.Session: stops at a prompt with state running, which only a failed waitpid brings about.
- Repl.CmdBreak: takes a resolved address; names, lines and symbols are not modelled.
- Repl.CmdWatch: takes what its operand evaluates to, as a parameter.
- Repl.Turn: a failing call on the process voids its promises about the overlay for the rest of the session, and any failing call those about the watchpoints; promises about one command's effect are voided for that command.
- WatchBank.Bank.Arm: the thread's other debug registers (breakpoints, MDSCR) are not modelled; reading back compares the control word only, as the code does.
- Unit headers, directory and file tables of line tables: their values are inputs. Rows have no is_stmt.
- LineMachine.Step: a maximum_operations_per_instruction of 0, which is no valid header, has no meaning. The effect of DW_LNE_define_file, which DWARF Version 5 reserves, is none.
- LineParser.ParseLineProgram: signed overflow of the line register is a wrap, and a length that overflows the cursor pointer is an overrun; both are undefined in C.
- The flex lexers, the command grammar and the reading of numbers: parsing starts from tokens. The Bison tables are modelled by the grammar and precedence they are generated from.
- Names longer than the parser's and the evaluator's buffers, which the code cuts short.
- ExprEval.EvalValue: floating-point arithmetic is absent in the code as well; values are bit patterns, and negation flips the sign bit. Shift counts are taken modulo 64, where C leaves them undefined.
- Variables, struct members, struct sizes and array types come from an abstract, fixed table instead of dwarfdump's text.
- Mach-O symbols, disassembly, source listing, `leaks`, help, `show`, output formats: no state the properties depend on.

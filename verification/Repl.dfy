/** The commands of src/debugger.c that start, resume, stop or annotate the
    debuggee, and whole runs of the prompt loop. */
module Repl {
  import opened Common
  import opened Machine
  import opened Slots
  import opened Overlay
  import opened BreakpointOps
  import opened Stepping
  import opened Debugger
  import opened Deletion
  import WE = WatchEncoding
  import WB = WatchBank

  // cmd_break, for a resolved address
  method CmdBreak(dbg: Debugger, addr: Addr) returns (ok: bool)
    requires dbg.Valid() && dbg.temp == None
    modifies dbg`exact, dbg.p`text, dbg.p`faults, dbg.breakpoints, dbg.breakpoints.cells
    ensures dbg.Valid() && dbg.p.faults >= old(dbg.p.faults)
    ensures ok ==> old(dbg.breakpoints.count) < MAX_BREAKPOINTS && addr in old(dbg.p.text)
                   && dbg.Table() == old(dbg.Table()) + [Breakpoint(addr, old(dbg.p.text)[addr], true)]
                   && dbg.p.text == old(dbg.p.text)[addr := TRAP]
    ensures !ok ==> dbg.Table() == old(dbg.Table()) && dbg.p.text == old(dbg.p.text)
    ensures !ok ==> dbg.breakpoints.count >= MAX_BREAKPOINTS || addr !in dbg.p.text || dbg.p.life != Live || dbg.p.faults > old(dbg.p.faults)
    ensures dbg.exact == (old(dbg.exact) && (ok ==> !Listed(old(dbg.Table()), addr)))
    ensures ok ==> dbg.p.life == Live
  {
    if dbg.breakpoints.count >= MAX_BREAKPOINTS { return false; }
    var bp;
    ok, bp := BpEnable(dbg.p, NO_BREAKPOINT, addr);
    if !ok { return; }
    dbg.breakpoints.Push(bp);
    dbg.exact := dbg.exact && !Listed(old(dbg.Table()), addr);
    if dbg.exact {
      AppendKeepsOverlay(dbg.p.program, old(dbg.p.text), old(dbg.Table()), addr);
    }
  }

  // delete_breakpoint_at
  method DeleteBreakpointAt(dbg: Debugger, index: nat) returns (ok: bool)
    requires dbg.Valid() && dbg.temp == None
    modifies dbg`exact, dbg.p`text, dbg.p`faults, dbg.breakpoints, dbg.breakpoints.cells
    ensures dbg.Valid() && dbg.p.faults >= old(dbg.p.faults)
    ensures ok ==> index < |old(dbg.Table())| && dbg.Table() == RemoveAt(old(dbg.Table()), index)
    ensures !ok ==> dbg.Table() == old(dbg.Table()) && dbg.p.text == old(dbg.p.text)
    ensures !ok && index < |old(dbg.Table())| ==> dbg.p.life != Live || dbg.p.faults > old(dbg.p.faults)
    ensures !ok || dbg.state != Idle ==> dbg.exact == old(dbg.exact)
    ensures ok && dbg.state != Idle ==> dbg.p.text == Restored(old(dbg.p.text), old(dbg.Table())[index])
    ensures Among(dbg.Table(), old(dbg.Table()))
  {
    if index >= dbg.breakpoints.count { return false; }
    ok := Disarm(dbg, index);
    if !ok { return; }
    if dbg.exact {
      RemoveKeepsExact(dbg.p.program, dbg.p.text, dbg.Table(), index);
    }
    RemovedAreAmong(old(dbg.Table()), index, dbg.Table()[index]);
    dbg.breakpoints.Remove(index);
  }

  // The first half of delete_breakpoint_at; without a process, there is no text to restore.
  method Disarm(dbg: Debugger, index: nat) returns (ok: bool)
    requires dbg.Valid() && dbg.temp == None && index < |dbg.Table()|
    modifies dbg`exact, dbg.p`text, dbg.p`faults, dbg.breakpoints`contents, dbg.breakpoints.cells
    ensures dbg.Valid() && dbg.p.faults >= old(dbg.p.faults)
    ensures ok ==> dbg.Table() == old(dbg.Table())[index := old(dbg.Table())[index].(enabled := false)]
    ensures !ok ==> dbg.Table() == old(dbg.Table()) && dbg.p.text == old(dbg.p.text)
                    && (dbg.p.life != Live || dbg.p.faults > old(dbg.p.faults))
    ensures !ok || dbg.state != Idle ==> dbg.exact == old(dbg.exact)
    ensures ok && dbg.state != Idle ==> dbg.p.text == Restored(old(dbg.p.text), old(dbg.Table())[index])
  {
    if dbg.pid > 0 && dbg.state != Idle {
      ok := dbg.DisableEntry(index);
    } else {
      dbg.exact := false;
      dbg.breakpoints.Set(index, dbg.breakpoints.Get(index).(enabled := false));
      ok := true;
    }
  }

  datatype DelArgs = NoArgs | All | Tokens(tokens: seq<Parsed>)

  /** What deleting by `args` leaves of a table. */
  function Left<T>(s: seq<T>, args: DelArgs): seq<T> {
    match args
    case NoArgs => s
    case All => []
    case Tokens(tokens) => if Accepted(tokens, |s|) then Keep(s, Numbers(tokens)) else s
  }

  // cmd_del
  method CmdDel(dbg: Debugger, args: DelArgs) returns (ok: bool)
    requires dbg.Valid() && dbg.temp == None
    modifies dbg`exact, dbg.p`text, dbg.p`faults, dbg.breakpoints, dbg.breakpoints.cells
    ensures dbg.Valid() && dbg.p.faults >= old(dbg.p.faults)
    ensures ok ==> dbg.Table() == Left(old(dbg.Table()), args)
    ensures ok && args.Tokens? && Accepted(args.tokens, |old(dbg.Table())|) && old(dbg.exact) && dbg.state != Idle ==>
              RestoredAt(dbg.p.program, old(dbg.p.text), dbg.p.text, old(dbg.Table()), Numbers(args.tokens))
    ensures ok && args == All && dbg.state != Idle ==>
              dbg.p.text == Undone(old(dbg.p.text), old(dbg.Table()), LastToFirst(|old(dbg.Table())|))
    ensures args == NoArgs || (args.Tokens? && !Accepted(args.tokens, |old(dbg.Table())|)) ==>
              dbg.Table() == old(dbg.Table()) && dbg.p.text == old(dbg.p.text)
    ensures !ok ==> dbg.p.life != Live || dbg.p.faults > old(dbg.p.faults)
                    || args == NoArgs || (args.Tokens? && !Accepted(args.tokens, |old(dbg.Table())|))
    ensures dbg.state != Idle ==> dbg.exact == old(dbg.exact)
    ensures Among(dbg.Table(), old(dbg.Table()))
  {
    if dbg.breakpoints.count == 0 { return true; }
    match args
    case NoArgs =>
      ok := false;
    case All =>
      ok := DeleteAll(dbg);
    case Tokens(tokens) =>
      var indices, n;
      ok, indices, n := Collect(tokens, dbg.breakpoints.count, MAX_BREAKPOINTS);
      if !ok { return; }
      ghost var collected := Members(indices[..n]);
      SortDescending(indices, n);
      forall k | 0 <= k < n ensures indices[..n][k] < |dbg.Table()| {
        assert indices[..n][k] in collected;
      }
      ok := DeleteEach(dbg, indices[..n]);
      if ok && old(dbg.exact) && dbg.state != Idle {
        DeletionRestores(dbg.p.program, old(dbg.p.text), dbg.p.text, old(dbg.Table()), Numbers(tokens));
      }
  }

  // The loop of `del all`: last to first.
  method DeleteAll(dbg: Debugger) returns (ok: bool)
    requires dbg.Valid() && dbg.temp == None
    modifies dbg`exact, dbg.p`text, dbg.p`faults, dbg.breakpoints, dbg.breakpoints.cells
    ensures dbg.Valid() && dbg.p.faults >= old(dbg.p.faults)
    ensures ok ==> dbg.Table() == []
    ensures ok && dbg.state != Idle ==> dbg.p.text == Undone(old(dbg.p.text), old(dbg.Table()), LastToFirst(|old(dbg.Table())|))
    ensures !ok ==> dbg.p.life != Live || dbg.p.faults > old(dbg.p.faults)
    ensures dbg.state != Idle ==> dbg.exact == old(dbg.exact)
    ensures Among(dbg.Table(), old(dbg.Table()))
  {
    ok := true;
    while dbg.breakpoints.count > 0
      invariant dbg.Valid() && dbg.p.faults >= old(dbg.p.faults)
      invariant dbg.state != Idle ==> dbg.exact == old(dbg.exact)
      invariant Among(dbg.Table(), old(dbg.Table()))
      invariant dbg.state != Idle ==>
                  Undone(dbg.p.text, dbg.Table(), LastToFirst(|dbg.Table()|))
                  == Undone(old(dbg.p.text), old(dbg.Table()), LastToFirst(|old(dbg.Table())|))
      decreases dbg.breakpoints.count
    {
      UndoneStep(dbg.p.text, dbg.Table());
      RemovesLast(dbg.Table());
      ok := DeleteBreakpointAt(dbg, dbg.breakpoints.count - 1);
      if !ok { return; }
    }
  }

  lemma RemovesLast(table: Table)
    requires table != []
    ensures RemoveAt(table, |table| - 1) == table[..|table| - 1]
  {
  }

  /** `break` twice at one address, the stop there, and `del all`: the text keeps a trap. */
  method BreakTwiceHitDelete(dbg: Debugger, i: nat) returns (ok: bool)
    requires dbg.Valid() && dbg.InStep() && dbg.temp == None && i < |dbg.Table()| && MatchesPc(dbg.p.cpu.pc, dbg.Table()[i])
    requires dbg.p.cpu.pc in dbg.p.text && dbg.p.program.text[dbg.p.cpu.pc] != TRAP
    modifies dbg`exact, dbg`regs, dbg.p`text, dbg.p`cpu, dbg.p`faults, dbg.breakpoints, dbg.breakpoints.cells
    ensures ok ==> dbg.Table() == [] && dbg.p.text != dbg.p.program.text
    ensures !ok ==> old(dbg.breakpoints.count) == MAX_BREAKPOINTS || dbg.p.faults > old(dbg.p.faults)
  {
    hide Patched, SavedSound, SavedWordSound, Native, IsOverlay, Undone;
    ghost var text, table := dbg.p.text, dbg.Table();
    ok := CmdBreak(dbg, dbg.p.cpu.pc);
    if !ok { return; }
    RepeatThenHitLeavesTrap(dbg.p.program, text, table, i);
    assert MatchesPc(dbg.p.cpu.pc, dbg.Table()[i]);
    ghost var hit;
    ok, hit := dbg.HandleHitAt(dbg.p.cpu.pc);
    if !ok { return; }
    ok := DeleteAll(dbg);
  }

  // The last loop of cmd_del.
  method DeleteEach(dbg: Debugger, order: seq<nat>) returns (ok: bool)
    requires dbg.Valid() && dbg.temp == None
    requires Descending(order) && forall k | 0 <= k < |order| :: order[k] < |dbg.Table()|
    modifies dbg`exact, dbg.p`text, dbg.p`faults, dbg.breakpoints, dbg.breakpoints.cells
    ensures dbg.Valid() && dbg.p.faults >= old(dbg.p.faults)
    ensures ok ==> dbg.Table() == Keep(old(dbg.Table()), Members(order))
    ensures !ok ==> exists k | 0 <= k <= |order| :: dbg.Table() == Keep(old(dbg.Table()), Members(order[..k]))
    ensures !ok ==> dbg.p.life != Live || dbg.p.faults > old(dbg.p.faults)
    ensures dbg.state != Idle ==> dbg.exact == old(dbg.exact)
    ensures Among(dbg.Table(), old(dbg.Table()))
  {
    ghost var table := dbg.Table();
    assert Members(order[..0]) == {};
    KeepAll(table, {});
    for i := 0 to |order|
      invariant dbg.Valid() && dbg.p.faults >= old(dbg.p.faults)
      invariant dbg.Table() == Keep(table, Members(order[..i]))
      invariant Among(dbg.Table(), old(dbg.Table()))
      invariant dbg.state != Idle ==> dbg.exact == old(dbg.exact)
    {
      DeletesNext(table, order, i);
      ok := DeleteBreakpointAt(dbg, order[i]);
      if !ok { return; }
    }
    assert order[..|order|] == order;
    ok := true;
  }

  lemma DeletesNext<T>(table: seq<T>, order: seq<nat>, i: nat)
    requires Descending(order) && i < |order| && order[i] < |table|
    ensures order[i] < |Keep(table, Members(order[..i]))|
    ensures RemoveAt(Keep(table, Members(order[..i])), order[i]) == Keep(table, Members(order[..i + 1]))
  {
    forall e | e in Members(order[..i]) ensures e > order[i] {}
    KeepOneMore(table, Members(order[..i]), order[i]);
    assert order[..i + 1] == order[..i] + [order[i]];
    assert Members(order[..i + 1]) == Members(order[..i]) + {order[i]};
  }

  /** What holds between commands, whatever failed before. */
  ghost predicate Ready(dbg: Debugger)
    reads dbg, dbg.p, dbg.breakpoints, dbg.breakpoints.cells, dbg.watch, dbg.watch.points, dbg.watch.points.cells
  {
    dbg.Valid() && dbg.WatchValid() && dbg.temp == None
  }

  // The waitpid calls whose failure the prompt loop does not notice.
  predicate Unnoticed(site: Option<Site>) {
    site == Some(OnLaunch) || site == Some(OnEntry) || site == Some(PastWatchpoint)
  }

  /** What a command that goes back to the prompt keeps: the exact overlay when no call on
      the process fails without cause, the account of the armed watchpoints when none
      on debug registers does either and, even when calls other than waitpid fail,
      the relation of the state to the process. The state is running exactly if a
      waitpid failed unnoticed. */
  twostate predicate Kept(dbg: Debugger, more: bool)
    reads dbg, dbg.p, dbg.breakpoints, dbg.breakpoints.cells, dbg.watch, dbg.watch.points, dbg.watch.points.cells
  {
    Ready(dbg) &&
    dbg.p.faults >= old(dbg.p.faults) && dbg.p.waitFaults >= old(dbg.p.waitFaults) && dbg.watch.faults >= old(dbg.watch.faults) &&
    (old(dbg.Overlaid()) && dbg.Calm() ==> dbg.Overlaid()) && (old(dbg.Healthy()) && dbg.Quiet() ==> dbg.Healthy()) &&
    (old(dbg.Prompt()) && dbg.p.waitFaults == old(dbg.p.waitFaults) && more ==> dbg.Prompt()) &&
    (old(dbg.lost) == None && more ==> (dbg.state == Running <==> Unnoticed(dbg.lost)))
  }

  /** With no failing call a continue resumes the debuggee from a stop and runs past no
      breakpoint but the one there; with no watchpoint set no breakpoint is left armed
      where it stops. It ends the prompt loop exactly when the process ended in the
      step over that breakpoint. */
  twostate predicate Continued(dbg: Debugger, more: bool)
    reads dbg, dbg.p, dbg.breakpoints, dbg.watch, dbg.watch.points
  {
    old(dbg.InStep()) && dbg.Quiet() ==>
      dbg.NonePassed()
      && (!more <==> old(dbg.StepsOver()) == 1 && dbg.state == Idle && dbg.p.resumes == old(dbg.p.resumes) + 1)
      && (dbg.state == Stopped ==>
            RanOn(dbg, dbg.p.resumes - old(dbg.p.resumes + dbg.StepsOver()) - 1)
            && dbg.p.executed >= old(dbg.p.executed + dbg.StepsOff())
            && (dbg.watch.points.count == 0 ==> !ArmedAt(dbg.Table(), dbg.p.cpu.pc)))
  }

  /** It was told to continue once, and at most once to step `past` a watched access
      after that; before, nothing watched was touched and no trap run through. Unless
      a signal stopped it, it is at a breakpoint just hit or at a trap of its own, or
      has just made the access. */
  twostate predicate RanOn(dbg: Debugger, past: int)
    reads dbg, dbg.p, dbg.breakpoints, dbg.watch, dbg.watch.points
  {
    dbg.p.continues == old(dbg.p.continues) + 1 && 0 <= past <= 1 &&
    (forall k: nat | old(dbg.p.executed) <= k && k + past < dbg.p.executed ::
       UntrappedAt(dbg.p.program, old(dbg.p.text), old(dbg.watch.Current()), Native(dbg.p.program, k))) &&
    (old(dbg.watch.accounted) && dbg.Unsignalled() ==>
       if past == 0 then DisabledAt(dbg.Table(), dbg.p.cpu.pc) || !Fetchable(dbg.p.program.text, dbg.p.cpu.pc)
       else dbg.watch.points.count > 0 && dbg.p.executed > 0 && JustTouched(dbg))
  }

  // The instruction before the one at the pc touched what was watched.
  twostate predicate JustTouched(dbg: Debugger)
    requires dbg.p.executed > 0
    reads dbg.p
  {
    var o := Native(dbg.p.program, dbg.p.executed - 1);
    o.Next? && Touched(dbg.p.program, old(dbg.watch.Current()), o.cpu)
  }

  // The `continue` case of cdbg_repl.
  method CmdContinue(dbg: Debugger) returns (more: bool)
    requires Ready(dbg) && dbg.state != Running
    modifies dbg`exact, dbg`pid, dbg`state, dbg`regs, dbg`lost, dbg`announced, dbg.p,
             dbg.breakpoints`contents, dbg.breakpoints.cells, dbg.watch,
             dbg.watch.points`contents, dbg.watch.points.cells
    ensures Kept(dbg, more) && dbg.Onward()
    ensures Continued(dbg, more)
  {
    hide UntrappedAt, Touched, Native, IsExact, Patched, SavedSound, SavedWordSound, WB.Bank.Valid, Tracee.StopsFor,
         ArmedAt, Fetchable, NoneMissed, AllArmed, StepsOffAt, StepsAwayAt;
    if dbg.state == Idle { return true; }
    var resumed, rc := dbg.ContinueAndWait(OnContinue);
    if resumed != 0 { return false; }
    more := AfterContinue(dbg, rc, old(dbg.p.executed + dbg.StepsOff()));
  }

  // Its end: the exit, or the stop, is reported.
  method AfterContinue(dbg: Debugger, rc: int, ghost lo: nat) returns (more: bool)
    requires Ready(dbg) && -1 <= rc <= 1 && (rc == 0 ==> dbg.state == Stopped && dbg.p.life == Live) && (rc == 1 <==> dbg.state == Idle)
    modifies dbg`exact, dbg`pid, dbg`state, dbg`regs, dbg`lost, dbg`announced, dbg.p,
             dbg.breakpoints`contents, dbg.breakpoints.cells, dbg.watch,
             dbg.watch.points`contents, dbg.watch.points.cells
    ensures Ready(dbg) && dbg.Onward() && more == (rc >= 0)
    ensures rc != 0 ==> dbg.state == old(dbg.state) && dbg.lost == old(dbg.lost) && dbg.p.waitFaults == old(dbg.p.waitFaults) && dbg.p.executed == old(dbg.p.executed)
                        && dbg.p.resumes == old(dbg.p.resumes)
    ensures rc == 0 ==> dbg.RunningIfLost(PastWatchpoint) && dbg.SteppedPast()
    ensures rc == 0 && old(dbg.Explained()) && dbg.Quiet() && dbg.state == Stopped ==> dbg.Shown()
    ensures dbg.state == Idle ==> dbg.pid == 0 && dbg.NothingEnabled()
    ensures dbg.state != Idle ==> dbg.pid == old(dbg.pid)
    ensures old(dbg.InStep()) && dbg.Calm() && dbg.state == Stopped ==> dbg.InStep()
    ensures old(dbg.InStep()) && old(dbg.watch.accounted) && dbg.Quiet() && dbg.state == Stopped ==> dbg.watch.accounted
    ensures rc == 0 && old(dbg.watch.points.count) == 0 && old(dbg.exact) && dbg.Quiet() ==> !ArmedAt(dbg.Table(), dbg.p.cpu.pc)
    ensures old(NoneMissed(dbg.p.program, dbg.Table(), lo, dbg.p.executed) && (rc == 0 ==> dbg.exact && AllArmed(dbg.Table()))) ==>
              NoneMissed(dbg.p.program, dbg.Table(), lo, dbg.p.executed)
  {
    if rc == 0 {
      var reported := dbg.AnnounceStop(lo);
      more := true;
    } else {
      dbg.ReportProcessExit();
      more := dbg.state == Idle;
      if old(NoneMissed(dbg.p.program, dbg.Table(), lo, dbg.p.executed)) {
        NoneMissedDependsOnAddrs(dbg.p.program, old(dbg.Table()), dbg.Table(), lo, dbg.p.executed);
      }
    }
  }

  datatype StepKind = Instruction | Line | NextLine

  /** With only breakpoints to interrupt it and no failing call, `si` runs the instruction
      at the pc unless a breakpoint is armed there; `step` and `next` resume the
      debuggee, stop on another line or at a breakpoint, and give up only after
      MAX_STEPS steps or at a call whose return address is not in the text. `si`
      and `step` run past no breakpoint but the one they start from. `step` runs only
      instructions of the line it starts from. So does `next` unless there is a signal,
      apart from the calls on that line, in which nothing at the return address runs and
      which, with no watchpoint set, it leaves only there, at a breakpoint or a trap.
      Where there is no line, both run one instruction. */
  twostate predicate Stepped(dbg: Debugger, kind: StepKind, more: bool)
    reads dbg, dbg.p, dbg.breakpoints, dbg.watch, dbg.watch.points
  {
    (kind == Line && dbg.lineAt(old(dbg.p.cpu.pc)).Some? && dbg.Steady() ==>
       SameLine(dbg.p.program, dbg.lineAt, dbg.lineAt(old(dbg.p.cpu.pc)), old(dbg.p.executed), dbg.p.executed)) &&
    (kind == NextLine && dbg.lineAt(old(dbg.p.cpu.pc)).Some? && old(dbg.AtStop()) && dbg.Quiet() && dbg.Unsignalled() ==>
       exists marks :: Course(dbg.p.program, old(dbg.Table()), dbg.lineAt, dbg.lineAt(old(dbg.p.cpu.pc)), old(dbg.watch.points.count) == 0, marks)
                       && marks[0] == old(dbg.p.executed) && marks[|marks| - 1] == dbg.p.executed) &&
    (old(dbg.Undisturbed()) && dbg.Quiet() ==>
       if kind == Instruction then
         more && dbg.NonePassed() && (dbg.p.life != Killed ==> dbg.p.executed == old(dbg.p.executed + dbg.Runnable()))
       else
         (more ==> dbg.p.resumes > old(dbg.p.resumes) || dbg.state == Idle)
         && (dbg.state == Stopped && more && dbg.lineAt(old(dbg.p.cpu.pc)).Some? ==> dbg.Elsewhere(dbg.lineAt(old(dbg.p.cpu.pc))))
         && (!more ==> dbg.p.resumes >= old(dbg.p.resumes) + MAX_STEPS || (kind == NextLine && dbg.StuckAtCall()))
         && (kind == Line ==> dbg.NonePassed())
         && (more && dbg.lineAt(old(dbg.p.cpu.pc)).None? && dbg.p.life != Killed ==> dbg.p.executed == old(dbg.p.executed + dbg.Runnable())))
  }

  // The `si` case of cdbg_repl.
  method CmdInstruction(dbg: Debugger) returns (more: bool)
    requires Ready(dbg) && dbg.state != Running
    modifies dbg`exact, dbg`pid, dbg`state, dbg`regs, dbg`lost, dbg`announced, dbg.p,
             dbg.breakpoints`contents, dbg.breakpoints.cells, dbg.watch,
             dbg.watch.points`contents, dbg.watch.points.cells
    ensures Kept(dbg, more) && dbg.Onward() && Stepped(dbg, Instruction, more)
    ensures old(dbg.state) == Stopped && old(dbg.StepWillLose()) && dbg.p.faults == old(dbg.p.faults) && dbg.Unsignalled() && dbg.state != Idle ==>
              more && dbg.state == Running
  {
    hide dbg.TableValid, dbg.WatchValid, UntrappedAt, Touched, Native, Tracee.StopsFor, ArmedAt, Fetchable, StepsOffAt,
         StepsAwayAt;
    if dbg.state == Idle { return true; }
    var ok := dbg.StepInstruction();
    if !ok && dbg.state != Idle { return false; }
    dbg.ReportProcessExit();
    more := true;
  }

  // The `step` case of cdbg_repl.
  method CmdLine(dbg: Debugger) returns (more: bool)
    requires Ready(dbg) && dbg.state != Running
    modifies dbg`exact, dbg`pid, dbg`state, dbg`regs, dbg`lost, dbg`announced, dbg.p,
             dbg.breakpoints`contents, dbg.breakpoints.cells, dbg.watch,
             dbg.watch.points`contents, dbg.watch.points.cells
    ensures Kept(dbg, more) && dbg.Onward() && Stepped(dbg, Line, more)
  {
    hide dbg.TableValid, dbg.WatchValid, UntrappedAt, Touched, Native, Tracee.StopsFor, ArmedAt, Fetchable, StepsOffAt,
         StepsAwayAt;
    if dbg.state == Idle { return true; }
    var ok := dbg.StepNextLine();
    if !ok && dbg.state != Idle { return false; }
    dbg.ReportProcessExit();
    more := true;
  }

  // The `next` case of cdbg_repl.
  method CmdNextLine(dbg: Debugger) returns (more: bool)
    requires Ready(dbg) && dbg.state != Running
    modifies dbg`temp, dbg`exact, dbg`pid, dbg`state, dbg`regs, dbg`lost, dbg`announced, dbg.p,
             dbg.breakpoints`contents, dbg.breakpoints.cells, dbg.watch,
             dbg.watch.points`contents, dbg.watch.points.cells
    ensures Kept(dbg, more) && dbg.Onward() && Stepped(dbg, NextLine, more)
  {
    hide dbg.TableValid, dbg.WatchValid, UntrappedAt, Touched, Native, Tracee.StopsFor, ArmedAt, Fetchable, NoneMissed,
         AllArmed, StepsOffAt, StepsAwayAt;
    if dbg.state == Idle { return true; }
    var ok;
    ghost var marks;
    ok, marks := dbg.NextSourceLine();
    if !ok && dbg.state != Idle { return false; }
    dbg.ReportProcessExit();
    more := true;
  }

  /** `break` appends an enabled entry and traps its address, or changes nothing: only if the
      table is full, the address is not in the text, there is no process, or a call failed. */
  twostate predicate Broke(dbg: Debugger, addr: Addr)
    reads dbg, dbg.p, dbg.breakpoints
  {
    if dbg.Table() == old(dbg.Table()) then
      dbg.p.text == old(dbg.p.text) && (dbg.p.life == Live && dbg.Calm() ==> |dbg.Table()| >= MAX_BREAKPOINTS || addr !in dbg.p.text)
    else
      addr in old(dbg.p.text) && dbg.Table() == old(dbg.Table()) + [Breakpoint(addr, old(dbg.p.text[addr]), true)]
      && dbg.p.text == old(dbg.p.text)[addr := TRAP]
  }

  // The `break` case of cdbg_repl.
  method CmdBreakTracked(dbg: Debugger, addr: Addr) returns (more: bool)
    requires Ready(dbg) && dbg.state != Running
    modifies dbg`repeated, dbg`exact, dbg.p`text, dbg.p`faults, dbg.breakpoints, dbg.breakpoints.cells
    ensures Kept(dbg, more) && more
    ensures dbg.repeated == old(dbg.repeated) || Listed(old(dbg.Table()), addr)
    ensures Broke(dbg, addr)
  {
    hide UntrappedAt, Touched, Native, IsExact, Patched, SavedSound, SavedWordSound, WB.Bank.Valid;
    var ok := CmdBreak(dbg, addr);
    ghost var again := ok && Listed(old(dbg.Table()), addr);
    if again { dbg.repeated := true; }
    more := true;
  }

  // The `kill` case of cdbg_repl.
  method CmdKill(dbg: Debugger) returns (more: bool)
    requires Ready(dbg) && dbg.state != Running
    modifies dbg`exact, dbg`pid, dbg`state, dbg`lost, dbg.p,
             dbg.breakpoints`contents, dbg.breakpoints.cells, dbg.watch, dbg.watch.points`contents, dbg.watch.points.cells
    ensures Kept(dbg, more) && more
    ensures old(dbg.Prompt()) && dbg.Quiet() ==> dbg.pid == 0
  {
    more := true;
    if dbg.pid == 0 || dbg.state == Idle { return; }
    var ok := dbg.StopDebuggee();
  }

  /** `watch` adds a live watchpoint in a free slot, or changes nothing: only if its operand is
      no scalar that one slot can watch, the table is full or the hardware's slots are
      all owned, the debuggee is not stopped, or a call failed. */
  twostate predicate Watched(dbg: Debugger, operand: Option<(Addr, nat)>, kind: WE.Kind)
    reads dbg, dbg.p, dbg.breakpoints, dbg.watch, dbg.watch.points
  {
    dbg.Table() == old(dbg.Table()) && dbg.p.text == old(dbg.p.text) &&
    if dbg.watch.points.contents == old(dbg.watch.points.contents) then
      dbg.state == Stopped && dbg.pid > 0 && dbg.p.life == Live && dbg.Quiet() ==>
        operand.None? || |dbg.watch.points.contents| >= WB.MAX_WATCHPOINTS
        || !WE.Encodable(operand.value.0, operand.value.1) || dbg.watch.NoSlotLeft()
    else
      operand.Some? && WB.Added(old(dbg.watch.points.contents), dbg.watch.points.contents, operand.value.0, operand.value.1, kind)
  }

  // cmd_watch; `operand` is what its expression evaluates to, if to a scalar
  method CmdWatch(dbg: Debugger, operand: Option<(Addr, nat)>, kind: WE.Kind) returns (ok: bool)
    requires Ready(dbg) && dbg.state != Running
    modifies dbg`regs, dbg.p`faults, dbg.watch, dbg.watch.points, dbg.watch.points.cells
    ensures Kept(dbg, true)
    ensures ok ==> operand.Some? && WB.Added(old(dbg.watch.points.contents), dbg.watch.points.contents, operand.value.0, operand.value.1, kind)
    ensures !ok ==> dbg.watch.points.contents == old(dbg.watch.points.contents)
    ensures !ok && dbg.state == Stopped && dbg.pid > 0 && dbg.p.life == Live && dbg.Quiet() ==>
              operand.None? || |old(dbg.watch.points.contents)| >= WB.MAX_WATCHPOINTS
              || !WE.Encodable(operand.value.0, operand.value.1) || old(dbg.watch.NoSlotLeft())
    ensures dbg.watch.accounted == old(dbg.watch.accounted) || dbg.watch.leaks > old(dbg.watch.leaks)
  {
    if dbg.pid == 0 || dbg.state != Stopped { return false; }
    ok := dbg.RefreshRegs();
    if !ok || operand.None? { return false; }
    ok := dbg.watch.Add(operand.value.0, operand.value.1, kind);
  }

  // cmd_delwatch
  method CmdDelWatch(dbg: Debugger, args: DelArgs) returns (ok: bool)
    requires Ready(dbg) && dbg.state != Running
    modifies dbg.watch, dbg.watch.points, dbg.watch.points.cells
    ensures Kept(dbg, true)
    ensures ok <==> old(dbg.watch.points.count) == 0 || args == All
                    || (args.Tokens? && Accepted(args.tokens, |old(dbg.watch.points.contents)|))
    ensures dbg.watch.points.contents == Left(old(dbg.watch.points.contents), args)
  {
    if dbg.watch.points.count == 0 { return true; }
    match args
    case NoArgs =>
      ok := false;
    case All =>
      DeleteAllWatchpoints(dbg.watch, dbg.pid > 0 && dbg.state != Idle);
      ok := true;
    case Tokens(tokens) =>
      var indices, n;
      ok, indices, n := Collect(tokens, dbg.watch.points.count, WB.MAX_WATCHPOINTS);
      if !ok { return; }
      KeepSelects(dbg.watch.points.contents, Numbers(tokens));
      DeleteSorted(dbg.watch, indices, n, dbg.pid > 0 && dbg.state != Idle);
      forall i | 0 <= i < |dbg.watch.points.contents|
        ensures dbg.watch.points.contents[i] in old(dbg.watch.points.contents)
      {
        assert dbg.watch.points.contents[i] in dbg.watch.points.contents;
      }
  }

  method DeleteSorted(watch: WB.Bank, indices: array<nat>, n: nat, live: bool)
    requires watch.Valid() && (indices as object) != watch.points.cells
    requires n <= indices.Length && DistinctNats(indices[..n])
    requires forall x | x in indices[..n] :: x < |watch.points.contents|
    modifies indices, watch, watch.points, watch.points.cells
    ensures watch.Valid() && watch.faults >= old(watch.faults)
    ensures watch.points.contents == Keep(old(watch.points.contents), old(Members(indices[..n])))
    ensures old(watch.accounted) && live && watch.faults == old(watch.faults) ==> watch.accounted
  {
    ghost var collected := Members(indices[..n]);
    SortDescending(indices, n);
    forall k | 0 <= k < n ensures indices[..n][k] < |watch.points.contents| {
      assert indices[..n][k] in collected;
    }
    DeleteEachWatchpoint(watch, indices[..n], live);
  }

  method DeleteAllWatchpoints(watch: WB.Bank, live: bool)
    requires watch.Valid()
    modifies watch, watch.points, watch.points.cells
    ensures watch.Valid() && watch.points.contents == [] && watch.faults >= old(watch.faults)
    ensures old(watch.accounted) && live && watch.faults == old(watch.faults) ==> watch.accounted
  {
    while watch.points.count > 0
      invariant watch.Valid() && watch.faults >= old(watch.faults)
      invariant old(watch.accounted) && live && watch.faults == old(watch.faults) ==> watch.accounted
      decreases watch.points.count
    {
      watch.DeleteAt(watch.points.count - 1, live);
    }
  }

  method DeleteEachWatchpoint(watch: WB.Bank, order: seq<nat>, live: bool)
    requires watch.Valid()
    requires Descending(order) && forall k | 0 <= k < |order| :: order[k] < |watch.points.contents|
    modifies watch, watch.points, watch.points.cells
    ensures watch.Valid() && watch.faults >= old(watch.faults)
    ensures watch.points.contents == Keep(old(watch.points.contents), Members(order))
    ensures old(watch.accounted) && live && watch.faults == old(watch.faults) ==> watch.accounted
  {
    ghost var table := watch.points.contents;
    assert Members(order[..0]) == {};
    KeepAll(table, {});
    for i := 0 to |order|
      invariant watch.Valid() && watch.faults >= old(watch.faults)
      invariant watch.points.contents == Keep(table, Members(order[..i]))
      invariant old(watch.accounted) && live && watch.faults == old(watch.faults) ==> watch.accounted
    {
      DeletesNext(table, order, i);
      watch.DeleteAt(order[i], live);
    }
    assert order[..|order|] == order;
  }

  /** With no failing call, `run` spawns a process or is told that it cannot be spawned; and
      unless the process has ended it is stopped, with empty tables and its original
      text, after running to the entry address if that is in the text. The instruction there has
      not run, even if the process has ended; and unless a signal stopped it, the
      debuggee is there or at a trap of its own. */
  twostate predicate Started(dbg: Debugger, prog: Program, entry: Option<Addr>)
    reads dbg, dbg.p, dbg.breakpoints, dbg.watch, dbg.watch.points
  {
    dbg.Quiet() ==>
      dbg.p.spawnFaults > old(dbg.p.spawnFaults)
      || (dbg.p.spawns > old(dbg.p.spawns) && dbg.p.program == prog
          && (entry.Some? ==> NotAt(prog, entry.value, 0, dbg.p.executed))
          && (dbg.state != Idle ==>
                dbg.state == Stopped && dbg.p.text == prog.text && dbg.Table() == [] && dbg.watch.points.contents == []
                && (entry.Some? && entry.value in prog.text ==>
                      dbg.p.resumes > old(dbg.p.resumes)
                      && (dbg.p.signals == 0 ==> dbg.p.cpu.pc == entry.value || !Fetchable(prog.text, dbg.p.cpu.pc)))))
  }

  // cdbg_run on a loaded program
  method CmdRun(dbg: Debugger, prog: Program, entry: Option<Addr>) returns (ok: bool)
    requires Ready(dbg) && dbg.state != Running
    modifies dbg`temp, dbg`exact, dbg`pid, dbg`state, dbg`regs, dbg`repeated, dbg`lost, dbg.p, dbg.breakpoints, dbg.breakpoints.cells,
             dbg.watch, dbg.watch.points, dbg.watch.points.cells
    ensures Kept(dbg, true)
    ensures ok ==> dbg.state == Stopped && dbg.p.program == prog && dbg.Table() == [] && dbg.watch.points.contents == [] && !dbg.repeated
    ensures Started(dbg, prog, entry)
    ensures !ok && dbg.Quiet() ==>
              dbg.p.spawnFaults > old(dbg.p.spawnFaults)
              || (dbg.p.spawns > old(dbg.p.spawns) && (dbg.state == Idle || (entry.Some? && entry.value !in prog.text)))
  {
    hide UntrappedAt, Touched, Native, IsExact, Patched, SavedSound, SavedWordSound, WB.Bank.Valid;
    ok := dbg.StopDebuggee();
    if !ok { return; }
    ok := Launch(dbg, prog);
    if ok { ok := RunToEntry(dbg, entry); }
  }

  // Its end: run_to_entry_stop in a process just started.
  method RunToEntry(dbg: Debugger, entry: Option<Addr>) returns (ok: bool)
    requires Ready(dbg) && dbg.state == Stopped && dbg.Healthy() && !dbg.repeated && dbg.Table() == []
    modifies dbg`temp, dbg`exact, dbg`pid, dbg`state, dbg`regs, dbg`lost, dbg.p, dbg.breakpoints`contents, dbg.breakpoints.cells,
             dbg.watch, dbg.watch.points`contents, dbg.watch.points.cells
    ensures Ready(dbg) && dbg.Onward()
    ensures ok ==> dbg.state == Stopped
    ensures dbg.state != Idle ==> dbg.watch.points.contents == old(dbg.watch.points.contents)
    ensures dbg.p.spawns == old(dbg.p.spawns) && dbg.p.spawnFaults == old(dbg.p.spawnFaults)
    ensures dbg.Calm() ==> dbg.Overlaid() && (dbg.state == Stopped ==> dbg.p.text == dbg.p.program.text)
    ensures dbg.Quiet() ==> dbg.Healthy()
    ensures dbg.Calm() && dbg.state == Stopped && entry.Some? && entry.value in old(dbg.p.text) ==> ok && dbg.p.resumes > old(dbg.p.resumes)
    ensures entry.Some? ==> NotAt(dbg.p.program, entry.value, old(dbg.p.executed), dbg.p.executed)
    ensures old(dbg.watch.points.contents) == [] && dbg.Quiet() && dbg.Unsignalled() && dbg.state == Stopped && entry.Some? && entry.value in old(dbg.p.text) ==>
              dbg.p.cpu.pc == entry.value || !Fetchable(dbg.p.program.text, dbg.p.cpu.pc)
    ensures !ok ==> entry.Some?
    ensures dbg.RunningIfLost(OnEntry)
    ensures dbg.state == Idle ==> dbg.pid == 0 && dbg.NothingEnabled()
  {
    var rc := dbg.RunToEntryStop(entry);
    ok := rc >= 0;
    if dbg.state == Idle { dbg.ReportProcessExit(); }
    if dbg.exact { EmptyTableIsOriginal(dbg.p.program, dbg.p.text); }
  }

  // From clearing the tables to the first stop of the new process.
  method Launch(dbg: Debugger, prog: Program) returns (ok: bool)
    requires Ready(dbg) && dbg.pid == 0 && dbg.state == Idle
    modifies dbg`exact, dbg`pid, dbg`state, dbg`regs, dbg`repeated, dbg`lost, dbg.p, dbg.breakpoints, dbg.breakpoints.cells,
             dbg.watch, dbg.watch.points, dbg.watch.points.cells
    ensures Ready(dbg) && !dbg.repeated && dbg.Table() == [] && dbg.watch.points.contents == []
    ensures dbg.p.faults >= old(dbg.p.faults) && dbg.p.waitFaults >= old(dbg.p.waitFaults) && dbg.watch.faults == old(dbg.watch.faults)
    ensures ok ==> dbg.state == Stopped && dbg.p.program == prog && dbg.Healthy()
    ensures dbg.RunningIfLost(OnLaunch)
    ensures if dbg.p.spawns == old(dbg.p.spawns) then !ok && dbg.p.spawnFaults > old(dbg.p.spawnFaults)
            else dbg.p.spawns > old(dbg.p.spawns) && dbg.p.program == prog && dbg.p.executed == 0
                 && (ok ==> dbg.p.text == prog.text && dbg.p.resumes >= old(dbg.p.resumes))
    ensures dbg.state == Stopped && dbg.Calm() ==> ok
    ensures dbg.state == Idle ==> dbg.pid == 0
    ensures !ok && dbg.p.faults == old(dbg.p.faults) && dbg.p.waitFaults == old(dbg.p.waitFaults) ==> dbg.state == Idle
  {
    ok := Exec(dbg, prog);
    if ok { ok := FirstStop(dbg); }
  }

  // Its end: cdbg_wait for the process just spawned.
  method FirstStop(dbg: Debugger) returns (ok: bool)
    requires Ready(dbg) && dbg.state == Running && dbg.pid > 0 && dbg.p.life == Live && dbg.exact && dbg.watch.accounted && dbg.Table() == []
             && dbg.p.resume == Halted
    modifies dbg`exact, dbg`pid, dbg`state, dbg`regs, dbg`lost, dbg.p, dbg.breakpoints`contents, dbg.breakpoints.cells,
             dbg.watch, dbg.watch.points`contents, dbg.watch.points.cells
    ensures Ready(dbg) && dbg.Onward() && dbg.LostAt(OnLaunch) && dbg.p.executed == old(dbg.p.executed)
    ensures ok ==> dbg.state == Stopped && dbg.InStep() && dbg.watch.accounted && dbg.p.text == dbg.p.program.text
    ensures dbg.state == Running <==> dbg.p.waitFaults > old(dbg.p.waitFaults)
    ensures dbg.state == Idle ==> dbg.pid == 0
    ensures dbg.state == Stopped && dbg.Calm() ==> ok
    ensures dbg.state != Idle ==> dbg.watch.points.contents == old(dbg.watch.points.contents)
    ensures |dbg.watch.points.contents| == |old(dbg.watch.points.contents)| && dbg.watch.faults == old(dbg.watch.faults)
    ensures !ok ==> dbg.state == Idle || !dbg.Calm()
  {
    var rc := dbg.Wait(OnLaunch);
    ok := rc == 0;
    if rc != 0 { dbg.ReportProcessExit(); }
    if dbg.exact { EmptyTableIsOriginal(dbg.p.program, dbg.p.text); }
  }

  // Clearing the tables and cdbg_spawn.
  method Exec(dbg: Debugger, prog: Program) returns (ok: bool)
    requires Ready(dbg) && dbg.pid == 0 && dbg.state == Idle
    modifies dbg`exact, dbg`pid, dbg`state, dbg`repeated, dbg.p`program, dbg.p`text, dbg.p`cpu, dbg.p`life, dbg.p`resume, dbg.p`executed,
             dbg.p`signals, dbg.p`spawns, dbg.p`spawnFaults, dbg.breakpoints, dbg.breakpoints.cells, dbg.watch, dbg.watch.points, dbg.watch.points.cells
    ensures Ready(dbg) && dbg.watch.faults == old(dbg.watch.faults)
    ensures if ok then dbg.p.spawns > old(dbg.p.spawns) else dbg.p.spawnFaults > old(dbg.p.spawnFaults) && dbg.p.spawns == old(dbg.p.spawns)
    ensures dbg.Table() == [] && dbg.watch.points.contents == [] && !dbg.repeated
    ensures ok ==> dbg.state == Running && dbg.pid > 0 && dbg.p.program == prog && dbg.p.life == Live && dbg.exact && dbg.watch.accounted
                   && dbg.p.resume == Halted && dbg.p.executed == 0
    ensures !ok ==> dbg.state == Idle && dbg.pid == 0
  {
    hide DisabledOnlyAt, ArmedAt, Native, WB.Bank.Valid;
    ClearTables(dbg);
    dbg.watch.ProcessStarted();
    EmptyTableIsOriginal(prog, prog.text);
    ok := dbg.p.Spawn(prog);
    if !ok { return; }
    var pid: nat :| pid > 0;
    dbg.pid, dbg.state, dbg.exact := pid, Running, true;
  }

  method ClearTables(dbg: Debugger)
    requires Ready(dbg)
    modifies dbg`exact, dbg`repeated, dbg.breakpoints, dbg.breakpoints.cells, dbg.watch`accounted, dbg.watch.points, dbg.watch.points.cells
    ensures Ready(dbg) && dbg.Table() == [] && dbg.watch.points.contents == [] && !dbg.repeated && !dbg.exact
  {
    dbg.exact, dbg.repeated := false, false;
    dbg.breakpoints.Clear();
    dbg.watch.Clear();
  }

  /** While the debuggee is stopped, `del` leaves the entries its arguments do not
      number, and the original words under those it deletes; `del all` restores
      the whole text exactly when every word of it comes back. */
  twostate predicate Deleted(dbg: Debugger, args: DelArgs)
    reads dbg, dbg.p, dbg.breakpoints, dbg.breakpoints.cells, dbg.watch, dbg.watch.points, dbg.watch.points.cells
  {
    dbg.p.life == Live && dbg.Quiet() ==>
      dbg.Table() == Left(old(dbg.Table()), args)
      && (dbg.state != Idle ==>
            (args == All ==>
               (dbg.p.text == dbg.p.program.text <==>
                forall a | a in dbg.p.program.text :: a in old(dbg.p.text) && ComesBack(dbg.p.program, old(dbg.p.text), old(dbg.Table()), a)))
            && (old(dbg.exact) && args == All ==> dbg.p.text == dbg.p.program.text)
            && (old(dbg.exact) && args.Tokens? && Accepted(args.tokens, |old(dbg.Table())|) ==>
                  RestoredAt(dbg.p.program, old(dbg.p.text), dbg.p.text, old(dbg.Table()), Numbers(args.tokens))))
  }

  // The `del` case of cdbg_repl.
  method CmdDelete(dbg: Debugger, args: DelArgs) returns (more: bool)
    requires Ready(dbg) && dbg.state != Running
    modifies dbg`exact, dbg.p`text, dbg.p`faults, dbg.breakpoints, dbg.breakpoints.cells
    ensures Kept(dbg, more) && more
    ensures Deleted(dbg, args)
  {
    hide DisabledOnlyAt, ArmedAt, DisabledAt, AllArmed, Native, UntrappedAt, WB.Bank.Valid, IsOverlay, ComesBack;
    var ok := CmdDel(dbg, args);
    AmongKeeps(dbg.Table(), old(dbg.Table()), dbg.p.cpu.pc);
    EmptyTableIsOriginal(dbg.p.program, dbg.p.text);
    DelAllRestoresIff(dbg.p.program, old(dbg.p.text), old(dbg.Table()));
    more := true;
  }

  /** The commands that touch the debuggee or the tables. `Other` stands for those
      that only look. */
  datatype Command =
    | Run(prog: Program, entry: Option<Addr>)
    | Continue
    | Step(kind: StepKind)
    | Break(addr: Addr)
    | Delete(args: DelArgs)
    | Watch(operand: Option<(Addr, nat)>, watchKind: WE.Kind)
    | DeleteWatch(args: DelArgs)
    | Kill
    | Other

  /** What each command does, on top of what it keeps. */
  twostate predicate Did(dbg: Debugger, cmd: Command, more: bool)
    reads dbg, dbg.p, dbg.breakpoints, dbg.breakpoints.cells, dbg.watch, dbg.watch.points, dbg.watch.points.cells
  {
    match cmd
    case Run(prog, entry) => Started(dbg, prog, entry)
    case Continue => Continued(dbg, more)
    case Step(kind) => Stepped(dbg, kind, more)
    case Break(addr) => Broke(dbg, addr)
    case Delete(args) => Deleted(dbg, args)
    case Watch(operand, watchKind) => Watched(dbg, operand, watchKind)
    case DeleteWatch(args) => dbg.watch.points.contents == Left(old(dbg.watch.points.contents), args)
    case Kill => old(dbg.Prompt()) && dbg.Quiet() ==> dbg.pid == 0
    case Other => true
  }

  /** One turn of the loop of cdbg_repl. If it comes back to the prompt, the state is
      running if and only if the waitpid of the launch or the entry stop of `run`, or
      that of the step past a watchpoint, failed in it. */
  method Turn(dbg: Debugger, cmd: Command) returns (more: bool)
    requires Ready(dbg) && dbg.state != Running
    modifies dbg`temp, dbg`exact, dbg`pid, dbg`state, dbg`regs, dbg`repeated, dbg`lost, dbg`announced, dbg.p, dbg.breakpoints, dbg.breakpoints.cells,
             dbg.watch, dbg.watch.points, dbg.watch.points.cells
    ensures Kept(dbg, more) && Did(dbg, cmd, more)
    ensures more ==> (dbg.state == Running <==> Unnoticed(dbg.lost))
    ensures cmd == Step(Instruction) && old(dbg.state) == Stopped && old(dbg.StepWillLose()) && dbg.p.faults == old(dbg.p.faults) && dbg.Unsignalled() && dbg.state != Idle ==>
              more && dbg.state == Running
  {
    hide dbg.TableValid, dbg.WatchValid, UntrappedAt, Touched, Native, Tracee.StopsFor, ArmedAt, Fetchable, StepsOffAt,
         StepsAwayAt;
    dbg.lost := None;
    more := Obey(dbg, cmd);
  }

  method Obey(dbg: Debugger, cmd: Command) returns (more: bool)
    requires Ready(dbg) && dbg.state != Running && dbg.lost == None
    modifies dbg`temp, dbg`exact, dbg`pid, dbg`state, dbg`regs, dbg`repeated, dbg`lost, dbg`announced, dbg.p, dbg.breakpoints, dbg.breakpoints.cells,
             dbg.watch, dbg.watch.points, dbg.watch.points.cells
    ensures Kept(dbg, more) && Did(dbg, cmd, more)
    ensures cmd == Step(Instruction) && old(dbg.state) == Stopped && old(dbg.StepWillLose()) && dbg.p.faults == old(dbg.p.faults) && dbg.Unsignalled() && dbg.state != Idle ==>
              more && dbg.state == Running
  {
    hide dbg.TableValid, dbg.WatchValid, UntrappedAt, Touched, Native;
    more := true;
    var ok;
    match cmd {
      case Run(prog, entry) => ok := CmdRun(dbg, prog, entry);
      case Continue => more := CmdContinue(dbg);
      case Step(Instruction) => more := CmdInstruction(dbg);
      case Step(Line) => more := CmdLine(dbg);
      case Step(NextLine) => more := CmdNextLine(dbg);
      case Break(addr) => more := CmdBreakTracked(dbg, addr);
      case Delete(args) => more := CmdDelete(dbg, args);
      case Watch(operand, watchKind) => ok := CmdWatch(dbg, operand, watchKind);
      case DeleteWatch(args) => ok := CmdDelWatch(dbg, args);
      case Kill => more := CmdKill(dbg);
      case Other =>
    }
  }

  /** Any run of the prompt loop. As long as waitpid does not fail, the prompt only
      shows while the debuggee is stopped or gone, and nothing is enabled when it
      is gone. As long as no call on the process fails without cause and no breakpoint
      is repeated, a stopped debuggee's text is the original with `BRK` exactly at the
      enabled breakpoints, and disabled ones are at the pc; if no call on debug
      registers fails either, the watchpoints are armed on every listed thread if and
      only if none came onto the list after one was last armed. In every case its
      state is one it reaches with no debugger. */
  method Session(dbg: Debugger, cmds: seq<Command>) returns (more: bool)
    requires Ready(dbg) && dbg.Prompt() && dbg.Healthy()
    modifies dbg`temp, dbg`exact, dbg`pid, dbg`state, dbg`regs, dbg`repeated, dbg`lost, dbg`announced, dbg.p, dbg.breakpoints, dbg.breakpoints.cells,
             dbg.watch, dbg.watch.points, dbg.watch.points.cells
    ensures Ready(dbg)
    ensures dbg.Quiet() ==> dbg.Healthy()
    ensures dbg.Calm() && dbg.state == Stopped && !dbg.repeated ==> dbg.Exact() && DisabledOnlyAt(dbg.Table(), dbg.p.cpu.pc)
    ensures dbg.Quiet() && dbg.state == Stopped && !dbg.repeated ==> (dbg.watch.InStep() <==> dbg.watch.NoneSince())
    ensures dbg.p.waitFaults == old(dbg.p.waitFaults) && more ==> dbg.Prompt()
    ensures dbg.p.TracksNative()
  {
    var i := 0;
    more := true;
    while i < |cmds| && more && dbg.state != Running
      invariant 0 <= i <= |cmds| && Ready(dbg)
      invariant dbg.p.faults >= old(dbg.p.faults) && dbg.p.waitFaults >= old(dbg.p.waitFaults) && dbg.watch.faults >= old(dbg.watch.faults)
      invariant (dbg.Calm() ==> dbg.Overlaid()) && (dbg.Quiet() ==> dbg.Healthy())
      invariant dbg.p.waitFaults == old(dbg.p.waitFaults) && more ==> dbg.Prompt()
    {
      more := Turn(dbg, cmds[i]);
      i := i + 1;
    }
    if dbg.watch.accounted { dbg.watch.InStepIff(); }
  }
}

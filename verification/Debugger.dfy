/** The stop protocol of src/debugger.c: waiting, stepping over a disarmed
    breakpoint, continuing, re-arming, temporary breakpoints, watchpoint stops,
    and what each does to the debugger's state. */
module Debugger {
  import opened Common
  import opened Machine
  import opened Slots
  import opened Overlay
  import opened BreakpointOps
  import opened Stepping
  import WE = WatchEncoding
  import WB = WatchBank

  const MAX_BREAKPOINTS: nat := 64
  const MAX_STEPS: nat := 100000

  datatype State = Idle | Running | Stopped

  // Which waitpid: those of stop_debuggee, cdbg_run, run_to_entry_stop, continue, a
  // single step, a call stepped over, and step_past_all_watchpoints.
  datatype Site = OnStop | OnLaunch | OnEntry | OnContinue | OnStep | OnCall | PastWatchpoint

  class Debugger {
    const p: Tracee
    const breakpoints: Slots<Breakpoint>
    const watch: WB.Bank
    const lineAt: LineMap
    var pid: nat
    var state: State
    var regs: Cpu
    // The temporary breakpoint that is planted, if one is.
    ghost var temp: Option<Breakpoint>
    // Whether the text is exactly the overlay of the table and the temporary breakpoint.
    ghost var exact: bool
    // Whether a breakpoint was set at an address already in the table, in this process.
    ghost var repeated: bool
    // The waitpid that failed last, in this turn of the prompt loop.
    ghost var lost: Option<Site>
    // How often report_stop was called.
    ghost var announced: nat

    ghost function Table(): Table
      reads breakpoints
    {
      breakpoints.contents
    }

    ghost predicate Valid()
      reads this, p, breakpoints, breakpoints.cells
    {
      TableValid() && StateValid()
    }

    ghost predicate TableValid()
      reads this`temp, this`exact, p, breakpoints, breakpoints.cells
    {
      (exact ==> Exact()) && breakpoints.Valid() && breakpoints.cells.Length == MAX_BREAKPOINTS &&
      p.Sound() && SavedSound(p.program, Table()) &&
      (temp.Some? ==> temp.value.enabled && SavedWordSound(p.program, temp.value))
    }

    ghost predicate WatchValid()
      reads watch, watch.points, watch.points.cells
    {
      (watch.points as object) != breakpoints && (watch.points.cells as object) != breakpoints.cells &&
      watch.Valid()
    }

    ghost predicate StateValid()
      reads this, p
    {
      (state != Idle ==> pid > 0) &&
      (state == Idle ==> p.life != Live)
    }

    ghost predicate Exact()
      reads this`temp, p, breakpoints
    {
      IsExact(p.program, p.text, Table(), temp)
    }

    /** The state between commands while the debuggee is stopped. */
    ghost predicate InStep()
      reads this, p, breakpoints
    {
      exact && state == Stopped && p.life == Live && DisabledOnlyAt(Table(), p.cpu.pc)
    }

    /** What no operation on a debuggee undoes: its program stays and it only advances. */
    twostate predicate Onward()
      reads this, p, breakpoints, watch
    {
      p.program == old(p.program) && p.spawns == old(p.spawns) && p.spawnFaults == old(p.spawnFaults) &&
      p.executed >= old(p.executed) && p.resumes >= old(p.resumes) &&
      p.continues >= old(p.continues) && p.signals >= old(p.signals) && (old(p.life) == Live && p.life == Killed ==> p.signals > old(p.signals)) &&
      p.faults >= old(p.faults) && p.waitFaults >= old(p.waitFaults) && watch.faults >= old(watch.faults) &&
      announced >= old(announced) && SameAddrs(old(breakpoints.contents), breakpoints.contents)
    }

    /** A waitpid that failed since is recorded as that of `site`. */
    twostate predicate LostAt(site: Site)
      reads this, p
    {
      lost == if p.waitFaults > old(p.waitFaults) then Some(site) else old(lost)
    }

    /** Likewise, and a failed one is what leaves the state running. */
    twostate predicate RunningIfLost(site: Site)
      reads this, p
    {
      LostAt(site) && (old(state) != Running ==> (state == Running <==> p.waitFaults > old(p.waitFaults)))
    }

    /** What continuing and stepping promise of the breakpoints: none is run past but
        the one at the pc. */
    twostate predicate NonePassed()
      reads this, p, breakpoints, watch
    {
      old(InStep()) && old(StepsAway()) ==>
        NoneMissed(p.program, Table(), old(p.executed) + old(StepsOff()), p.executed)
    }

    /** With all entries armed, no instruction at a listed address was executed. */
    twostate predicate RanArmed()
      reads this, p, breakpoints
    {
      old(exact) && AllArmed(old(Table())) ==> NoneMissed(p.program, old(Table()), old(p.executed), p.executed)
    }

    // No signal stopped or ended the process.
    twostate predicate Unsignalled()
      reads p
    {
      p.signals == old(p.signals)
    }

    /** Only instructions ran that neither were traps nor touched what was watched. */
    twostate predicate RanFree()
      reads p
    {
      RanUntrapped(p.program, old(p.text), old(watch.Current()), old(p.executed), p.executed)
    }

    /** Traps were only added, and none where it stopped. */
    twostate predicate Rearming()
      reads p
    {
      Rearms(old(p.text), p.text, p.cpu.pc)
    }

    /** It stopped for what it was asked to do, unless for a signal. */
    twostate predicate StoppedFor(request: Resume)
      reads p, watch
    {
      p.StopsFor(watch.Current(), request) && (Unsignalled() ==> p.cause != Signalled)
    }

    /** A step that is done ran an instruction, and one that traps did not. */
    twostate predicate OneStep()
      reads p
    {
      p.cause != Signalled ==> (p.cause == Stepped <==> p.executed > old(p.executed))
    }

    // The steps over a disarmed breakpoint that a continue takes first.
    ghost function StepsOver(): nat
      reads p, breakpoints
    {
      if DisabledAt(Table(), p.cpu.pc) then 1 else 0
    }

    /** What reporting a stop does to the debuggee: at most the step past a watched access,
        and that exactly for a watchpoint's exception where no breakpoint is. */
    twostate predicate Reported()
      reads this, p, breakpoints, watch, watch.points
    {
      SteppedPast() &&
      (p.resumes > old(p.resumes) ==> old(AtWatchpoint()) && !old(ArmedAt(Table(), p.cpu.pc))) &&
      (Quiet() && old(p.life) == Live && old(AtWatchpoint()) && !old(ArmedAt(Table(), p.cpu.pc)) ==>
         p.resumes > old(p.resumes) && (old(watch.accounted) && p.life != Killed ==> p.executed == old(p.executed + Fetches()))
         && (old(watch.accounted) && Unsignalled() && state == Stopped ==> !Excepted()))
    }

    // At most one step.
    twostate predicate SteppedPast()
      reads p
    {
      p.continues == old(p.continues) && old(p.resumes) <= p.resumes <= old(p.resumes) + 1 &&
      p.executed <= old(p.executed) + p.resumes - old(p.resumes) &&
      (p.resumes == old(p.resumes) ==> p.cpu == old(p.cpu) && p.cause == old(p.cause) && p.exception == old(p.exception) && p.life == old(p.life))
    }

    // The instructions a step may run: the one at the pc, unless it traps or touches what
    // is watched.
    ghost function Runnable(): nat
      reads p, watch
    {
      if UntrappedAt(p.program, p.text, watch.Current(), Next(p.cpu)) then 1 else 0
    }

    // Likewise with nothing watched.
    ghost function Fetches(): nat
      reads p
    {
      if Fetchable(p.text, p.cpu.pc) then 1 else 0
    }

    ghost function StepsOff(): nat
      reads p, breakpoints, watch
    {
      StepsOffAt(p.program, watch.Current(), Table(), p.cpu)
    }

    ghost predicate StepsAway()
      reads p, breakpoints, watch
    {
      StepsAwayAt(p.program, watch.Current(), Table(), p.cpu, p.executed)
    }

    constructor (prog: Program, hw: nat, lineAt: LineMap)
      ensures Valid() && WatchValid() && fresh(p) && fresh(breakpoints) && fresh(breakpoints.cells)
      ensures fresh(watch) && fresh(watch.points) && fresh(watch.points.cells)
      ensures pid == 0 && state == Idle && Table() == [] && watch.points.contents == [] && temp == None
      ensures p.faults == p.waitFaults == watch.faults == watch.leaks == 0
    {
      this.lineAt := lineAt;
      p := new Tracee(prog);
      breakpoints := new Slots<Breakpoint>(MAX_BREAKPOINTS, NO_BREAKPOINT);
      watch := new WB.Bank(hw);
      pid, state, regs, temp, exact, repeated, lost, announced := 0, Idle, prog.start, None, false, false, None, 0;
    }

    /** No call on the process or its debug registers failed without cause. */
    twostate predicate Quiet()
      reads p, watch
    {
      p.faults == old(p.faults) && p.waitFaults == old(p.waitFaults) && watch.faults == old(watch.faults)
    }

    // Likewise, of the calls on the process only.
    twostate predicate Calm()
      reads p
    {
      p.faults == old(p.faults) && p.waitFaults == old(p.waitFaults)
    }

    ghost predicate NothingEnabled()
      reads breakpoints, watch, watch.points
    {
      NoneEnabled(Table()) &&
      (forall i | 0 <= i < |watch.points.contents| :: !watch.points.contents[i].enabled)
    }

    /** What holds of the state whenever the prompt is shown. */
    ghost predicate Prompt()
      reads this, breakpoints, watch, watch.points
    {
      state != Running && (state == Idle <==> pid == 0) && (pid == 0 ==> NothingEnabled())
    }

    // cdbg_bp_is_trap over the table
    method IsTrap(pc: Addr) returns (r: bool)
      requires TableValid()
      ensures r <==> ArmedAt(Table(), pc)
    {
      for i := 0 to breakpoints.count
        invariant forall k | 0 <= k < i :: !MatchesPc(pc, Table()[k])
      {
        if MatchesPc(pc, breakpoints.Get(i)) { return true; }
      }
      return false;
    }

    // disabled_breakpoint_at_pc(...) != NULL
    method HasDisabledAt(pc: Addr) returns (r: bool)
      requires TableValid()
      ensures r <==> DisabledAt(Table(), pc)
    {
      for i := 0 to breakpoints.count
        invariant forall k | 0 <= k < i :: Table()[k].enabled || Table()[k].addr != pc
      {
        var bp := breakpoints.Get(i);
        if !bp.enabled && bp.addr == pc { return true; }
      }
      return false;
    }

    method RefreshRegs() returns (ok: bool)
      modifies this`regs, p`faults
      ensures p.faults >= old(p.faults)
      ensures ok ==> regs == p.cpu && p.life == Live && p.faults == old(p.faults)
      ensures !ok && p.life == Live ==> p.faults > old(p.faults)
    {
      var c;
      ok, c := p.GetRegs();
      if ok { regs := c; }
    }

    /** cdbg_bp_enable on a disabled entry, at its own address. */
    method EnableEntry(i: nat) returns (ok: bool)
      requires TableValid() && i < breakpoints.count && !Table()[i].enabled
      modifies p`text, p`faults, breakpoints`contents, breakpoints.cells
      ensures TableValid() && Onward()
      ensures forall k | 0 <= k < |Table()| && k != i :: Table()[k] == old(Table())[k]
      ensures ok <==> Table()[i].enabled
      ensures !ok && p.life == Live ==> p.faults > old(p.faults)
      ensures forall a | a != old(Table())[i].addr :: Rearms(old(p.text), p.text, a)
    {
      var bp := breakpoints.Get(i);
      var bp';
      ok, bp' := BpEnable(p, bp, bp.addr);
      breakpoints.Set(i, bp');
      if exact {
        if ok {
          EnableKeepsExact(p.program, old(p.text), old(Table()), temp, i);
        } else {
          DisabledEntryKeepsExact(p.program, old(p.text), old(Table()), temp, i, bp');
        }
      }
    }

    // reenable_breakpoints_after_step
    method Reenable() returns (ok: bool)
      requires TableValid()
      modifies this`regs, p`text, p`faults, breakpoints`contents, breakpoints.cells
      ensures TableValid() && Onward()
      ensures ok && state == Stopped && breakpoints.count > 0 ==> regs == p.cpu && Rearmed(old(Table()), Table(), p.cpu.pc)
      ensures !ok && p.life == Live ==> p.faults > old(p.faults)
      ensures Rearming()
    {
      hide UntrappedAt, Touched, Native, IsExact, Patched, SavedSound, SavedWordSound, WB.Bank.Valid, Rearms;
      RearmsNothing(p.text, p.cpu.pc);
      if breakpoints.count == 0 || state != Stopped { return true; }
      ok := RefreshRegs();
      if !ok { return; }
      var pc := regs.pc;
      for i := 0 to breakpoints.count
        invariant TableValid() && Onward() && regs == p.cpu && p.life == Live
        invariant breakpoints.count == old(breakpoints.count)
        invariant Rearming()
        invariant forall k | i <= k < |Table()| :: Table()[k] == old(Table())[k]
        invariant forall k | 0 <= k < i :: RearmedEntry(old(Table())[k], Table()[k], pc)
      {
        var bp := breakpoints.Get(i);
        if !bp.enabled && bp.addr != pc {
          ghost var text := p.text;
          ok := EnableEntry(i);
          RearmsJoins(old(p.text), text, p.text, pc);
          if !ok { return; }
        }
      }
      ok := true;
    }

    // waitpid, and what the debuggee and its threads did until it stopped
    method Await(ghost site: Site) returns (ok: bool, exited: bool)
      requires TableValid() && WatchValid()
      modifies p, watch, this`lost
      ensures TableValid() && WatchValid() && Onward() && watch.Aged() && LostAt(site)
      ensures p.text == old(p.text) && p.faults == old(p.faults) && p.resumes == old(p.resumes)
      ensures ok ==> exited == (p.life != Live) && p.waitFaults == old(p.waitFaults)
      ensures !ok ==> p.life == old(p.life) && p.cpu == old(p.cpu) && p.waitFaults > old(p.waitFaults)
      ensures old(p.life) != Live ==> p.life != Live
      ensures RanArmed()
      ensures p.executed == old(p.executed) ==> p.cpu == old(p.cpu)
      ensures old(p.life) == Live && old(p.resume) == ByStep ==>
                p.executed <= old(p.executed + Runnable()) && (ok && p.life != Killed ==> p.executed == old(p.executed + Runnable()))
      ensures p.reports == if old(p.reports) == [] then [] else old(p.reports)[1..]
      ensures old(p.reports) != [] ==> ok == old(p.reports)[0].Stop?
      ensures RanFree() && p.continues == old(p.continues)
      ensures ok && p.life == Live ==> StoppedFor(old(p.resume))
      ensures ok && p.life == Live && old(p.resume) == ByStep ==> OneStep()
      ensures old(p.resume) == Halted ==> p.executed == old(p.executed)
    {
      hide UntrappedAt, Touched, Native, IsExact, Patched, SavedSound, SavedWordSound, WB.Bank.Valid, RanArmed;
      ok, exited := p.WaitPid(watch.Current());
      watch.ThreadsChange();
      if !ok { lost := Some(site); }
      RanPastNone();
    }

    // What ran free of traps while all entries were armed was at none of them.
    twostate lemma RanPastNone()
      requires old(TableValid()) && p.program == old(p.program) && RanFree()
      ensures RanArmed()
    {
      if old(exact) && AllArmed(old(Table())) {
        ExactRunMissesNone(p.program, old(p.text), old(watch.Current()), old(Table()), old(temp), old(p.executed), p.executed);
      }
    }

    // cdbg_wait
    method Wait(ghost site: Site) returns (rc: int)
      requires Valid() && WatchValid() && pid > 0
      modifies this`state, this`regs, this`lost, p, breakpoints`contents, breakpoints.cells, watch
      ensures Valid() && WatchValid() && Onward() && watch.Aged() && LostAt(site) && -1 <= rc <= 1
      ensures rc == 0 ==> state == Stopped && p.life == Live && Rearmed(old(Table()), Table(), p.cpu.pc)
                          && (breakpoints.count > 0 ==> regs == p.cpu)
                          && DisabledOnlyAt(Table(), p.cpu.pc) && (AllArmed(old(Table())) ==> AllArmed(Table()))
      ensures rc == 1 ==> state == Idle
      ensures rc >= 0 ==> p.waitFaults == old(p.waitFaults)
      ensures rc == -1 ==> if p.waitFaults > old(p.waitFaults) then state == old(state) else state == Stopped && p.faults > old(p.faults)
      ensures RanArmed()
      ensures p.executed == old(p.executed) ==> p.cpu == old(p.cpu)
      ensures p.resumes == old(p.resumes)
      ensures old(p.life) == Live && old(p.resume) == ByStep ==>
                p.executed <= old(p.executed + Runnable()) && (rc >= 0 && p.life != Killed ==> p.executed == old(p.executed + Runnable()))
      ensures old(p.reports) != [] ==>
                p.reports == old(p.reports)[1..]
                && (old(p.reports)[0].Failure? <==> p.waitFaults > old(p.waitFaults))
      ensures RanFree() && Rearming() && p.continues == old(p.continues)
      ensures rc == 0 ==> StoppedFor(old(p.resume)) && (old(p.resume) == ByStep ==> OneStep())
      ensures old(p.resume) == Halted ==> p.executed == old(p.executed)
    {
      hide UntrappedAt, Touched, Native, IsExact, Patched, SavedSound, SavedWordSound, WB.Bank.Valid, Tracee.StopsFor,
           Fetchable;
      var ok, exited := Await(site);
      if !ok { return -1; }
      if exited {
        state := Idle;
        return 1;
      }
      label L:
      rc := Halt();
      StillStopped@L(old(p.resume));
    }

    // Its end, for a debuggee that has not exited.
    method Halt() returns (rc: int)
      requires Valid() && WatchValid() && pid > 0 && p.life == Live
      modifies this`state, this`regs, p`text, p`faults, breakpoints`contents, breakpoints.cells
      ensures Valid() && WatchValid() && Onward() && -1 <= rc <= 0 && state == Stopped && Rearming()
      ensures rc == 0 ==> Rearmed(old(Table()), Table(), p.cpu.pc) && (breakpoints.count > 0 ==> regs == p.cpu)
                          && DisabledOnlyAt(Table(), p.cpu.pc) && (AllArmed(old(Table())) ==> AllArmed(Table()))
      ensures rc == -1 ==> p.faults > old(p.faults)
    {
      state := Stopped;
      var ok := Reenable();
      rc := if ok then 0 else -1;
      if ok { StoppedAgain(old(Table()), Table(), p.cpu.pc); }
    }

    // Re-arming does not change why the debuggee stopped.
    twostate lemma StillStopped(request: Resume)
      requires old(p.StopsFor(watch.Current(), request)) && Rearming() && old(watch.Current()) == watch.Current()
      requires p.cpu == old(p.cpu) && p.program == old(p.program) && p.cause == old(p.cause) && p.exception == old(p.exception)
      ensures p.StopsFor(watch.Current(), request)
    {
    }

    // cdbg_single_step
    method SingleStep() returns (ok: bool)
      requires Valid() && pid > 0
      modifies this`state, p`resume, p`faults, p`resumes, p`continues
      ensures Valid() && Onward()
      ensures ok ==> state == Running && p.resume == ByStep && p.life == Live && p.faults == old(p.faults) && p.resumes == old(p.resumes) + 1
      ensures !ok ==> state == old(state)
      ensures !ok && p.life == Live ==> p.faults > old(p.faults)
      ensures p.continues == old(p.continues)
      ensures !ok ==> p.resumes == old(p.resumes)
    {
      ok := p.Ptrace(ByStep);
      if ok { state := Running; }
    }

    // cdbg_single_step, then cdbg_wait
    method StepAndWait(ghost site: Site) returns (stepped: bool, rc: int)
      requires Valid() && WatchValid() && pid > 0
      modifies this`state, this`regs, this`lost, p, breakpoints`contents, breakpoints.cells, watch
      ensures Valid() && WatchValid() && Onward() && watch.Aged() && RunningIfLost(site) && -1 <= rc <= 1
      ensures !stepped ==> rc == -1 && state == old(state) && p.life == old(p.life) && p.cpu == old(p.cpu)
                           && p.resumes == old(p.resumes) && p.cause == old(p.cause) && p.exception == old(p.exception) && p.executed == old(p.executed) && p.waitFaults == old(p.waitFaults) && (p.life == Live ==> p.faults > old(p.faults))
      ensures stepped ==> p.resumes == old(p.resumes) + 1
      ensures stepped && rc == 0 ==> state == Stopped && p.life == Live && Rearmed(old(Table()), Table(), p.cpu.pc)
      ensures stepped && rc == 0 && old(exact) ==> InStep()
      ensures rc == 1 ==> state == Idle
      ensures stepped && rc == -1 ==> if p.waitFaults > old(p.waitFaults) then state == Running else state == Stopped && p.faults > old(p.faults)
      ensures RanArmed()
      ensures p.executed <= old(p.executed + Runnable())
      ensures rc >= 0 && p.life != Killed ==> p.executed == old(p.executed + Runnable())
      ensures p.executed == old(p.executed) ==> p.cpu == old(p.cpu)
      ensures stepped && old(p.reports) != [] ==>
                p.reports == old(p.reports)[1..]
                && (old(p.reports)[0].Failure? <==> p.waitFaults > old(p.waitFaults))
      ensures RanFree() && Rearming() && p.continues == old(p.continues)
      ensures rc == 0 ==> StoppedFor(ByStep) && OneStep()
    {
      hide UntrappedAt, Touched, Native, IsExact, Patched, SavedSound, SavedWordSound, WB.Bank.Valid;
      stepped := SingleStep();
      if !stepped { return false, -1; }
      rc := Wait(site);
    }

    /** step_over_disabled_breakpoint: the instruction under a disarmed breakpoint
        at the pc runs once, from the restored word, before re-arming. */
    method StepOverDisabled(ghost site: Site) returns (rc: int)
      requires Valid() && WatchValid()
      modifies this`state, this`regs, this`lost, p, breakpoints`contents, breakpoints.cells, watch
      ensures Valid() && WatchValid() && Onward() && watch.Aged() && RunningIfLost(site) && -1 <= rc <= 1
      ensures rc == 0 ==> state == old(state) && (old(p.life) == Live ==> p.life == Live)
      ensures old(state) != Stopped ==> rc == 0
      ensures rc == 1 ==> state == Idle
      ensures rc == 1 ==> old(state) == Stopped && old(StepsOver()) == 1 && p.resumes == old(p.resumes) + 1
      ensures rc == 0 && old(state) == Stopped ==> p.resumes == old(p.resumes + StepsOver())
      ensures rc >= 0 ==> p.waitFaults == old(p.waitFaults)
      ensures rc == -1 ==> p.waitFaults > old(p.waitFaults) || (state == Stopped && (p.faults > old(p.faults) || old(p.life) != Live))
      ensures old(InStep()) ==> p.executed <= old(p.executed) + old(StepsOff())
      ensures rc == 0 && old(InStep()) ==>
                p.executed == old(p.executed) + old(StepsOff())
                && InStep() && (AllArmed(Table()) <==> !old(DisabledAt(Table(), p.cpu.pc)) || p.cpu.pc != old(p.cpu.pc))
      ensures rc == 0 && old(InStep()) && old(StepsAway()) ==> AllArmed(Table())
      ensures p.executed == old(p.executed) ==> p.cpu == old(p.cpu)
      ensures RanFree() && MoreTraps(old(p.text), p.text) && p.continues == old(p.continues)
    {
      hide UntrappedAt, Touched, Native, IsExact, Patched, SavedSound, SavedWordSound, WB.Bank.Valid, Tracee.StopsFor,
           ArmedAt, Fetchable;
      if state != Stopped || breakpoints.count == 0 { return 0; }
      var ok := RefreshRegs();
      if !ok { return -1; }
      var disabled := HasDisabledAt(regs.pc);
      if !disabled { return 0; }
      rc := StepOff(site);
    }

    // The step itself, from a disarmed breakpoint at the pc.
    method StepOff(ghost site: Site) returns (rc: int)
      requires Valid() && WatchValid() && pid > 0 && state == Stopped && p.life == Live && DisabledAt(Table(), p.cpu.pc)
      modifies this`state, this`regs, this`lost, p, breakpoints`contents, breakpoints.cells, watch
      ensures Valid() && WatchValid() && Onward() && watch.Aged() && RunningIfLost(site) && -1 <= rc <= 1
      ensures rc == 0 ==> state == Stopped && p.life == Live
      ensures rc == 1 ==> state == Idle
      ensures rc >= 0 ==> p.resumes == old(p.resumes) + 1
      ensures rc >= 0 ==> p.waitFaults == old(p.waitFaults)
      ensures rc == -1 ==> p.waitFaults > old(p.waitFaults) || (state == Stopped && p.faults > old(p.faults))
      ensures old(InStep()) ==> p.executed <= old(p.executed) + old(StepsOff())
      ensures rc == 0 && old(InStep()) ==>
                p.executed == old(p.executed) + old(StepsOff())
                && InStep() && (AllArmed(Table()) <==> p.cpu.pc != old(p.cpu.pc))
      ensures rc == 0 && old(InStep()) && old(StepsAway()) ==> AllArmed(Table())
      ensures p.executed == old(p.executed) ==> p.cpu == old(p.cpu)
      ensures RanFree() && MoreTraps(old(p.text), p.text) && p.continues == old(p.continues)
    {
      hide UntrappedAt, Touched, Native, IsExact, Patched, SavedSound, SavedWordSound, WB.Bank.Valid;
      if InStep() { RestoredRunnable(); }
      var ok;
      ok, rc := StepAndWait(site);
      if rc == 0 && old(InStep()) {
        RearmedAfterStep(old(Table()), Table(), old(p.cpu.pc), p.cpu.pc);
        assert Native(p.program, p.executed) == Next(p.cpu);
      }
    }

    lemma RestoredRunnable()
      requires Valid() && InStep() && DisabledAt(Table(), p.cpu.pc)
      ensures Runnable() == StepsOff()
    {
      if p.cpu.pc in p.program.text { RestoredAtDisabled(p.program, p.text, Table(), temp, p.cpu.pc); }
    }

    /** cdbg_continue: when PT_CONTINUE is issued every breakpoint is armed exactly
        when none was disarmed at the pc or the step over it moved the pc. */
    method Continue(ghost site: Site) returns (rc: int)
      requires Valid() && WatchValid()
      modifies this`state, this`regs, this`lost, p, breakpoints`contents, breakpoints.cells, watch
      ensures Valid() && WatchValid() && Onward() && watch.Aged() && LostAt(site) && -1 <= rc <= 1
      ensures rc == 0 ==> if old(state) == Idle then state == Idle
                          else state == Running && p.life == Live && p.resume == ByContinue && p.resumes > old(p.resumes)
      ensures rc == 1 ==> state == Idle
      ensures rc == 1 ==> old(state) == Stopped && old(StepsOver()) == 1 && p.resumes == old(p.resumes) + 1
      ensures rc == 0 && old(state) == Stopped ==> p.resumes == old(p.resumes + StepsOver()) + 1
      ensures rc >= 0 ==> p.waitFaults == old(p.waitFaults)
      ensures rc == -1 ==> p.waitFaults > old(p.waitFaults) || p.faults > old(p.faults) || old(p.life) != Live
      ensures rc == -1 && old(state) != Running ==> if p.waitFaults > old(p.waitFaults) then state == Running else state == Stopped || state == old(state)
      ensures old(state) == Idle ==> state == Idle
      ensures old(InStep()) ==> p.executed <= old(p.executed) + old(StepsOff())
      ensures rc == 0 && old(InStep()) ==>
                p.executed == old(p.executed) + old(StepsOff()) && DisabledOnlyAt(Table(), p.cpu.pc)
                && (AllArmed(Table()) <==> !old(DisabledAt(Table(), p.cpu.pc)) || p.cpu.pc != old(p.cpu.pc))
      ensures rc == 0 && old(InStep()) && old(StepsAway()) ==> AllArmed(Table())
      ensures p.executed == old(p.executed) ==> p.cpu == old(p.cpu)
      ensures RanFree() && MoreTraps(old(p.text), p.text)
      ensures p.continues == old(p.continues) + if rc == 0 && old(state) != Idle then 1 else 0
    {
      hide UntrappedAt, Touched, Native, IsExact, Patched, SavedSound, SavedWordSound, WB.Bank.Valid, Tracee.StopsFor,
           ArmedAt, Fetchable, StepsOffAt, StepsAwayAt, RanUntrapped, MoreTraps;
      rc := StepOverDisabled(site);
      if rc != 0 { return; }
      if state == Idle { return 0; }
      var ok := p.Ptrace(ByContinue);
      if !ok { return -1; }
      state := Running;
    }

    /** An instruction that keeps the pc, such as a branch to itself: the breakpoint hit there
        is still disarmed when PT_CONTINUE is issued. */
    method ContinueAtSelfBranch(ghost site: Site) returns (rc: int)
      requires Valid() && WatchValid() && InStep() && DisabledAt(Table(), p.cpu.pc)
      requires p.cpu.pc in p.program.text && p.program.text[p.cpu.pc] != TRAP && p.program.isa(p.program.text[p.cpu.pc], p.cpu) == Next(p.cpu)
      modifies this`state, this`regs, this`lost, p, breakpoints`contents, breakpoints.cells, watch
      ensures rc == 0 ==> state == Running && p.resume == ByContinue && DisabledAt(Table(), p.cpu.pc) && !AllArmed(Table())
    {
      rc := Continue(site);
      if rc == 0 {
        assert Native(p.program, p.executed) == StepNative(p.program, old(p.cpu)) == Next(old(p.cpu));
      }
    }

    // cdbg_bp_enable on a temporary breakpoint
    method PlantTemp(addr: Addr) returns (ok: bool, bp: Breakpoint)
      requires Valid() && temp == None
      modifies this`temp, this`exact, p`text, p`faults
      ensures Valid() && p.faults >= old(p.faults)
      ensures ok ==> temp == Some(bp) && bp.addr == addr && addr in p.text && bp.saved == old(p.text)[addr]
                     && p.text == old(p.text)[addr := TRAP]
      ensures !ok ==> temp == None && p.text == old(p.text)
      ensures !ok && p.life == Live && addr in p.text ==> p.faults > old(p.faults)
      ensures exact == (old(exact) && (ok ==> !DisabledAt(Table(), addr)))
    {
      ok, bp := BpEnable(p, NO_BREAKPOINT, addr);
      if ok {
        temp := Some(bp);
        exact := exact && !DisabledAt(Table(), addr);
        if exact {
          PlantKeepsExact(p.program, old(p.text), Table(), addr);
        }
      }
    }

    // cdbg_bp_disable on the temporary breakpoint
    method LiftTemp(bp: Breakpoint) returns (ok: bool)
      requires Valid() && temp == Some(bp)
      modifies this`temp, this`exact, p`text, p`faults
      ensures Valid() && temp == None && p.faults >= old(p.faults)
      ensures ok ==> p.text == old(p.text)[bp.addr := bp.saved] && p.faults == old(p.faults)
      ensures !ok ==> p.life != Live || p.faults > old(p.faults)
      ensures exact == (old(exact) && ok)
    {
      var bp';
      ok, bp' := BpDisable(p, bp);
      temp, exact := None, exact && ok;
    }

    /** cdbg_bp_disable on an entry of the table. */
    method DisableEntry(i: nat) returns (ok: bool)
      requires TableValid() && temp == None && i < breakpoints.count
      modifies p`text, p`faults, breakpoints`contents, breakpoints.cells
      ensures TableValid() && p.faults >= old(p.faults)
      ensures ok ==> Table() == old(Table())[i := old(Table())[i].(enabled := false)] && p.faults == old(p.faults)
      ensures ok ==> p.text == if old(Table())[i].enabled then old(p.text)[old(Table())[i].addr := old(Table())[i].saved] else old(p.text)
      ensures !ok ==> Table() == old(Table()) && p.text == old(p.text) && (p.life == Live ==> p.faults > old(p.faults))
    {
      var bp;
      ok, bp := BpDisable(p, breakpoints.Get(i));
      if !ok { return; }
      breakpoints.Set(i, bp);
      if exact {
        if old(Table())[i].enabled {
          DisableKeepsOverlay(p.program, old(p.text), old(Table()), i);
        } else {
          assert Table() == old(Table());
        }
      }
    }

    // handle_breakpoint_hit
    method HandleBreakpointHit(i: nat) returns (ok: bool)
      requires Valid() && temp == None && i < breakpoints.count && MatchesPc(p.cpu.pc, Table()[i])
      modifies this`regs, p`text, p`cpu, p`faults, breakpoints`contents, breakpoints.cells
      ensures Valid() && p.faults >= old(p.faults) && p.cpu == old(p.cpu)
      ensures Table() == old(Table()) || Table() == old(Table())[i := old(Table())[i].(enabled := false)]
      ensures ok ==> !Table()[i].enabled && p.text == old(p.text)[p.cpu.pc := old(Table())[i].saved]
      ensures old(InStep()) ==> InStep()
      ensures !ok && p.life == Live ==> p.faults > old(p.faults)
    {
      hide UntrappedAt, Touched, Native, IsExact, Patched, SavedSound, SavedWordSound, WB.Bank.Valid;
      ok := DisableEntry(i);
      if !ok { return; }
      ok := RefreshRegs();
      if !ok { return; }
      var bp := breakpoints.Get(i);
      if bp.addr > 0 {
        regs := regs.(pc := bp.addr);
        ok := p.SetRegs(regs);
      }
    }

    // report_process_exit
    method ReportProcessExit()
      requires Valid() && WatchValid()
      modifies this`pid, this`exact, breakpoints`contents, breakpoints.cells, watch`accounted, watch.points`contents, watch.points.cells
      ensures Valid() && WatchValid() && Onward()
      ensures state != Idle ==> pid == old(pid) && exact == old(exact) && Table() == old(Table())
                                && watch.Aged() && watch.points.contents == old(watch.points.contents)
      ensures state == Idle ==> pid == 0 && NothingEnabled()
    {
      if state != Idle { return; }
      DisableAll();
      pid := 0;
    }

    // the two loops that forget what was enabled
    method DisableAll()
      requires TableValid() && WatchValid()
      modifies this`exact, breakpoints`contents, breakpoints.cells, watch`accounted, watch.points`contents, watch.points.cells
      ensures TableValid() && WatchValid() && NothingEnabled()
      ensures SameAddrs(old(Table()), Table())
    {
      exact := false;
      for i := 0 to breakpoints.count
        invariant TableValid() && !exact && SameAddrs(old(Table()), Table())
        invariant WatchValid() && watch.points.contents == old(watch.points.contents)
        invariant forall k | 0 <= k < i :: !Table()[k].enabled
      {
        breakpoints.Set(i, breakpoints.Get(i).(enabled := false));
      }
      watch.DisableAll();
    }

    /** step_past_all_watchpoints: no slot of any thread is enabled during the step, and
        all live watchpoints are armed again on every listed thread after it. */
    method StepPastAllWatchpoints() returns (ok: bool)
      requires Valid() && WatchValid() && pid > 0 && state == Stopped
      modifies this`state, this`regs, this`lost, p, breakpoints`contents, breakpoints.cells, watch
      ensures Valid() && WatchValid() && Onward() && RunningIfLost(PastWatchpoint)
      ensures SteppedPast()
      ensures ok ==> state != Running
      ensures !ok ==> state != Idle
      ensures !ok && old(p.life) == Live && old(watch.accounted) ==> !Quiet()
      ensures old(InStep()) && Calm() && state == Stopped ==> InStep()
      ensures ok && state == Stopped && old(watch.accounted) && Quiet() ==> watch.accounted && watch.InStep()
      ensures RanArmed()
      ensures old(NextWaitFails()) && p.faults == old(p.faults) ==> state == Running
      ensures ok || (old(p.life) == Live && p.faults == old(p.faults)) ==> p.resumes > old(p.resumes)
      ensures ok && old(watch.accounted) && Quiet() && p.life != Killed ==> p.executed == old(p.executed + Fetches())
      ensures ok && state == Stopped && old(watch.accounted) && Quiet() && Unsignalled() ==> !Excepted()
    {
      watch.DisarmEnabled();
      if watch.clear { NothingWatched(); }

      var rc;
      ok, rc := StepAndWait(PastWatchpoint);
      if rc != 0 { return ok && state == Idle; }
      if watch.clear { NothingTouched(); }

      ok := watch.RearmEnabled();
    }

    // With nothing armed on the executing thread, a step runs what is fetched.
    lemma NothingWatched()
      requires WatchValid() && watch.clear && p.Sound()
      ensures Runnable() == Fetches()
    {
      NothingTouched();
    }

    lemma NothingTouched()
      requires WatchValid() && watch.clear
      ensures !Touched(p.program, watch.Current(), p.cpu)
    {
      if p.cpu.pc in p.program.text {
        forall t | t in p.program.touches(p.program.text[p.cpu.pc], p.cpu) ensures !watch.Current().Traps(t) {
          watch.ClearIsFree(t);
        }
      }
    }

    ghost predicate NextWaitFails()
      reads p
    {
      p.life == Live && p.reports != [] && p.reports[0].Failure?
    }

    /** handle_watchpoint_hit, and handle_unresolved_watchpoint_hit for no index. */
    method HandleWatchpointHit(hit: Option<nat>) returns (ok: bool)
      requires Valid() && WatchValid() && pid > 0 && state == Stopped
      requires hit.Some? ==> hit.value < watch.points.count
      modifies this`exact, this`pid, this`state, this`regs, this`lost, p, breakpoints`contents, breakpoints.cells, watch,
               watch.points`contents, watch.points.cells
      ensures Valid() && WatchValid() && Onward() && RunningIfLost(PastWatchpoint)
      ensures SteppedPast()
      ensures state == Idle ==> pid == 0 && NothingEnabled()
      ensures state != Idle ==> pid == old(pid) && exact == old(exact)
      ensures old(InStep()) && Calm() && state == Stopped ==> InStep()
      ensures old(InStep()) && old(watch.accounted) && Quiet() && state == Stopped ==> watch.accounted && watch.InStep()
      ensures RanArmed()
      ensures old(NextWaitFails()) && p.faults == old(p.faults) ==> state == Running
      ensures Quiet() && old(p.life) == Live ==> p.resumes > old(p.resumes)
                                                 && (old(watch.accounted) && p.life != Killed ==> p.executed == old(p.executed + Fetches()))
      ensures state != Idle ==> Remembers(hit)
      ensures old(watch.accounted) && old(p.life) == Live && Quiet() && Unsignalled() && state == Stopped ==> !Excepted()
    {
      ok := StepPastAllWatchpoints();
      if ok { SettleWatchpoint(hit); }
    }

    /** No watchpoint but that of index `hit` has changed, and that in its last value only. */
    twostate predicate Remembers(hit: Option<nat>)
      reads watch.points
    {
      var before, after := old(watch.points.contents), watch.points.contents;
      |after| == |before| &&
      forall k | 0 <= k < |after| && after[k] != before[k] ::
        hit == Some(k) && after[k] == before[k].(lastValue := after[k].lastValue, hasLastValue := true)
    }

    // What it does after the step: the process has ended, or the value is shown.
    method SettleWatchpoint(hit: Option<nat>)
      requires Valid() && WatchValid() && (hit.Some? ==> hit.value < watch.points.count)
      modifies this`pid, this`exact, breakpoints`contents, breakpoints.cells, watch`accounted, watch.points`contents, watch.points.cells
      ensures Valid() && WatchValid() && Onward()
      ensures state == Idle ==> pid == 0 && NothingEnabled()
      ensures state != Idle ==> pid == old(pid) && exact == old(exact) && Table() == old(Table())
                                && watch.Aged() && (old(watch.InStep()) ==> watch.InStep())
      ensures state != Idle ==> Remembers(hit)
    {
      if state != Stopped {
        ReportProcessExit();
      } else {
        var haveValue, value: int := *, *;
        if hit.Some? && haveValue { watch.RecordValue(hit.value, value); }
      }
    }

    // find_watchpoint_hit
    method FindWatchpointHit(fault: Addr) returns (hit: Option<nat>)
      requires WatchValid()
      ensures hit.Some? ==> hit.value < watch.points.count && WE.AddrHit(watch.points.contents[hit.value], fault)
      ensures hit.Some? ==> forall k | 0 <= k < hit.value :: !WE.AddrHit(watch.points.contents[k], fault)
      ensures hit.None? ==> forall k | 0 <= k < watch.points.count :: !WE.AddrHit(watch.points.contents[k], fault)
    {
      for i := 0 to watch.points.count
        invariant forall k | 0 <= k < i :: !WE.AddrHit(watch.points.contents[k], fault)
      {
        if WE.AddrHit(watch.points.Get(i), fault) { return Some(i); }
      }
      return None;
    }

    // What the thread's exception state says: a watchpoint's.
    ghost predicate Excepted()
      reads p
    {
      WE.IsWatchpointException(p.exception.esr)
    }

    ghost predicate AtWatchpoint()
      reads this, p, watch, watch.points
    {
      watch.points.count > 0 && Excepted()
    }

    // The first live watchpoint that holds the fault address.
    ghost predicate HitBy(table: WB.Table, fault: Addr, k: nat)
    {
      k < |table| && WE.AddrHit(table[k], fault) && forall j | 0 <= j < k :: !WE.AddrHit(table[j], fault)
    }

    // No other watchpoint has changed.
    twostate predicate RemembersHit(fault: Addr)
      reads watch.points
    {
      var before, after := old(watch.points.contents), watch.points.contents;
      |after| == |before| &&
      forall k | 0 <= k < |after| && after[k] != before[k] ::
        HitBy(before, fault, k) && after[k] == before[k].(lastValue := after[k].lastValue, hasLastValue := true)
    }

    // try_report_watchpoint_hit
    method TryReportWatchpointHit() returns (reported: bool)
      requires Valid() && WatchValid() && pid > 0 && state == Stopped
      modifies this`exact, this`pid, this`state, this`regs, this`lost, p, breakpoints`contents, breakpoints.cells, watch,
               watch.points`contents, watch.points.cells
      ensures Valid() && WatchValid() && Onward() && RunningIfLost(PastWatchpoint)
      ensures SteppedPast()
      ensures state == Idle ==> pid == 0 && NothingEnabled()
      ensures state != Idle ==> pid == old(pid) && exact == old(exact)
      ensures reported ==> old(AtWatchpoint())
      ensures !reported && old(AtWatchpoint()) && old(p.life) == Live ==> p.faults > old(p.faults)
      ensures !reported ==> state == Stopped && regs == old(regs) && p.cpu == old(p.cpu) && p.executed == old(p.executed)
                            && Table() == old(Table()) && p.text == old(p.text) && p.life == old(p.life)
      ensures !reported && old(watch.accounted) ==> watch.accounted
      ensures old(InStep()) && Calm() && state == Stopped ==> InStep()
      ensures old(InStep()) && old(watch.accounted) && Quiet() && state == Stopped ==> watch.accounted && (reported ==> watch.InStep())
      ensures RanArmed()
      ensures old(NextWaitFails()) && old(AtWatchpoint()) && p.faults == old(p.faults) ==> state == Running
      ensures reported && Quiet() ==> p.resumes > old(p.resumes)
                                      && (old(watch.accounted) && p.life != Killed ==> p.executed == old(p.executed + Fetches()))
      ensures !reported ==> p.resumes == old(p.resumes)
      ensures state != Idle ==> RemembersHit(old(p.exception.far))
      ensures reported && old(watch.accounted) && old(p.life) == Live && Quiet() && Unsignalled() && state == Stopped ==> !Excepted()
    {
      hide UntrappedAt, Touched, Native, IsExact, Patched, SavedSound, SavedWordSound, WB.Bank.Valid;
      if watch.points.count == 0 { return false; }
      var ok, e := p.GetException();
      if !ok || !WE.IsWatchpointException(e.esr) { return false; }
      var hit := FindWatchpointHit(e.far);
      var handled := HandleWatchpointHit(hit);
      return true;
    }

    // report_stop
    method ReportStop() returns (ok: bool)
      requires Valid() && WatchValid() && pid > 0 && state == Stopped && temp == None
      modifies this`exact, this`pid, this`state, this`regs, this`lost, this`announced, p, breakpoints`contents, breakpoints.cells, watch,
               watch.points`contents, watch.points.cells
      ensures Valid() && WatchValid() && Onward() && RunningIfLost(PastWatchpoint) && announced > old(announced)
      ensures Reported()
      ensures state == Idle ==> pid == 0 && NothingEnabled()
      ensures state != Idle ==> pid == old(pid) && exact == old(exact)
      ensures !ok && old(p.life) == Live ==> p.faults > old(p.faults)
      ensures old(watch.points.count) == 0 || old(ArmedAt(Table(), p.cpu.pc)) ==>
                p.executed == old(p.executed) && p.cpu == old(p.cpu) && p.life == old(p.life) && state == Stopped
                && (ok && old(exact) ==> !ArmedAt(Table(), p.cpu.pc))
      ensures ok && old(exact) && old(ArmedAt(Table(), p.cpu.pc)) ==> DisabledAt(Table(), p.cpu.pc)
      ensures old(InStep()) && Calm() && state == Stopped ==> InStep()
      ensures old(InStep()) && old(watch.accounted) && Quiet() && state == Stopped ==> watch.accounted
      ensures RanArmed()
      ensures old(NextWaitFails()) && old(AtWatchpoint()) && !old(ArmedAt(Table(), p.cpu.pc)) && p.faults == old(p.faults) ==> state == Running
    {
      hide UntrappedAt, Touched, Native, IsExact, Patched, SavedSound, SavedWordSound, WB.Bank.Valid;
      announced := announced + 1;
      ok := RefreshRegs();
      if ok { ok := ReportAt(); }
    }

    // What it does once the registers are read.
    method ReportAt() returns (ok: bool)
      requires Valid() && WatchValid() && pid > 0 && state == Stopped && temp == None && regs == p.cpu && p.life == Live
      modifies this`exact, this`pid, this`state, this`regs, this`lost, p, breakpoints`contents, breakpoints.cells, watch,
               watch.points`contents, watch.points.cells
      ensures Valid() && WatchValid() && Onward() && RunningIfLost(PastWatchpoint)
      ensures Reported()
      ensures state == Idle ==> pid == 0 && NothingEnabled()
      ensures state != Idle ==> pid == old(pid) && exact == old(exact)
      ensures !ok ==> p.faults > old(p.faults)
      ensures old(watch.points.count) == 0 || old(ArmedAt(Table(), p.cpu.pc)) ==>
                p.executed == old(p.executed) && p.cpu == old(p.cpu) && p.life == Live && state == Stopped
                && (ok && old(exact) ==> !ArmedAt(Table(), p.cpu.pc))
      ensures ok && old(exact) && old(ArmedAt(Table(), p.cpu.pc)) ==> DisabledAt(Table(), p.cpu.pc)
      ensures old(InStep()) && Calm() && state == Stopped ==> InStep()
      ensures old(InStep()) && old(watch.accounted) && Quiet() && state == Stopped ==> watch.accounted
      ensures RanArmed()
      ensures old(NextWaitFails()) && old(AtWatchpoint()) && !old(ArmedAt(Table(), p.cpu.pc)) && p.faults == old(p.faults) ==> state == Running
    {
      hide TableValid, WatchValid, UntrappedAt, Touched, Native, Tracee.StopsFor, ArmedAt, Fetchable, StepsOffAt, StepsAwayAt;
      ok := true;
      var trapped := IsTrap(regs.pc);
      if trapped {
        ghost var i;
        ok, i := HandleHitAt(regs.pc);
      } else {
        var reported := TryReportWatchpointHit();
      }
    }

    /** report_stop, after a resumption that ran past no armed breakpoint since instruction `lo`. */
    method AnnounceStop(ghost lo: nat) returns (ok: bool)
      requires Valid() && WatchValid() && pid > 0 && state == Stopped && temp == None && p.life == Live
      modifies this`exact, this`pid, this`state, this`regs, this`lost, this`announced, p, breakpoints`contents, breakpoints.cells, watch,
               watch.points`contents, watch.points.cells
      ensures Valid() && WatchValid() && Onward() && RunningIfLost(PastWatchpoint) && announced > old(announced)
      ensures state == Idle ==> pid == 0 && NothingEnabled()
      ensures state != Idle ==> pid == old(pid) && exact == old(exact)
      ensures old(watch.points.count) == 0 ==> p.executed == old(p.executed) && p.life == Live
      ensures ok && old(watch.points.count) == 0 && old(exact) ==> !ArmedAt(Table(), p.cpu.pc)
      ensures old(InStep()) && Calm() && state == Stopped ==> InStep()
      ensures old(InStep()) && old(watch.accounted) && Quiet() && state == Stopped ==> watch.accounted
      ensures old(exact && AllArmed(Table()) && NoneMissed(p.program, Table(), lo, p.executed)) ==> NoneMissed(p.program, Table(), lo, p.executed)
      ensures old(NextWaitFails()) && old(AtWatchpoint()) && !old(ArmedAt(Table(), p.cpu.pc)) && p.faults == old(p.faults) ==> state == Running
      ensures Reported()
      ensures old(Explained()) && Quiet() && state == Stopped ==> Shown()
      ensures !ok ==> p.faults > old(p.faults)
      ensures old(Explained()) && Quiet() && Unsignalled() && state == Stopped ==> !AtWatchpoint()
    {
      hide UntrappedAt, Touched, Native, IsExact, Patched, SavedSound, SavedWordSound, WB.Bank.Valid;
      if Explained() { StopKnown(); }
      ok := ReportStop();
      if old(exact && AllArmed(Table()) && NoneMissed(p.program, Table(), lo, p.executed)) {
        NoneMissedJoins(p.program, old(Table()), Table(), lo, old(p.executed), p.executed);
      }
    }

    // A continue has stopped, and for no signal.
    ghost predicate Explained()
      reads this, p, breakpoints, watch
    {
      InStep() && watch.accounted && p.StopsFor(watch.Current(), ByContinue) && p.cause != Signalled
    }

    /** What is shown of such a stop: a breakpoint just hit, a trap of the program's own, or
        the watched access that has been made now. */
    twostate predicate Shown()
      reads this, p, breakpoints, watch, watch.points
    {
      if p.resumes == old(p.resumes) then DisabledAt(Table(), p.cpu.pc) || !Fetchable(p.program.text, p.cpu.pc)
      else watch.points.count > 0 && p.executed == old(p.executed) + 1 && Touched(p.program, old(watch.Current()), old(p.cpu))
    }

    /** The two kinds of stops to report that are no signals. */
    lemma StopKnown()
      requires Valid() && WatchValid() && temp == None && Explained()
      ensures if p.cause == Watched then AtWatchpoint() && !ArmedAt(Table(), p.cpu.pc) && Fetches() == 1 && Touched(p.program, watch.Current(), p.cpu)
              else !AtWatchpoint() && (ArmedAt(Table(), p.cpu.pc) || !Fetchable(p.program.text, p.cpu.pc))
    {
      if p.cause == Watched && watch.points.count == 0 {
        var t :| t in p.program.touches(p.program.text[p.cpu.pc], p.cpu) && watch.Current().Traps(t);
        watch.EmptyIsFree(t);
      }
    }

    /** The loop of report_stop: the first enabled entry at the pc is hit. */
    method HandleHitAt(pc: Addr) returns (ok: bool, ghost i: nat)
      requires Valid() && temp == None && pc == p.cpu.pc && ArmedAt(Table(), pc)
      modifies this`regs, p`text, p`cpu, p`faults, breakpoints`contents, breakpoints.cells
      ensures Valid() && Onward() && p.cpu == old(p.cpu)
      ensures old(InStep()) ==> InStep()
      ensures !ok && p.life == Live ==> p.faults > old(p.faults)
      ensures i < |old(Table())| && MatchesPc(pc, old(Table())[i]) && forall k | 0 <= k < i :: !MatchesPc(pc, old(Table())[k])
      ensures ok ==> Table() == old(Table())[i := old(Table())[i].(enabled := false)] && p.text == old(p.text)[pc := old(Table())[i].saved]
      ensures ok && old(exact) ==> DisabledAt(Table(), pc) && !ArmedAt(Table(), pc)
                                     && pc in p.text && p.text[pc] == p.program.text[pc]
    {
      hide UntrappedAt, Touched, Native, IsExact, Patched, SavedSound, SavedWordSound, WB.Bank.Valid;
      var hit := FirstHit(pc);
      i := hit;
      ok := HandleBreakpointHit(hit);
      if ok && exact {
        HitRestores(p.program, old(p.text), old(Table()), i);
      }
    }

    method FirstHit(pc: Addr) returns (hit: nat)
      requires TableValid() && ArmedAt(Table(), pc)
      ensures hit < breakpoints.count && MatchesPc(pc, Table()[hit]) && forall k | 0 <= k < hit :: !MatchesPc(pc, Table()[k])
    {
      for i := 0 to breakpoints.count
        invariant forall k | 0 <= k < i :: !MatchesPc(pc, Table()[k])
      {
        if MatchesPc(pc, breakpoints.Get(i)) { return i; }
      }
      assert false;
    }

    // stop_debuggee
    method StopDebuggee() returns (ok: bool)
      requires Valid() && WatchValid() && temp == None
      modifies this`exact, this`pid, this`state, this`lost, p, breakpoints`contents, breakpoints.cells, watch,
               watch.points`contents, watch.points.cells
      ensures Valid() && WatchValid() && Onward() && LostAt(OnStop)
      ensures ok ==> pid == 0 && state == Idle && p.waitFaults == old(p.waitFaults)
      ensures ok && (old(pid) == 0 ==> old(NothingEnabled())) ==> NothingEnabled()
      ensures !ok ==> state == old(state) && pid == old(pid) && pid > 0 && exact == old(exact) && Table() == old(Table())
                      && watch.points.contents == old(watch.points.contents) && p.text == old(p.text)
                      && (p.waitFaults > old(p.waitFaults)
                          || (p.faults > old(p.faults) && p.life == old(p.life) && p.cpu == old(p.cpu) && watch.Aged()))
    {
      hide IsExact, Patched, SavedSound, SavedWordSound, WB.Bank.Valid;
      if pid == 0 {
        state := Idle;
        return true;
      }
      if state != Idle {
        ok := Reap();
        if !ok { return; }
      }
      pid, state := 0, Idle;
      DisableAll();
      ok := true;
    }

    // cdbg_process_kill and waitpid
    method Reap() returns (ok: bool)
      requires Valid() && WatchValid() && temp == None
      modifies this`lost, p, watch
      ensures TableValid() && WatchValid() && Onward() && watch.Aged() && LostAt(OnStop) && p.text == old(p.text)
      ensures ok ==> p.life != Live && p.waitFaults == old(p.waitFaults)
      ensures old(p.life) != Live ==> p.life != Live
      ensures !ok ==> p.waitFaults > old(p.waitFaults) || (p.faults > old(p.faults) && p.life == old(p.life) && p.cpu == old(p.cpu))
    {
      ok := p.Kill();
      if !ok { return; }
      var exited;
      ok, exited := Await(OnStop);
    }

    // call_return_address: the instruction at `pc` is BL
    method CallReturnAddress(pc: Addr) returns (ok: bool, ra: Addr)
      modifies p`faults
      ensures p.faults >= old(p.faults)
      ensures ok ==> pc in p.text && IsCall(p.text[pc]) && ra == ReturnAddress(pc)
      ensures !ok && p.life == Live && pc in p.text && IsCall(p.text[pc]) ==> p.faults > old(p.faults)
    {
      var insn;
      ra := 0;
      ok, insn := p.ReadWord(pc);
      if !ok { return; }
      ok := insn / 0x400_0000 == 0x25;
      if ok { ra := (pc + 4) % TWO_64; }
    }

    /** finish_temp_breakpoint: the debuggee is at the temporary breakpoint, or the stop is
        reported. Before, it ran past no armed breakpoint since instruction `lo`. */
    method FinishTemp(bp: Breakpoint, ghost lo: nat) returns (ok: bool)
      requires Valid() && WatchValid() && pid > 0 && state == Stopped && temp == Some(bp)
      modifies this`temp, this`exact, this`pid, this`state, this`regs, this`lost, this`announced, p, breakpoints`contents, breakpoints.cells, watch,
               watch.points`contents, watch.points.cells
      ensures Valid() && WatchValid() && Onward() && temp == None && RunningIfLost(PastWatchpoint)
      ensures state == Idle ==> pid == 0 && NothingEnabled()
      ensures state != Idle ==> pid == old(pid)
      ensures !ok && old(p.life) == Live ==> p.faults > old(p.faults)
      ensures ok ==> Arrived(bp.addr)
      ensures ok && state == Stopped && p.cpu.pc != bp.addr && old(watch.points.count) == 0 && old(exact) && old(p.life) == Live && Calm() ==> !ArmedAt(Table(), p.cpu.pc)
      ensures old(InStep()) && Calm() && state == Stopped ==> InStep()
      ensures old(InStep()) && old(watch.accounted) && Quiet() && state == Stopped ==> watch.accounted
      ensures old(p.life) == Live && Calm() && old(exact && AllArmed(Table()) && NoneMissed(p.program, Table(), lo, p.executed)) ==>
                NoneMissed(p.program, Table(), lo, p.executed)
      ensures NotAt(p.program, bp.addr, old(p.executed), p.executed)
      ensures old(watch.points.count) == 0 ==> p.executed == old(p.executed) && p.cpu == old(p.cpu)
      ensures ok && old(Explained()) && !old(Fetchable(p.text, bp.addr)) && Quiet() && Unsignalled() && state == Stopped ==> !AtWatchpoint()
    {
      hide UntrappedAt, Touched, Native, IsExact, Patched, SavedSound, SavedWordSound, WB.Bank.Valid;
      var arrived;
      ok, arrived := LeaveTemp(bp);
      if ok && !arrived {
        assert LeftOf(p.program, bp.addr, p.executed);
        ok := AnnounceStop(lo);
      }
    }

    // Its first half: whether the debuggee is at the temporary breakpoint, which is lifted.
    method LeaveTemp(bp: Breakpoint) returns (ok: bool, arrived: bool)
      requires Valid() && temp == Some(bp)
      modifies this`temp, this`exact, this`regs, p`text, p`faults
      ensures Valid() && Onward() && temp == None
      ensures ok && arrived ==> p.cpu.pc == bp.addr
      ensures !ok && p.life == Live ==> p.faults > old(p.faults)
      ensures p.faults == old(p.faults) && p.life == Live ==> exact == old(exact)
      ensures ok && !arrived ==> p.cpu.pc != bp.addr && p.life == Live
      ensures ok && !arrived && old(Explained()) && p.faults == old(p.faults) ==> Explained()
      ensures p.cause == old(p.cause) && p.exception == old(p.exception)
    {
      hide UntrappedAt, Touched, Native, IsExact, Patched, SavedSound, SavedWordSound, WB.Bank.Valid;
      ok := RefreshRegs();
      arrived := ok && MatchesPc(regs.pc, bp);
      var lifted := LiftTemp(bp);
      if arrived { ok := lifted; }
    }

    /** Stopped at `a`, or elsewhere and reported. */
    twostate predicate Arrived(a: Addr)
      reads this, p
    {
      (state == Stopped && p.cpu.pc == a) || announced > old(announced)
    }

    /** Continue and wait: no breakpoint is passed, except the one at the pc. */
    method ContinueAndWait(ghost site: Site) returns (resumed: int, rc: int)
      requires Valid() && WatchValid() && state == Stopped
      modifies this`state, this`regs, this`lost, p, breakpoints`contents, breakpoints.cells, watch
      ensures Valid() && WatchValid() && Onward() && watch.Aged() && RunningIfLost(site)
      ensures -1 <= resumed <= 1 && -1 <= rc <= 1
      ensures resumed != 0 ==> rc == resumed
      ensures resumed == 1 ==> state == Idle
      ensures resumed == 1 ==> old(StepsOver()) == 1 && p.resumes == old(p.resumes) + 1
      ensures resumed == 0 ==> p.resumes == old(p.resumes + StepsOver()) + 1
      ensures rc == 0 ==> state == Stopped && p.life == Live && pid > 0
      ensures rc == 1 ==> state == Idle
      ensures rc == -1 ==> state != Idle && (p.waitFaults > old(p.waitFaults) || p.faults > old(p.faults) || old(p.life) != Live)
      ensures rc == 0 && old(InStep()) ==> InStep()
      ensures resumed == 0 && old(InStep()) ==> p.executed >= old(p.executed) + old(StepsOff())
      ensures NonePassed()
      ensures rc == 0 && old(InStep()) && old(StepsAway()) ==> AllArmed(Table())
      ensures RanFree() && MoreTraps(old(p.text), p.text)
      ensures p.continues == old(p.continues) + if resumed == 0 then 1 else 0
      ensures rc == 0 ==> StoppedFor(ByContinue)
    {
      hide UntrappedAt, Touched, Native, IsExact, Patched, SavedSound, SavedWordSound, WB.Bank.Valid, Tracee.StopsFor,
           ArmedAt, Fetchable;
      resumed := Continue(site);
      rc := resumed;
      if resumed != 0 { return; }
      ghost var n := p.executed;
      ghost var table, text := Table(), p.text;
      rc := Wait(site);
      RanJoins(p.program, old(p.text), text, old(watch.Current()), old(p.executed), n, p.executed);
      if old(InStep()) && old(StepsAway()) {
        NoneMissedDependsOnAddrs(p.program, table, Table(), n, p.executed);
      }
    }

    /** The common part of step_over_call and run_to_entry_stop: plant a temporary
        breakpoint, continue and wait; take it out again unless that worked. */
    method RunToTemp(addr: Addr, ghost site: Site) returns (resumed: int, rc: int, bp: Breakpoint)
      requires Valid() && WatchValid() && state == Stopped && temp == None
      modifies this`temp, this`exact, this`state, this`regs, this`lost, p, breakpoints`contents, breakpoints.cells, watch
      ensures Valid() && WatchValid() && Onward() && watch.Aged() && RunningIfLost(site)
      ensures rc == 0 ==> temp == Some(bp) && bp.addr == addr && p.life == Live && state == Stopped && p.resumes > old(p.resumes)
      ensures rc != 0 ==> temp == None
      ensures resumed != 0 ==> rc != 0
      ensures resumed == 0 ==> p.resumes > old(p.resumes)
      ensures rc != 0 && old(InStep()) && addr in old(p.text) ==> state == Idle || !Calm()
      ensures addr !in old(p.text) ==> rc != 0 && state == Stopped && p.cpu == old(p.cpu) && p.text == old(p.text) && p.executed == old(p.executed)
      ensures old(InStep()) && !old(DisabledAt(Table(), addr)) && Calm() ==>
                (state == Stopped ==> InStep()) && NonePassed()
                && (old(StepsAway()) && rc == 0 ==> AllArmed(Table()))
      ensures NotAt(p.program, addr, old(p.executed), p.executed)
      ensures rc == 0 ==> StoppedFor(ByContinue)
      ensures rc == 0 && Explained() && watch.points.count == 0 && p.cpu.pc != addr ==> Interrupts(p.program, Table(), p.cpu.pc)
      ensures rc == 0 ==> !Fetchable(p.text, addr)
    {
      var planted;
      planted, bp := PlantTemp(addr);
      if !planted { return -1, -1, bp; }
      resumed, rc := RunPlanted(bp, site);
    }

    method RunPlanted(bp: Breakpoint, ghost site: Site) returns (resumed: int, rc: int)
      requires Valid() && WatchValid() && state == Stopped && temp == Some(bp) && !Fetchable(p.text, bp.addr)
      modifies this`temp, this`exact, this`state, this`regs, this`lost, p, breakpoints`contents, breakpoints.cells, watch
      ensures Valid() && WatchValid() && Onward() && watch.Aged() && RunningIfLost(site)
      ensures rc == 0 ==> temp == Some(bp) && p.life == Live && state == Stopped
      ensures rc != 0 ==> temp == None
      ensures resumed != 0 ==> rc != 0
      ensures resumed == 0 ==> p.resumes > old(p.resumes)
      ensures rc != 0 && old(p.life) == Live ==> state == Idle || !Calm()
      ensures old(InStep()) && Calm() && state == Stopped ==> InStep()
      ensures NonePassed()
      ensures rc == 0 && old(InStep()) && old(StepsAway()) ==> AllArmed(Table())
      ensures NotAt(p.program, bp.addr, old(p.executed), p.executed)
      ensures rc == 0 ==> StoppedFor(ByContinue)
      ensures rc == 0 && Explained() && watch.points.count == 0 && p.cpu.pc != bp.addr ==> Interrupts(p.program, Table(), p.cpu.pc)
      ensures rc == 0 ==> !Fetchable(p.text, bp.addr)
    {
      hide UntrappedAt, Touched, Native, IsExact, Patched, SavedSound, SavedWordSound, WB.Bank.Valid;
      resumed, rc := ContinueAndWait(site);
      RanNotAt(p.program, old(p.text), old(watch.Current()), bp.addr, old(p.executed), p.executed);
      if rc != 0 {
        var lifted := LiftTemp(bp);
      } else if Explained() && watch.points.count == 0 && p.cpu.pc != bp.addr {
        TrappedThere(bp.addr);
      }
    }

    /** step_over_call: the temporary breakpoint may nest on an enabled entry, and
        is gone afterwards. */
    method StepOverCall(ra: Addr) returns (ok: bool)
      requires Valid() && WatchValid() && state == Stopped && temp == None
      modifies this`temp, this`exact, this`pid, this`state, this`regs, this`lost, this`announced, p, breakpoints`contents, breakpoints.cells, watch,
               watch.points`contents, watch.points.cells
      ensures Valid() && WatchValid() && Onward() && temp == None && Located(ok)
      ensures pid == 0 ==> NothingEnabled()
      ensures ok ==> p.resumes > old(p.resumes)
      ensures ok && state == Stopped ==> Arrived(ra)
      ensures ok && state == Stopped && p.cpu.pc != ra && ra != old(p.cpu.pc) && old(watch.points.count) == 0 && old(InStep()) && Calm() ==> !ArmedAt(Table(), p.cpu.pc)
      ensures !ok && old(InStep()) && ra in old(p.text) ==> state == Idle || !Quiet()
      ensures ra !in old(p.text) ==> !ok && state == Stopped && p.cpu == old(p.cpu) && p.text == old(p.text)
      ensures old(InStep()) && ra != old(p.cpu.pc) && Calm() && state == Stopped ==> InStep()
      ensures old(InStep()) && ra != old(p.cpu.pc) && old(watch.accounted) && Quiet() && state == Stopped ==> watch.accounted
      ensures ra != old(p.cpu.pc) && Calm() ==> NonePassed()
      ensures NotAt(p.program, ra, old(p.executed), p.executed)
      ensures ra !in old(p.text) ==> p.executed == old(p.executed)
      ensures old(AtStop()) && ra != old(p.cpu.pc) && ra in old(p.text) && Quiet() && Unsignalled() ==>
                Called(p.program, Table(), old(watch.points.count) == 0, ra, old(p.executed), p.executed)
      ensures ok && state == Stopped && old(AtStop()) && ra != old(p.cpu.pc) && Quiet() && Unsignalled() ==> !AtWatchpoint()
    {
      hide UntrappedAt, Touched, Native, IsExact, Patched, SavedSound, SavedWordSound, WB.Bank.Valid, Interrupts;
      assert InStep() && ra != p.cpu.pc ==> !DisabledAt(Table(), ra);
      var resumed, rc, bp := RunToTemp(ra, OnCall);
      if resumed != 0 { return false; }
      if rc != 0 || state != Stopped { return state == Idle; }
      ghost var n, table := p.executed, Table();
      ok := FinishTemp(bp, old(p.executed + StepsOff()));
      InterruptsByAddrs(p.program, table, Table(), p.cpu.pc);
      NotAtJoins(p.program, ra, old(p.executed), n, p.executed);
    }

    // A stop on the way, with no watchpoint and no signal.
    lemma TrappedThere(ra: Addr)
      requires Valid() && WatchValid() && exact && temp.Some? && temp.value.addr == ra && p.cpu.pc != ra
      requires watch.accounted && watch.points.count == 0
      requires p.StopsFor(watch.Current(), ByContinue) && p.cause != Signalled
      ensures Interrupts(p.program, Table(), p.cpu.pc)
    {
      if p.cause == Watched {
        var t :| t in p.program.touches(p.program.text[p.cpu.pc], p.cpu) && watch.Current().Traps(t);
        watch.EmptyIsFree(t);
      }
      if p.cpu.pc in p.text && ArmedAt(Table(), p.cpu.pc) {
        var i :| 0 <= i < |Table()| && MatchesPc(p.cpu.pc, Table()[i]);
        assert Table()[i].addr == p.cpu.pc;
      }
    }

    /** A failed waitpid is what leaves the state running; when the caller is told that
        all is well, it is that of step_past_all_watchpoints. */
    twostate predicate Located(ok: bool)
      reads this, p
    {
      (state == Running <==> p.waitFaults > old(p.waitFaults)) &&
      (p.waitFaults == old(p.waitFaults) ==> lost == old(lost)) &&
      (ok && state == Running ==> lost == Some(PastWatchpoint))
    }

    /** A stopped debuggee is overlaid exactly, unless a breakpoint was repeated. */
    ghost predicate Overlaid()
      reads this, p, breakpoints
    {
      state != Running && (state == Stopped && !repeated ==> InStep())
    }

    /** And its watchpoints are accounted for. */
    ghost predicate Healthy()
      reads this, p, breakpoints, watch
    {
      Overlaid() && (state == Stopped && !repeated ==> watch.accounted)
    }

    // A stop with overlay and account.
    ghost predicate AtStop()
      reads this, p, breakpoints, watch
    {
      Healthy() && state == Stopped && !repeated
    }

    // And only breakpoints can interrupt a step.
    ghost predicate Undisturbed()
      reads this, p, breakpoints, watch, watch.points
    {
      AtStop() && watch.points.count == 0
    }

    /** Where step and next may stop: on another line, or at a breakpoint just hit. */
    ghost predicate Elsewhere(start: Option<(string, nat)>)
      reads this, p, breakpoints
    {
      DisabledAt(Table(), p.cpu.pc) || (lineAt(p.cpu.pc).Some? && lineAt(p.cpu.pc) != start)
    }

    /** What the commands that resume a debuggee keep. */
    twostate predicate Advanced(ok: bool)
      reads this, p, breakpoints, breakpoints.cells, watch, watch.points, watch.points.cells
    {
      Valid() && WatchValid() && Onward() && Located(ok) && (pid == 0 ==> NothingEnabled()) &&
      (old(Overlaid()) && Calm() ==> Overlaid()) && (old(Healthy()) && Quiet() ==> Healthy())
    }

    /** One instruction, from a stop. */
    method StepOnce() returns (stepped: bool, rc: int)
      requires Valid() && WatchValid() && state == Stopped && pid > 0
      modifies this`state, this`regs, this`lost, p, breakpoints`contents, breakpoints.cells, watch
      ensures Valid() && WatchValid() && Onward() && watch.Aged() && RunningIfLost(OnStep) && -1 <= rc <= 1
      ensures !stepped ==> rc == -1 && state == Stopped && (old(p.life) == Live ==> p.faults > old(p.faults))
      ensures stepped ==> p.resumes == old(p.resumes) + 1
      ensures rc == 0 ==> stepped && state == Stopped && p.life == Live
      ensures rc == 1 ==> state == Idle
      ensures stepped && rc == -1 ==> state != Idle && (p.waitFaults > old(p.waitFaults) || p.faults > old(p.faults))
      ensures rc == 0 && old(exact) ==> InStep()
      ensures p.executed <= old(p.executed + Runnable())
      ensures rc == 0 ==> StoppedFor(ByStep) && OneStep() && Rearming()
      ensures rc >= 0 && p.life != Killed ==> p.executed == old(p.executed + Runnable())
      ensures NonePassed()
      ensures rc == 0 && old(InStep()) && old(StepsAway()) ==> AllArmed(Table())
      ensures stepped && old(p.reports) != [] ==>
                p.reports == old(p.reports)[1..]
                && (old(p.reports)[0].Failure? <==> p.waitFaults > old(p.waitFaults))
      ensures p.executed == old(p.executed) ==> p.cpu == old(p.cpu)
    {
      hide UntrappedAt, Touched, Native, IsExact, Patched, SavedSound, SavedWordSound, WB.Bank.Valid;
      if InStep() && DisabledAt(Table(), p.cpu.pc) { RestoredRunnable(); }
      stepped, rc := StepAndWait(OnStep);
      if old(InStep()) {
        StepPassesNone(p.program, old(Table()), Table(), old(p.cpu.pc), old(StepsOff()), old(p.executed), p.executed);
      }
      if rc == 0 && old(InStep()) {
        RearmedAfterStep(old(Table()), Table(), old(p.cpu.pc), p.cpu.pc);
        assert Native(p.program, p.executed) == Next(p.cpu);
      }
    }

    /** The instruction at the pc touches what is watched, and of the next two waits the
        second will fail. */
    ghost predicate StepWillLose()
      reads this, p, breakpoints, watch, watch.points
    {
      Table() == [] && watch.points.count > 0 && p.life == Live && |p.reports| >= 2 &&
      Fetchable(p.text, p.cpu.pc) && Touched(p.program, watch.Current(), p.cpu) && p.reports[0].Stop? && p.reports[1].Failure?
    }

    // cdbg_single_step, cdbg_wait and report_stop
    method StepInstruction() returns (ok: bool)
      requires Valid() && WatchValid() && state == Stopped && temp == None
      modifies this`exact, this`pid, this`state, this`regs, this`lost, this`announced, p, breakpoints`contents, breakpoints.cells, watch,
               watch.points`contents, watch.points.cells
      ensures Advanced(ok)
      ensures !ok ==> state != Idle
      ensures !ok && old(p.life) == Live ==> !Quiet()
      ensures ok && Quiet() && old(watch.points.count) == 0 && p.life != Killed ==> p.executed == old(p.executed + Runnable())
      ensures ok ==> p.resumes > old(p.resumes)
      ensures Calm() ==> NonePassed()
      ensures old(StepWillLose()) && p.faults == old(p.faults) && Unsignalled() && state != Idle ==> ok && state == Running
    {
      hide TableValid, WatchValid, UntrappedAt, Touched, Native, StepsOffAt, StepsAwayAt, Rearms, Tracee.StopsFor;
      var rc;
      ok, rc := StepOnce();
      if !ok { return; }
      if rc != 0 { return state == Idle; }
      if old(StepWillLose()) && Unsignalled() && p.faults == old(p.faults) { StoppedAtTouch(); }
      var reported := AnnounceStop(old(p.executed) + old(StepsOff()));
    }

    // A step onto a watched access stops there with a watchpoint's exception.
    twostate lemma StoppedAtTouch()
      requires old(StepWillLose()) && StoppedFor(ByStep) && Unsignalled() && OneStep() && Rearming()
      requires p.executed == old(p.executed + Runnable()) && (p.executed == old(p.executed) ==> p.cpu == old(p.cpu)) && watch.points.count > 0
      ensures AtWatchpoint()
    {
    }

    // cdbg_single_step, cdbg_wait and cdbg_refresh_regs
    method StepAndLook() returns (done: bool, ok: bool)
      requires Valid() && WatchValid() && state == Stopped && pid > 0
      modifies this`state, this`regs, this`lost, p, breakpoints`contents, breakpoints.cells, watch
      ensures Valid() && WatchValid() && Onward() && watch.Aged() && RunningIfLost(OnStep)
      ensures !done ==> ok && state == Stopped && regs == p.cpu && p.life == Live && p.resumes > old(p.resumes)
      ensures done && ok ==> state == Idle && p.resumes > old(p.resumes)
      ensures done && !ok && old(p.life) == Live ==> !Calm()
      ensures !done && old(exact) ==> InStep()
      ensures NonePassed()
      ensures !done && old(InStep()) && old(StepsAway()) ==> AllArmed(Table())
      ensures p.executed <= old(p.executed + Runnable())
      ensures !done || (ok && p.life != Killed) ==> p.executed == old(p.executed + Runnable())
      ensures !done ==> StoppedFor(ByStep) && OneStep()
      ensures !done && Unsignalled() && Excepted() ==> p.executed == old(p.executed) && old(Fetchable(p.text, p.cpu.pc))
    {
      hide UntrappedAt, Touched, Native, IsExact, Patched, SavedSound, SavedWordSound, WB.Bank.Valid, Tracee.StopsFor,
           ArmedAt, Fetchable, StepsOffAt, StepsAwayAt;
      var rc;
      ok, rc := StepOnce();
      if !ok { return true, false; }
      if rc != 0 { return true, state == Idle; }
      if Unsignalled() && Excepted() { TrappedInPlace(); }
      ok := RefreshRegs();
      done := !ok;
    }

    // A step that ends in a watchpoint's exception has not run.
    twostate lemma TrappedInPlace()
      requires StoppedFor(ByStep) && Unsignalled() && OneStep() && Rearming() && Excepted()
      requires p.executed >= old(p.executed) && (p.executed == old(p.executed) ==> p.cpu == old(p.cpu))
      ensures p.executed == old(p.executed) && old(Fetchable(p.text, p.cpu.pc))
    {
    }

    lemma RunnableIsFetched()
      ensures Runnable() <= Fetches()
    {
    }

    /** What step and next do after each instruction: report a breakpoint or a
        watchpoint, or stop on another line. */
    method LineReached(start: Option<(string, nat)>) returns (done: bool, ok: bool)
      requires Valid() && WatchValid() && pid > 0 && temp == None && state == Stopped && regs == p.cpu && p.life == Live && start.Some?
      modifies this`exact, this`pid, this`state, this`regs, this`lost, this`announced, p, breakpoints`contents, breakpoints.cells, watch,
               watch.points`contents, watch.points.cells
      ensures Valid() && WatchValid() && Onward() && RunningIfLost(PastWatchpoint)
      ensures state == Idle ==> pid == 0 && NothingEnabled()
      ensures state != Idle ==> pid == old(pid) && exact == old(exact)
      ensures !done ==> ok && state == Stopped && regs == p.cpu && p.life == Live && Table() == old(Table()) && p.executed == old(p.executed)
      ensures !ok ==> p.faults > old(p.faults)
      ensures old(InStep()) && Calm() && state == Stopped ==> InStep()
      ensures old(InStep()) && old(watch.accounted) && Quiet() && state == Stopped ==> watch.accounted
      ensures RanArmed()
      ensures ok && old(watch.points.count) == 0 ==>
                p.cpu == old(p.cpu) && (!done <==> !old(ArmedAt(Table(), p.cpu.pc)) && (lineAt(p.cpu.pc).None? || lineAt(p.cpu.pc) == start))
      ensures done && ok && old(exact) && old(watch.points.count) == 0 ==> state == Stopped && Elsewhere(start)
      ensures p.executed <= old(p.executed) + 1 && (!old(AtWatchpoint()) ==> p.executed == old(p.executed))
      ensures !done ==> OnLine(lineAt, start, p.cpu.pc)
    {
      ok := true;
      var pc := regs.pc;
      var trapped := IsTrap(pc);
      if trapped {
        ok := ReportStop();
        return true, ok;
      }
      done := TryReportWatchpointHit();
      if !done {
        var here := lineAt(pc);
        done := here.Some? && here != start;
      }
    }

    /** A round of the loops of step and next. */
    twostate predicate Round(done: bool, ok: bool, start: Option<(string, nat)>)
      reads this, p, breakpoints, breakpoints.cells, watch, watch.points, watch.points.cells
    {
      Advanced(ok) && (!done ==> ok && state == Stopped && regs == p.cpu && p.life == Live && pid > 0) &&
      (ok ==> p.resumes > old(p.resumes)) &&
      (done && ok && old(Undisturbed()) && Quiet() && state == Stopped ==> Elsewhere(start))
    }

    // Nothing makes a step run more than the instruction at the pc.
    twostate predicate Steady()
      reads p, watch.points
    {
      Unsignalled() || old(watch.points.count) == 0
    }

    // One round of the loop of cdbg_step_next_line.
    method StepTowards(start: Option<(string, nat)>) returns (done: bool, ok: bool)
      requires Valid() && WatchValid() && state == Stopped && temp == None && start.Some?
      modifies this`exact, this`pid, this`state, this`regs, this`lost, this`announced, p, breakpoints`contents, breakpoints.cells, watch,
               watch.points`contents, watch.points.cells
      ensures Round(done, ok, start)
      ensures done && !ok && old(p.life) == Live ==> !Quiet()
      ensures Calm() ==> NonePassed()
      ensures !done && old(InStep()) && old(StepsAway()) ==> AllArmed(Table())
      ensures Steady() ==> p.executed <= old(p.executed) + 1
      ensures !done ==> OnLine(lineAt, start, p.cpu.pc)
    {
      hide TableValid, WatchValid, UntrappedAt, Touched, Native, Rearms, OneStep;
      done, ok := StepAndLook();
      if done { return; }
      ghost var n := p.executed;
      ghost var table := Table();
      done, ok := LineReached(start);
      if old(InStep()) && old(StepsAway()) && Calm() {
        NoneMissedJoins(p.program, table, Table(), old(p.executed) + old(StepsOff()), n, p.executed);
      }
    }

    /** Since instruction `lo` none was at a listed address, and all entries are armed; or,
        before the first step, `lo` is the instruction after the one at the pc. */
    ghost predicate NoneSince(lo: nat, first: bool)
      reads p, breakpoints, watch
    {
      if first then
        lo == p.executed + StepsOff() && StepsAway()
      else NoneMissed(p.program, Table(), lo, p.executed) && AllArmed(Table())
    }

    method StepRound(start: Option<(string, nat)>, ghost lo: nat, ghost first: bool) returns (done: bool, ok: bool)
      requires Valid() && WatchValid() && state == Stopped && temp == None && start.Some?
      modifies this`exact, this`pid, this`state, this`regs, this`lost, this`announced, p, breakpoints`contents, breakpoints.cells, watch,
               watch.points`contents, watch.points.cells
      ensures Round(done, ok, start)
      ensures done && !ok && old(p.life) == Live ==> !Quiet()
      ensures old(InStep()) && old(NoneSince(lo, first)) && Calm() ==> NoneMissed(p.program, Table(), lo, p.executed)
      ensures !done && old(InStep()) && old(NoneSince(lo, first)) && Calm() ==> NoneSince(lo, false)
      ensures Steady() ==> p.executed <= old(p.executed) + 1
      ensures !done ==> OnLine(lineAt, start, p.cpu.pc)
    {
      ghost var n := p.executed;
      ghost var table := Table();
      done, ok := StepTowards(start);
      if !first && old(InStep()) && old(NoneSince(lo, first)) && Calm() {
        NoneMissedJoins(p.program, table, Table(), lo, n, p.executed);
      }
    }

    // cdbg_step_next_line
    method StepNextLine() returns (ok: bool)
      requires Valid() && WatchValid() && state == Stopped && temp == None
      modifies this`exact, this`pid, this`state, this`regs, this`lost, this`announced, p, breakpoints`contents, breakpoints.cells, watch,
               watch.points`contents, watch.points.cells
      ensures Advanced(ok)
      ensures !ok && Quiet() && old(Undisturbed()) ==> lineAt(old(p.cpu.pc)).Some? && p.resumes >= old(p.resumes) + MAX_STEPS
      ensures ok && Quiet() && old(Undisturbed()) ==> p.resumes > old(p.resumes)
      ensures ok && Quiet() && old(Undisturbed()) && state == Stopped && lineAt(old(p.cpu.pc)).Some? ==> Elsewhere(lineAt(old(p.cpu.pc)))
      ensures old(Overlaid()) && !repeated && Calm() ==> NonePassed()
      ensures lineAt(old(p.cpu.pc)).Some? && Steady() ==> SameLine(p.program, lineAt, lineAt(old(p.cpu.pc)), old(p.executed), p.executed)
      ensures ok && Quiet() && old(watch.points.count) == 0 && lineAt(old(p.cpu.pc)).None? && p.life != Killed ==> p.executed == old(p.executed + Runnable())
    {
      hide UntrappedAt, Touched, Native, IsExact, Patched, SavedSound, SavedWordSound, WB.Bank.Valid;
      ok := RefreshRegs();
      if ok { ok := StepFromHere(); }
    }

    // Once the registers are read.
    method StepFromHere() returns (ok: bool)
      requires Valid() && WatchValid() && state == Stopped && temp == None && regs == p.cpu && p.life == Live
      modifies this`exact, this`pid, this`state, this`regs, this`lost, this`announced, p, breakpoints`contents, breakpoints.cells, watch,
               watch.points`contents, watch.points.cells
      ensures Advanced(ok)
      ensures !ok && Quiet() && old(Undisturbed()) ==> lineAt(old(p.cpu.pc)).Some? && p.resumes >= old(p.resumes) + MAX_STEPS
      ensures ok && Quiet() && old(Undisturbed()) ==> p.resumes > old(p.resumes)
      ensures ok && Quiet() && old(Undisturbed()) && state == Stopped && lineAt(old(p.cpu.pc)).Some? ==> Elsewhere(lineAt(old(p.cpu.pc)))
      ensures old(Overlaid()) && !repeated && Calm() ==> NonePassed()
      ensures lineAt(old(p.cpu.pc)).Some? && Steady() ==> SameLine(p.program, lineAt, lineAt(old(p.cpu.pc)), old(p.executed), p.executed)
      ensures ok && Quiet() && old(watch.points.count) == 0 && lineAt(old(p.cpu.pc)).None? && p.life != Killed ==> p.executed == old(p.executed + Runnable())
    {
      var start := lineAt(regs.pc);
      if start.None? {
        ok := StepInstruction();
      } else {
        ok := StepLoop(start);
      }
    }

    // Its loop.
    method StepLoop(start: Option<(string, nat)>) returns (ok: bool)
      requires Valid() && WatchValid() && state == Stopped && temp == None && start.Some? && p.life == Live && lineAt(p.cpu.pc) == start
      modifies this`exact, this`pid, this`state, this`regs, this`lost, this`announced, p, breakpoints`contents, breakpoints.cells, watch,
               watch.points`contents, watch.points.cells
      ensures Advanced(ok)
      ensures !ok && Quiet() ==> p.resumes >= old(p.resumes) + MAX_STEPS
      ensures ok ==> p.resumes > old(p.resumes)
      ensures ok && Quiet() && old(Undisturbed()) && state == Stopped ==> Elsewhere(start)
      ensures old(Overlaid()) && !repeated && Calm() ==> NonePassed()
      ensures Steady() ==> SameLine(p.program, lineAt, start, old(p.executed), p.executed)
    {
      hide UntrappedAt, Touched, Native, IsExact, Patched, SavedSound, SavedWordSound, WB.Bank.Valid, Tracee.StopsFor,
           ArmedAt, Fetchable, NoneMissed, AllArmed, StepsOffAt, StepsAwayAt, NothingEnabled;
      ghost var away := Overlaid() && !repeated && StepsAway();
      ghost var lo := p.executed + StepsOff();
      for i := 0 to MAX_STEPS
        invariant Advanced(true) && pid > 0 && state == Stopped && p.life == Live && p.resumes >= old(p.resumes) + i
        invariant away && Calm() ==> NoneSince(lo, i == 0)
        invariant OnLine(lineAt, start, p.cpu.pc) && (Steady() ==> SameLine(p.program, lineAt, start, old(p.executed), p.executed))
      {
        var done;
        ghost var n := p.executed;
        assert WasOnLine(p.program, lineAt, start, n);
        done, ok := StepRound(start, lo, i == 0);
        if Steady() { SameLineExtends(p.program, lineAt, start, old(p.executed), n, p.executed); }
        if done { return; }
      }
      return false;
    }

    // The instruction at the pc is BL.
    ghost predicate AtCall()
      reads p
    {
      p.cpu.pc in p.text && IsCall(p.text[p.cpu.pc])
    }

    // Nothing can be planted at the return address.
    ghost predicate StuckAtCall()
      reads p
    {
      AtCall() && ReturnAddress(p.cpu.pc) !in p.text
    }

    // step_over_call and cdbg_refresh_regs
    method CallAndLook(ra: Addr) returns (done: bool, ok: bool)
      requires Valid() && WatchValid() && state == Stopped && temp == None && ra != p.cpu.pc
      modifies this`temp, this`exact, this`pid, this`state, this`regs, this`lost, this`announced, p, breakpoints`contents, breakpoints.cells, watch,
               watch.points`contents, watch.points.cells
      ensures Valid() && WatchValid() && Onward() && temp == None && Located(ok) && (pid == 0 ==> NothingEnabled())
      ensures !done ==> ok && state == Stopped && regs == p.cpu && p.life == Live && pid > 0 && Arrived(ra)
      ensures !done && p.cpu.pc != ra && old(watch.points.count) == 0 && old(InStep()) && Calm() ==> !ArmedAt(Table(), p.cpu.pc)
      ensures ok ==> p.resumes > old(p.resumes)
      ensures done && ok ==> state != Stopped
      ensures done && !ok && old(InStep()) && old(watch.accounted) && ra in old(p.text) ==> state == Idle || !Quiet()
      ensures ra !in old(p.text) ==> done && !ok && p.cpu == old(p.cpu) && p.text == old(p.text)
      ensures old(InStep()) && Calm() && state == Stopped ==> InStep()
      ensures old(InStep()) && old(watch.accounted) && Quiet() && state == Stopped ==> watch.accounted
      ensures Calm() ==> NonePassed()
      ensures NotAt(p.program, ra, old(p.executed), p.executed)
      ensures ra !in old(p.text) ==> p.executed == old(p.executed)
      ensures old(AtStop()) && ra in old(p.text) && Quiet() && Unsignalled() ==>
                Called(p.program, Table(), old(watch.points.count) == 0, ra, old(p.executed), p.executed)
      ensures !done && old(AtStop()) && Quiet() && Unsignalled() ==> !AtWatchpoint()
    {
      hide UntrappedAt, Touched, Native, IsExact, Patched, SavedSound, SavedWordSound, WB.Bank.Valid;
      ok := StepOverCall(ra);
      if !ok { return true, false; }
      if state != Stopped { return true, true; }
      ok := RefreshRegs();
      done := !ok;
    }

    /** One instruction, or a whole call when the instruction at the pc is BL. */
    method Advance() returns (done: bool, ok: bool)
      requires Valid() && WatchValid() && state == Stopped && temp == None && regs == p.cpu && p.life == Live
      modifies this`temp, this`exact, this`pid, this`state, this`regs, this`lost, this`announced, p, breakpoints`contents, breakpoints.cells, watch,
               watch.points`contents, watch.points.cells
      ensures Valid() && WatchValid() && Onward() && temp == None && Located(ok) && (pid == 0 ==> NothingEnabled())
      ensures !done ==> ok && state == Stopped && regs == p.cpu && p.life == Live && pid > 0
      ensures !done && old(AtCall()) && Quiet() ==> Arrived(ReturnAddress(old(p.cpu.pc)))
      ensures !done && old(AtCall()) && p.cpu.pc != ReturnAddress(old(p.cpu.pc)) && old(Undisturbed()) && Quiet() ==> !ArmedAt(Table(), p.cpu.pc)
      ensures ok ==> p.resumes > old(p.resumes)
      ensures done && ok ==> state != Stopped
      ensures done && !ok && old(InStep()) && old(watch.accounted) && Quiet() ==> state == Idle || StuckAtCall()
      ensures old(InStep()) && Calm() && state == Stopped ==> InStep()
      ensures old(InStep()) && old(watch.accounted) && Quiet() && state == Stopped ==> watch.accounted
      ensures Calm() ==> NonePassed()
      ensures !old(AtCall()) ==> p.executed <= old(p.executed + Runnable()) && (!done || (ok && p.life != Killed) ==> p.executed == old(p.executed + Runnable()))
      ensures old(AtCall()) && Quiet() ==> NotAt(p.program, ReturnAddress(old(p.cpu.pc)), old(p.executed), p.executed)
      ensures old(AtCall()) && Quiet() && Unsignalled() && old(AtStop()) ==>
                p.executed == old(p.executed)
                || Called(p.program, Table(), old(watch.points.count) == 0, ReturnAddress(old(p.cpu.pc)), old(p.executed), p.executed)
      ensures !done && Quiet() && Unsignalled() && old(AtStop()) && AtWatchpoint() ==>
                !old(AtCall()) && p.executed == old(p.executed) && old(Fetchable(p.text, p.cpu.pc))
    {
      hide UntrappedAt, Touched, Native, IsExact, Patched, SavedSound, SavedWordSound, WB.Bank.Valid, Tracee.StopsFor,
           ArmedAt, Fetchable, NoneMissed, AllArmed, StepsOffAt, StepsAwayAt;
      var call, ra := CallReturnAddress(regs.pc);
      if call {
        done, ok := CallAndLook(ra);
      } else {
        done, ok := StepAndLook();
      }
    }

    /** The legs that `next` ran since the start of the command. */
    twostate predicate RanLegs(new start: Option<(string, nat)>, marks: seq<nat>)
      reads this, p, breakpoints, watch
    {
      Course(p.program, old(Table()), lineAt, start, old(watch.points.count) == 0, marks) && marks[0] == old(p.executed) && marks[|marks| - 1] == p.executed
    }

    // One round of the loop of cdbg_next_source_line.
    method NextTowards(start: Option<(string, nat)>) returns (done: bool, ok: bool)
      requires Valid() && WatchValid() && state == Stopped && temp == None && start.Some? && regs == p.cpu && p.life == Live
      modifies this`temp, this`exact, this`pid, this`state, this`regs, this`lost, this`announced, p, breakpoints`contents, breakpoints.cells, watch,
               watch.points`contents, watch.points.cells
      ensures Round(done, ok, start) && temp == None
      ensures old(AtCall()) && ok && state == Stopped && p.cpu.pc != ReturnAddress(old(p.cpu.pc)) && old(Undisturbed()) && Quiet() ==>
                (!done <==> lineAt(p.cpu.pc).None? || lineAt(p.cpu.pc) == start)
      ensures done && !ok && old(InStep()) && old(watch.accounted) && Quiet() ==> state == Idle || StuckAtCall()
      ensures !done ==> OnLine(lineAt, start, p.cpu.pc)
      ensures old(AtStop()) && old(OnLine(lineAt, start, p.cpu.pc)) && Quiet() && Unsignalled() ==>
                Leg(p.program, old(Table()), lineAt, start, old(watch.points.count) == 0, old(p.executed), p.executed)
    {
      hide TableValid, WatchValid, UntrappedAt, Touched, Native, Tracee.StopsFor, ArmedAt, Fetchable, StepsOffAt, StepsAwayAt;
      RunnableIsFetched();
      done, ok := Advance();
      ghost var wide := old(AtStop()) && old(OnLine(lineAt, start, p.cpu.pc));
      if done {
        if wide && Quiet() && Unsignalled() { LegDone(start); }
        return;
      }
      done, ok := LineReached(start);
      if wide && Quiet() && Unsignalled() { LegDone(start); }
    }

    // What Advance promises is a leg.
    twostate lemma LegDone(start: Option<(string, nat)>)
      requires old(Valid()) && p.program == old(p.program) && SameAddrs(old(Table()), Table()) && p.executed >= old(p.executed)
      requires old(p.life) == Live && old(OnLine(lineAt, start, p.cpu.pc))
      requires !old(AtCall()) ==> p.executed <= old(p.executed + Fetches())
      requires old(AtCall()) ==>
                 p.executed == old(p.executed)
                 || Called(p.program, Table(), old(watch.points.count) == 0, ReturnAddress(old(p.cpu.pc)), old(p.executed), p.executed)
      ensures Leg(p.program, old(Table()), lineAt, start, old(watch.points.count) == 0, old(p.executed), p.executed)
    {
      assert WasOnLine(p.program, lineAt, start, old(p.executed));
      assert Leg(p.program, Table(), lineAt, start, old(watch.points.count) == 0, old(p.executed), p.executed);
      LegByAddrs(p.program, old(Table()), Table(), lineAt, start, old(watch.points.count) == 0, old(p.executed), p.executed);
    }

    // cdbg_next_source_line
    method NextSourceLine() returns (ok: bool, ghost marks: seq<nat>)
      requires Valid() && WatchValid() && state == Stopped && temp == None
      modifies this`temp, this`exact, this`pid, this`state, this`regs, this`lost, this`announced, p, breakpoints`contents, breakpoints.cells, watch,
               watch.points`contents, watch.points.cells
      ensures Advanced(ok) && temp == None
      ensures !ok && Quiet() && old(Undisturbed()) ==>
                lineAt(old(p.cpu.pc)).Some? && (state == Idle || StuckAtCall() || p.resumes >= old(p.resumes) + MAX_STEPS)
      ensures ok && Quiet() && old(Undisturbed()) ==> p.resumes > old(p.resumes)
      ensures ok && Quiet() && old(Undisturbed()) && state == Stopped && lineAt(old(p.cpu.pc)).Some? ==> Elsewhere(lineAt(old(p.cpu.pc)))
      ensures old(AtStop()) && Quiet() && Unsignalled() && lineAt(old(p.cpu.pc)).Some? ==> RanLegs(lineAt(old(p.cpu.pc)), marks)
      ensures ok && Quiet() && old(watch.points.count) == 0 && lineAt(old(p.cpu.pc)).None? && p.life != Killed ==> p.executed == old(p.executed + Runnable())
    {
      hide UntrappedAt, Touched, Native, IsExact, Patched, SavedSound, SavedWordSound, WB.Bank.Valid;
      ok := RefreshRegs();
      marks := [p.executed];
      if ok { ok, marks := NextFromHere(); }
    }

    // Once the registers are read.
    method NextFromHere() returns (ok: bool, ghost marks: seq<nat>)
      requires Valid() && WatchValid() && state == Stopped && temp == None && regs == p.cpu && p.life == Live
      modifies this`temp, this`exact, this`pid, this`state, this`regs, this`lost, this`announced, p, breakpoints`contents, breakpoints.cells, watch,
               watch.points`contents, watch.points.cells
      ensures Advanced(ok) && temp == None
      ensures !ok && Quiet() && old(Undisturbed()) ==>
                lineAt(old(p.cpu.pc)).Some? && (state == Idle || StuckAtCall() || p.resumes >= old(p.resumes) + MAX_STEPS)
      ensures ok && Quiet() && old(Undisturbed()) ==> p.resumes > old(p.resumes)
      ensures ok && Quiet() && old(Undisturbed()) && state == Stopped && lineAt(old(p.cpu.pc)).Some? ==> Elsewhere(lineAt(old(p.cpu.pc)))
      ensures old(AtStop()) && Quiet() && Unsignalled() && lineAt(old(p.cpu.pc)).Some? ==> RanLegs(lineAt(old(p.cpu.pc)), marks)
      ensures ok && Quiet() && old(watch.points.count) == 0 && lineAt(old(p.cpu.pc)).None? && p.life != Killed ==> p.executed == old(p.executed + Runnable())
    {
      var start := lineAt(regs.pc);
      if start.None? {
        ok := StepInstruction();
        marks := [];
      } else {
        ok, marks := NextLoop(start);
      }
    }

    // Its loop.
    method NextLoop(start: Option<(string, nat)>) returns (ok: bool, ghost marks: seq<nat>)
      requires Valid() && WatchValid() && state == Stopped && temp == None && start.Some? && regs == p.cpu && p.life == Live && lineAt(p.cpu.pc) == start
      modifies this`temp, this`exact, this`pid, this`state, this`regs, this`lost, this`announced, p, breakpoints`contents, breakpoints.cells, watch,
               watch.points`contents, watch.points.cells
      ensures Advanced(ok) && temp == None
      ensures !ok && Quiet() && old(Undisturbed()) ==> state == Idle || StuckAtCall() || p.resumes >= old(p.resumes) + MAX_STEPS
      ensures ok ==> p.resumes > old(p.resumes)
      ensures ok && Quiet() && old(Undisturbed()) && state == Stopped ==> Elsewhere(start)
      ensures old(AtStop()) && Quiet() && Unsignalled() ==> RanLegs(start, marks)
    {
      hide TableValid, WatchValid, UntrappedAt, Touched, Native, Tracee.StopsFor, ArmedAt, Fetchable, StepsOffAt, StepsAwayAt;
      marks := [p.executed];
      for i := 0 to MAX_STEPS
        invariant Advanced(true) && pid > 0 && state == Stopped && temp == None && regs == p.cpu && p.life == Live
        invariant p.resumes >= old(p.resumes) + i
        invariant OnLine(lineAt, start, p.cpu.pc) && (old(AtStop()) && Quiet() && Unsignalled() ==> RanLegs(start, marks))
      {
        var done;
        ghost var n, table := p.executed, Table();
        done, ok := NextTowards(start);
        if old(AtStop()) && Quiet() && Unsignalled() {
          LegByAddrs(p.program, old(Table()), table, lineAt, start, old(watch.points.count) == 0, n, p.executed);
          CourseExtends(p.program, old(Table()), lineAt, start, old(watch.points.count) == 0, marks, p.executed);
        }
        marks := marks + [p.executed];
        if done { return; }
      }
      ok := false;
    }

    // run_to_entry_stop, for a resolved entry address
    method RunToEntryStop(entry: Option<Addr>) returns (rc: int)
      requires Valid() && WatchValid() && state != Running && temp == None
      modifies this`temp, this`exact, this`state, this`regs, this`lost, p, breakpoints`contents, breakpoints.cells, watch
      ensures Valid() && WatchValid() && Onward() && watch.Aged() && RunningIfLost(OnEntry) && temp == None && -1 <= rc <= 1
      ensures rc == 1 ==> entry == Some(p.cpu.pc) && p.resumes > old(p.resumes)
      ensures rc == -1 ==> entry.Some?
      ensures rc == 0 && entry.Some? && old(state) == Stopped && Calm() && state == Stopped ==>
                p.cpu.pc != entry.value && p.resumes > old(p.resumes)
      ensures entry.Some? ==> NotAt(p.program, entry.value, old(p.executed), p.executed)
      ensures rc == 0 && entry.Some? && old(Undisturbed()) && breakpoints.count == 0 && Quiet() && Unsignalled() ==> Interrupts(p.program, Table(), p.cpu.pc)
      ensures rc == -1 && entry.Some? && old(InStep()) && entry.value in old(p.text) ==> state == Idle || !Calm()
      ensures rc >= 0 && old(state) == Stopped ==> state == Stopped
      ensures old(InStep()) && breakpoints.count == 0 && Calm() && state == Stopped ==> InStep()
    {
      hide UntrappedAt, Touched, Native, IsExact, Patched, SavedSound, SavedWordSound, WB.Bank.Valid, Tracee.StopsFor,
           ArmedAt, Fetchable;
      if state != Stopped || entry.None? { return 0; }
      var resumed, waited, bp := RunToTemp(entry.value, OnEntry);
      if resumed != 0 || waited != 0 { return -1; }
      rc := ArriveAtEntry(bp);
    }

    // Its end.
    method ArriveAtEntry(bp: Breakpoint) returns (rc: int)
      requires Valid() && state == Stopped && temp == Some(bp) && p.life == Live
      modifies this`temp, this`exact, this`regs, p`text, p`cpu, p`faults
      ensures Valid() && temp == None && p.faults >= old(p.faults) && p.cpu == old(p.cpu) && -1 <= rc <= 1
      ensures rc == 1 ==> p.cpu.pc == bp.addr
      ensures rc == 0 ==> p.cpu.pc != bp.addr
      ensures rc == -1 ==> p.faults > old(p.faults)
      ensures old(InStep()) && Calm() ==> InStep()
    {
      var ok := RefreshRegs();
      if !ok {
        ok := LiftTemp(bp);
        return -1;
      }
      var arrived := MatchesPc(regs.pc, bp);
      ok := LiftTemp(bp);
      if arrived && bp.addr > 0 {
        regs := regs.(pc := bp.addr);
        ok := p.SetRegs(regs);
        if !ok { return -1; }
      }
      rc := if arrived then 1 else 0;
    }
  }
}

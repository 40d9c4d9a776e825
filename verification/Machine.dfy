/** The debuggee: an abstract single-threaded machine whose instruction memory
    the debugger may patch and whose accesses to data it may watch.

    What an instruction does and which bytes it loads and stores are parameters
    (`Isa`, `Touches`); the model only fixes how a word is fetched, and that
    fetching `BRK #0` and an access that the debug registers match trap without
    progress. System calls either succeed or fail without any effect. */
module Machine {
  import opened Common
  import opened WatchEncoding

  type Text = map<Addr, Word>

  // BRK #0
  const TRAP: Word := 0xd420_0000

  // Registers (other than the pc) and data memory of the debuggee.
  type Data = map<int, int>

  datatype Cpu = Cpu(pc: Addr, data: Data)

  // What executing one instruction leads to.
  datatype Outcome = Next(cpu: Cpu) | Exit

  type Isa = (Word, Cpu) -> Outcome
  type Touches = (Word, Cpu) -> set<Touch>

  datatype Program = Program(isa: Isa, touches: Touches, text: Text, start: Cpu)

  /** One step with no debugger attached. An unmapped pc and a `BRK` of the
      program's own make no progress. */
  function StepNative(prog: Program, c: Cpu): Outcome {
    if c.pc !in prog.text || prog.text[c.pc] == TRAP then Next(c) else prog.isa(prog.text[c.pc], c)
  }

  /** The state after `n` steps with no debugger attached. */
  function Native(prog: Program, n: nat): Outcome {
    if n == 0 then Next(prog.start)
    else
      match Native(prog, n - 1)
      case Exit => Exit
      case Next(c) => StepNative(prog, c)
  }

  /** Every word of `text` is the program's own or a trap. */
  ghost predicate Patched(prog: Program, text: Text) {
    text.Keys == prog.text.Keys &&
    forall a | a in text :: text[a] == prog.text[a] || text[a] == TRAP
  }

  // There is an instruction at the pc, and no trap.
  predicate Fetchable(text: Text, pc: Addr) {
    pc in text && text[pc] != TRAP
  }

  /** The instruction at the pc loads or stores a byte that `dr` watches. */
  predicate Touched(prog: Program, dr: DebugRegs, c: Cpu) {
    c.pc in prog.text && exists t | t in prog.touches(prog.text[c.pc], c) :: dr.Traps(t)
  }

  /** The instruction at the pc neither is a trap nor touches what `dr` watches. */
  predicate UntrappedAt(prog: Program, text: Text, dr: DebugRegs, o: Outcome) {
    o.Next? && Fetchable(text, o.cpu.pc) && !Touched(prog, dr, o.cpu)
  }

  /** The native instructions number `lo` up to `hi` were all fetched from words
      of `text` that were not traps, and touched nothing that `dr` watches. */
  ghost predicate RanUntrapped(prog: Program, text: Text, dr: DebugRegs, lo: nat, hi: nat) {
    forall k: nat | lo <= k < hi :: UntrappedAt(prog, text, dr, Native(prog, k))
  }

  /** None of the native instructions number `lo` up to `hi` was at `a`. */
  ghost predicate NotAt(prog: Program, a: Addr, lo: nat, hi: nat) {
    forall k: nat | lo <= k < hi :: LeftOf(prog, a, k)
  }

  ghost predicate LeftOf(prog: Program, a: Addr, k: nat) {
    Native(prog, k).Next? && Native(prog, k).cpu.pc != a
  }

  /** A text with all the traps of another, and perhaps more. */
  ghost predicate MoreTraps(text: Text, text': Text) {
    text'.Keys == text.Keys && forall a | a in text && text[a] == TRAP :: text'[a] == TRAP
  }

  /** Likewise, with no trap more at `a`. */
  ghost predicate Rearms(text: Text, text': Text, a: Addr) {
    MoreTraps(text, text') && (Fetchable(text', a) <==> Fetchable(text, a))
  }

  lemma RearmsNothing(text: Text, a: Addr)
    ensures Rearms(text, text, a)
  {
  }

  lemma RearmsJoins(text: Text, text': Text, text'': Text, a: Addr)
    requires Rearms(text, text', a) && Rearms(text', text'', a)
    ensures Rearms(text, text'', a)
  {
  }

  lemma RanJoins(prog: Program, text: Text, text': Text, dr: DebugRegs, lo: nat, mid: nat, hi: nat)
    requires MoreTraps(text, text')
    requires RanUntrapped(prog, text, dr, lo, mid) && RanUntrapped(prog, text', dr, mid, hi)
    ensures RanUntrapped(prog, text, dr, lo, hi)
  {
    forall k: nat | lo <= k < hi ensures UntrappedAt(prog, text, dr, Native(prog, k)) {
      assert k >= mid ==> UntrappedAt(prog, text', dr, Native(prog, k));
    }
  }

  /** A planted trap is not run through. */
  lemma RanNotAt(prog: Program, text: Text, dr: DebugRegs, a: Addr, lo: nat, hi: nat)
    requires RanUntrapped(prog, text, dr, lo, hi) && !Fetchable(text, a)
    ensures NotAt(prog, a, lo, hi)
  {
    forall k: nat | lo <= k < hi ensures LeftOf(prog, a, k) {
      assert UntrappedAt(prog, text, dr, Native(prog, k));
    }
  }

  /** Fetching through a patched text either traps in place or does what the
      program does natively. */
  lemma FetchIsNative(prog: Program, text: Text, c: Cpu)
    requires Patched(prog, text) && Fetchable(text, c.pc)
    ensures StepNative(prog, c) == prog.isa(text[c.pc], c)
  {
  }

  datatype Life = Live | Exited | Killed
  datatype Resume = Halted | ByStep | ByContinue

  // The fault address and syndrome of the last exception.
  datatype Exception = Exception(far: Addr, esr: bv32)

  // Whether a waitpid fails.
  datatype Report = Failure | Stop

  /** Why a process stopped: it had not been resumed, the step was done, the word at the
      pc traps, the instruction at the pc touches watched memory, or a signal. */
  datatype Cause = Unresumed | Stepped | Trapped | Watched | Signalled

  class Tracee {
    var program: Program
    var text: Text
    var cpu: Cpu
    var life: Life
    var resume: Resume
    var exception: Exception
    // What the coming waitpid calls report; anything, once that is used up.
    var reports: seq<Report>
    // Why the process stopped last, and how often a signal stopped or ended it.
    ghost var cause: Cause
    ghost var signals: nat
    // Native instructions executed so far, how often the debuggee was resumed, and how
    // often to continue.
    ghost var executed: nat
    ghost var resumes: nat
    ghost var continues: nat
    // Calls on a live process that failed although nothing in the model's state says so.
    ghost var faults: nat
    ghost var waitFaults: nat
    // How often a process was spawned, and how often that failed.
    ghost var spawns: nat
    ghost var spawnFaults: nat

    /** The register and data state is the one the program reaches natively
        after `executed` instructions. */
    ghost predicate TracksNative()
      reads this
    {
      match life
      case Live => Native(program, executed) == Next(cpu)
      case Exited => Native(program, executed) == Exit
      case Killed => Native(program, executed).Next?
    }

    ghost predicate Sound()
      reads this
    {
      Patched(program, text) && TracksNative()
    }

    constructor (prog: Program)
      ensures Sound() && program == prog && text == prog.text && life == Killed
      ensures executed == faults == waitFaults == 0
    {
      program, text, cpu, life, resume := prog, prog.text, prog.start, Killed, Halted;
      exception, reports := Exception(0, 0), [];
      executed, resumes, continues, faults, waitFaults, spawns, spawnFaults := 0, 0, 0, 0, 0, 0, 0;
      cause, signals := Unresumed, 0;
    }

    method ReadWord(a: Addr) returns (ok: bool, w: Word)
      modifies this`faults
      ensures ok ==> life == Live && a in text && w == text[a] && faults == old(faults)
      ensures !ok && life == Live && a in text ==> faults > old(faults)
      ensures faults >= old(faults)
    {
      ok, w := false, 0;
      if life == Live && a in text {
        ok := *;
        if ok { w := text[a]; } else { faults := faults + 1; }
      }
    }

    method WriteWord(a: Addr, w: Word) returns (ok: bool)
      modifies this`text, this`faults
      ensures ok ==> life == Live && a in old(text) && text == old(text)[a := w] && faults == old(faults)
      ensures !ok ==> text == old(text)
      ensures !ok && life == Live && a in text ==> faults > old(faults)
      ensures faults >= old(faults)
    {
      ok := false;
      if life == Live && a in text {
        ok := *;
        if ok { text := text[a := w]; } else { faults := faults + 1; }
      }
    }

    method GetRegs() returns (ok: bool, c: Cpu)
      modifies this`faults
      ensures ok ==> life == Live && c == cpu && faults == old(faults)
      ensures !ok && life == Live ==> faults > old(faults)
      ensures faults >= old(faults)
    {
      ok, c := false, cpu;
      if life == Live {
        ok := *;
        if !ok { faults := faults + 1; }
      }
    }

    method SetRegs(c: Cpu) returns (ok: bool)
      modifies this`cpu, this`faults
      ensures ok ==> life == Live && cpu == c && faults == old(faults)
      ensures !ok ==> cpu == old(cpu)
      ensures !ok && life == Live ==> faults > old(faults)
      ensures faults >= old(faults)
    {
      ok := false;
      if life == Live {
        ok := *;
        if ok { cpu := c; } else { faults := faults + 1; }
      }
    }

    // thread_get_state(ARM_EXCEPTION_STATE64)
    method GetException() returns (ok: bool, e: Exception)
      modifies this`faults
      ensures ok ==> life == Live && e == exception && faults == old(faults)
      ensures !ok && life == Live ==> faults > old(faults)
      ensures faults >= old(faults)
    {
      ok, e := false, exception;
      if life == Live {
        ok := *;
        if !ok { faults := faults + 1; }
      }
    }

    // ptrace(PT_STEP) and ptrace(PT_CONTINUE)
    method Ptrace(request: Resume) returns (ok: bool)
      modifies this`resume, this`faults, this`resumes, this`continues
      ensures ok ==> life == Live && resume == request && faults == old(faults) && resumes == old(resumes) + 1
                     && continues == old(continues) + if request == ByContinue then 1 else 0
      ensures !ok ==> resume == old(resume) && resumes == old(resumes) && continues == old(continues)
      ensures !ok && life == Live ==> faults > old(faults)
      ensures faults >= old(faults)
    {
      ok := false;
      if life == Live {
        ok := *;
        if ok {
          resume, resumes := request, resumes + 1;
          if request == ByContinue { continues := continues + 1; }
        } else {
          faults := faults + 1;
        }
      }
    }

    /** Fetch and execute one instruction, unless it traps. */
    method Fetch(dr: DebugRegs) returns (why: Cause)
      requires Sound() && life == Live
      modifies this`cpu, this`life, this`executed
      ensures Sound() && life != Killed
      ensures why == if !Fetchable(text, old(cpu.pc)) then Trapped else if Touched(program, dr, old(cpu)) then Watched else Stepped
      ensures why != Stepped ==> cpu == old(cpu) && life == Live && executed == old(executed)
      ensures why == Stepped ==> executed == old(executed) + 1
      ensures RanUntrapped(program, text, dr, old(executed), executed)
    {
      if !Fetchable(text, cpu.pc) { return Trapped; }
      if Touched(program, dr, cpu) { return Watched; }
      FetchIsNative(program, text, cpu);
      assert UntrappedAt(program, text, dr, Native(program, executed));
      match program.isa(text[cpu.pc], cpu) {
        case Next(c) => cpu := c;
        case Exit => life := Exited;
      }
      executed := executed + 1;
      why := Stepped;
    }

    method Run(dr: DebugRegs) returns (why: Cause)
      requires Sound() && life == Live
      modifies this`cpu, this`life, this`executed
      ensures Sound() && life != Killed
      ensures executed >= old(executed)
      ensures executed == old(executed) ==> life == Live && cpu == old(cpu)
      ensures RanUntrapped(program, text, dr, old(executed), executed)
      ensures why == Trapped ==> life == Live && !Fetchable(text, cpu.pc)
      ensures why == Watched ==> life == Live && Fetchable(text, cpu.pc) && Touched(program, dr, cpu)
      ensures life == Live ==> why == Trapped || why == Watched || why == Signalled
    {
      var fuel: nat := *;
      why := Stepped;
      while fuel > 0 && why == Stepped && life == Live
        invariant Sound() && life != Killed
        invariant executed >= old(executed)
        invariant executed == old(executed) ==> life == Live && cpu == old(cpu)
        invariant RanUntrapped(program, text, dr, old(executed), executed)
        invariant why == Trapped ==> life == Live && !Fetchable(text, cpu.pc)
        invariant why == Watched ==> life == Live && Fetchable(text, cpu.pc) && Touched(program, dr, cpu)
        invariant why == Stepped || why == Trapped || why == Watched
        decreases fuel
      {
        why := Fetch(dr);
        fuel := fuel - 1;
      }
      if why == Stepped { why := Signalled; }
    }

    // The fault address of a watchpoint's exception need not be the watched byte.
    method NewException(watched: bool) returns (e: Exception)
      ensures IsWatchpointException(e.esr) == watched
    {
      assert IsWatchpointException(0xd000_0000) && !IsWatchpointException(0);
      var far: Addr := *;
      var esr: bv32 :| IsWatchpointException(esr) == watched;
      e := Exception(far, esr);
    }

    /** waitpid: a step runs one instruction, a continue runs until a trap, a watched
        access, the exit or any earlier signal, which may end the process. `dr` are the
        debug registers of the thread that executes. */
    method WaitPid(dr: DebugRegs) returns (ok: bool, exited: bool)
      requires Sound()
      modifies this
      ensures Sound() && program == old(program) && text == old(text) && faults == old(faults) && resumes == old(resumes)
              && continues == old(continues) && spawns == old(spawns) && spawnFaults == old(spawnFaults) && signals >= old(signals)
      ensures ok ==> exited == (life != Live) && resume == Halted && waitFaults == old(waitFaults)
      ensures !ok ==> cpu == old(cpu) && life == old(life) && executed == old(executed) && waitFaults > old(waitFaults)
      ensures executed >= old(executed) && RanUntrapped(program, text, dr, old(executed), executed)
      ensures old(life) != Live || old(resume) == Halted ==> executed == old(executed)
      ensures old(life) != Live ==> life == old(life)
      ensures executed == old(executed) ==> cpu == old(cpu)
      ensures old(life) == Live && old(resume) == ByStep ==> executed <= old(executed) + 1
      ensures ok && old(life) == Live && old(resume) == ByStep && life != Killed ==>
                executed == old(executed) + if UntrappedAt(program, text, dr, Next(old(cpu))) then 1 else 0
      ensures ok && life == Live ==> StopsFor(dr, old(resume))
      ensures ok && life == Live && old(resume) == ByStep && cause != Signalled ==> (cause == Stepped <==> executed > old(executed))
      ensures ok && life == Live && signals == old(signals) ==> cause != Signalled
      ensures old(life) == Live && life == Killed ==> signals > old(signals)
      ensures reports == if old(reports) == [] then [] else old(reports)[1..]
      ensures old(reports) != [] ==> ok == old(reports)[0].Stop?
    {
      var report: Report := *;
      if reports != [] { report, reports := reports[0], reports[1..]; }
      ok, exited := report.Stop?, false;
      if !ok {
        waitFaults := waitFaults + 1;
        return;
      }
      if life == Live { Proceed(dr); }
      resume := Halted;
      exited := life != Live;
    }

    /** The stop of a process that had been resumed like that. */
    ghost predicate StopsFor(dr: DebugRegs, request: Resume)
      reads this
    {
      (cause == Stepped ==> request == ByStep) && (cause == Unresumed ==> request == Halted) &&
      (cause == Trapped ==> !Fetchable(text, cpu.pc)) &&
      (cause == Watched ==> Fetchable(text, cpu.pc) && Touched(program, dr, cpu)) &&
      (cause != Signalled ==> (IsWatchpointException(exception.esr) <==> cause == Watched))
    }

    method Proceed(dr: DebugRegs)
      requires Sound() && life == Live
      modifies this`cpu, this`life, this`executed, this`exception, this`cause, this`signals
      ensures Sound() && signals >= old(signals)
      ensures executed >= old(executed) && RanUntrapped(program, text, dr, old(executed), executed)
      ensures executed == old(executed) ==> cpu == old(cpu)
      ensures resume == ByStep ==> executed == old(executed) + if UntrappedAt(program, text, dr, Next(old(cpu))) then 1 else 0
      ensures resume == Halted ==> executed == old(executed)
      ensures life == Live && resume == ByStep && cause != Signalled ==> (cause == Stepped <==> executed > old(executed))
      ensures life == Live ==> StopsFor(dr, resume)
      ensures life == Live && signals == old(signals) ==> cause != Signalled
      ensures life == Killed ==> signals > old(signals)
    {
      var why := Advance(dr);
      exception := NewException(why == Watched);
      cause := why;
      var signalled: bool := *;
      if why == Signalled || signalled {
        signals := signals + 1;
        cause, exception := Signalled, *;
        var kills: bool := *;
        if life == Live && kills { life := Killed; }
      }
    }

    method Advance(dr: DebugRegs) returns (why: Cause)
      requires Sound() && life == Live
      modifies this`cpu, this`life, this`executed
      ensures Sound() && life != Killed
      ensures executed >= old(executed) && RanUntrapped(program, text, dr, old(executed), executed)
      ensures executed == old(executed) ==> life == Live && cpu == old(cpu)
      ensures resume == ByStep ==> executed == old(executed) + if UntrappedAt(program, text, dr, Next(old(cpu))) then 1 else 0
      ensures resume == Halted ==> executed == old(executed)
      ensures resume == ByStep && why != Signalled ==> (why == Stepped <==> executed > old(executed))
      ensures life == Live && why == Stepped ==> resume == ByStep
      ensures life == Live && why == Unresumed ==> resume == Halted
      ensures why == Trapped ==> life == Live && !Fetchable(text, cpu.pc)
      ensures why == Watched ==> life == Live && Fetchable(text, cpu.pc) && Touched(program, dr, cpu)
    {
      match resume
      case Halted => why := Unresumed;
      case ByStep => why := Fetch(dr);
      case ByContinue => why := Run(dr);
    }

    method Kill() returns (ok: bool)
      requires Sound()
      modifies this`life, this`signals, this`faults
      ensures Sound() && signals >= old(signals)
      ensures ok ==> life != Live
      ensures !ok ==> life == old(life) && faults > old(faults)
      ensures old(life) != Live ==> life == old(life)
      ensures old(life) == Live && life == Killed ==> signals > old(signals)
      ensures faults >= old(faults)
    {
      ok := *;
      if !ok {
        faults := faults + 1;
      } else if life == Live {
        life, signals := Killed, signals + 1;
      }
    }

    method Spawn(prog: Program) returns (ok: bool)
      requires Sound()
      modifies this`program, this`text, this`cpu, this`life, this`resume, this`executed, this`signals, this`spawns, this`spawnFaults
      ensures Sound()
      ensures ok ==> program == prog && text == prog.text && cpu == prog.start && life == Live && resume == Halted && executed == signals == 0
                     && spawns == old(spawns) + 1 && spawnFaults == old(spawnFaults)
      ensures !ok ==> unchanged(this`program, this`text, this`cpu, this`life, this`resume, this`executed, this`signals, this`spawns)
                      && spawnFaults > old(spawnFaults)
    {
      ok := *;
      if !ok {
        spawnFaults := spawnFaults + 1;
      } else {
        spawns := spawns + 1;
        program, text, cpu, life, resume := prog, prog.text, prog.start, Live, Halted;
        executed, signals := 0, 0;
      }
    }
  }
}

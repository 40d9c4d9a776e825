/** Walking the stack: cdbg_regs_frame_up and unwind_from_stack_top of src/regs.c,
    and cmd_backtrace of src/debugger.c. */
module Unwind {
  import opened Common

  const MAX_BACKTRACE_FRAMES: nat := 64

  // cdbg_mem_read_u64: the eight bytes at an address, if they can be read
  type Reader = Addr -> Option<Addr>

  // The fields of cdbg_regs_t that unwinding uses.
  datatype Frame = Frame(pc: Addr, fp: Addr, sp: Addr, lr: Addr)

  /** The frame record at `fp`: a saved fp further up and a plausible return address. */
  function RecordAt(mem: Reader, fp: Addr): Option<(Addr, Addr)> {
    match mem(fp)
    case None => None
    case Some(savedFp) =>
      match mem((fp + 8) % TWO_64)
      case None => None
      case Some(ret) => if savedFp > fp && ret >= 0x1000 then Some((savedFp, ret)) else None
  }

  class Registers {
    var pc: Addr
    var fp: Addr
    var sp: Addr
    var lr: Addr

    function Value(): Frame
      reads this
    {
      Frame(pc, fp, sp, lr)
    }

    constructor (f: Frame)
      ensures Value() == f
    {
      pc, fp, sp, lr := f.pc, f.fp, f.sp, f.lr;
    }

    // unwind_from_stack_top
    method FromStackTop(mem: Reader, top: Addr) returns (ok: bool)
      modifies this
      ensures ok == StackTop(mem, old(Value()), top).Some?
      ensures Value() == if ok then StackTop(mem, old(Value()), top).value else old(Value())
      ensures ok <==> old(lr) >= 0x1000
      ensures ok ==> pc == old(lr) == lr && sp == (top + 16) % TWO_64
                     && (fp == old(fp) || (fp > old(fp) != 0 && mem(old(fp)) == Some(fp)))
    {
      if lr < 0x1000 { return false; }
      pc := lr;
      if fp != 0 {
        var saved := mem(fp);
        if saved.Some? && saved.value > fp { fp := saved.value; }
      }
      sp := (top + 16) % TWO_64;
      ok := true;
    }

    // cdbg_regs_frame_up
    method FrameUp(mem: Reader) returns (ok: bool)
      modifies this
      ensures ok == Up(mem, old(Value())).Some?
      ensures Value() == if ok then Up(mem, old(Value())).value else old(Value())
      ensures ok <==> old(lr) >= 0x1000 || (old(fp) != 0 && RecordAt(mem, old(fp)).Some?)
      ensures ok ==> lr == old(lr) && fp >= old(fp)
                     && if old(fp) != 0 && RecordAt(mem, old(fp)).Some?
                        then (fp, pc) == RecordAt(mem, old(fp)).value && sp == (old(fp) + 16) % TWO_64
                        else pc == lr && sp == (old(sp) + 16) % TWO_64
    {
      var oldFp, top := fp, sp;
      if oldFp != 0 {
        var savedFp := mem(oldFp);
        if savedFp.Some? {
          var ret := mem((oldFp + 8) % TWO_64);
          if ret.Some? && savedFp.value > oldFp && ret.value >= 0x1000 {
            pc, fp, sp := ret.value, savedFp.value, (oldFp + 16) % TWO_64;
            return true;
          }
        }
      }
      ok := FromStackTop(mem, top);
    }
  }

  function StackTop(mem: Reader, f: Frame, top: Addr): Option<Frame> {
    if f.lr < 0x1000 then None
    else
      var fp := match mem(f.fp) case Some(saved) => if f.fp != 0 && saved > f.fp then saved else f.fp case None => f.fp;
      Some(Frame(f.lr, fp, (top + 16) % TWO_64, f.lr))
  }

  function Up(mem: Reader, f: Frame): Option<Frame> {
    if f.fp != 0 && RecordAt(mem, f.fp).Some? then
      var (savedFp, ret) := RecordAt(mem, f.fp).value;
      Some(Frame(ret, savedFp, (f.fp + 16) % TWO_64, f.lr))
    else StackTop(mem, f, f.sp)
  }

  /** `k` uses of `up`. */
  function UpTimes(mem: Reader, f: Frame, k: nat): Option<Frame> {
    if k == 0 then Some(f)
    else
      match UpTimes(mem, f, k - 1)
      case None => None
      case Some(g) => Up(mem, g)
  }

  /** Frame `k` of the walk from `f` has this pc and fp. */
  ghost predicate FrameIs(mem: Reader, f: Frame, k: nat, pc: Addr, fp: Addr) {
    var g := UpTimes(mem, f, k);
    g.Some? && g.value.pc == pc && g.value.fp == fp
  }

  /** `pcs` and `fps` are those of repeated `up` from `f`, the fps rising. */
  ghost predicate Walk(mem: Reader, f: Frame, pcs: seq<Addr>, fps: seq<Addr>) {
    1 <= |pcs| == |fps| &&
    (forall k | 0 <= k < |pcs| :: FrameIs(mem, f, k, pcs[k], fps[k])) &&
    forall k | 0 < k < |fps| :: fps[k - 1] < fps[k]
  }

  lemma WalkExtends(mem: Reader, f: Frame, pcs: seq<Addr>, fps: seq<Addr>)
    requires Walk(mem, f, pcs, fps) && fps[|fps| - 1] != 0 && RecordAt(mem, fps[|fps| - 1]).Some?
    ensures var (next, ret) := RecordAt(mem, fps[|fps| - 1]).value;
            Walk(mem, f, pcs + [ret], fps + [next])
  {
    var n := |pcs|;
    assert FrameIs(mem, f, n - 1, pcs[n - 1], fps[n - 1]);
    assert UpTimes(mem, f, n) == Up(mem, UpTimes(mem, f, n - 1).value);
  }

  /** cmd_backtrace prints the pcs of repeated `up`, as far as there are frame
      records, 64 at most. */
  method Backtrace(mem: Reader, f: Frame) returns (pcs: seq<Addr>, ghost fps: seq<Addr>)
    ensures Walk(mem, f, pcs, fps) && |pcs| <= MAX_BACKTRACE_FRAMES
    ensures |pcs| < MAX_BACKTRACE_FRAMES ==> fps[|fps| - 1] == 0 || RecordAt(mem, fps[|fps| - 1]).None?
  {
    pcs, fps := [f.pc], [f.fp];
    assert FrameIs(mem, f, 0, f.pc, f.fp);
    var fp := f.fp;
    for frame := 1 to MAX_BACKTRACE_FRAMES
      invariant Walk(mem, f, pcs, fps) && |pcs| == frame && fps[frame - 1] == fp
    {
      if fp == 0 { return; }
      var record := RecordNext(mem, fp);
      if record.None? { return; }
      WalkExtends(mem, f, pcs, fps);
      var (next, ret) := record.value;
      pcs, fps := pcs + [ret], fps + [next];
      fp := next;
    }
  }

  /** frame_record_next; its test for a zero saved fp never decides. */
  function RecordNext(mem: Reader, fp: Addr): (r: Option<(Addr, Addr)>)
    ensures r == RecordAt(mem, fp)
  {
    match mem(fp)
    case None => None
    case Some(savedFp) =>
      match mem((fp + 8) % TWO_64)
      case None => None
      case Some(savedPc) =>
        if savedFp == 0 || savedPc < 0x1000 || savedFp <= fp then None else Some((savedFp, savedPc))
  }

  /** `up` never moves the frame pointer down. */
  lemma {:induction false} FpNeverFalls(mem: Reader, f: Frame, k: nat)
    requires UpTimes(mem, f, k).Some?
    ensures f.fp <= UpTimes(mem, f, k).value.fp && UpTimes(mem, f, k).value.lr == f.lr
  {
    if k > 0 { FpNeverFalls(mem, f, k - 1); }
  }
}

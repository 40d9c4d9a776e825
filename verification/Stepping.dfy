/** Where the instructions run by `step` and `next` are (src/debugger.c): on the line
    they start from, or inside calls that are stepped over. */
module Stepping {
  import opened Common
  import opened Machine
  import opened Overlay

  // cdbg_lineno_line_at_pc: the source file and line of an address.
  type LineMap = Addr -> Option<(string, nat)>

  // BL
  predicate IsCall(w: Word) {
    w / 0x400_0000 == 0x25
  }

  function ReturnAddress(pc: Addr): Addr {
    (pc + 4) % TWO_64
  }

  // Without a line of its own, or on the line a command started from.
  predicate OnLine(lines: LineMap, start: Option<(string, nat)>, a: Addr) {
    lines(a).None? || lines(a) == start
  }

  /** Each of the native instructions number `lo` up to `hi` was on that line. */
  ghost predicate SameLine(prog: Program, lines: LineMap, start: Option<(string, nat)>, lo: nat, hi: nat) {
    forall k: nat | lo <= k < hi :: WasOnLine(prog, lines, start, k)
  }

  ghost predicate WasOnLine(prog: Program, lines: LineMap, start: Option<(string, nat)>, k: nat) {
    Native(prog, k).Next? && OnLine(lines, start, Native(prog, k).cpu.pc)
  }

  lemma SameLineExtends(prog: Program, lines: LineMap, start: Option<(string, nat)>, lo: nat, mid: nat, hi: nat)
    requires SameLine(prog, lines, start, lo, mid) && WasOnLine(prog, lines, start, mid) && mid <= hi <= mid + 1
    ensures SameLine(prog, lines, start, lo, hi)
  {
  }

  lemma NotAtJoins(prog: Program, a: Addr, lo: nat, mid: nat, hi: nat)
    requires NotAt(prog, a, lo, mid) && NotAt(prog, a, mid, hi)
    ensures NotAt(prog, a, lo, hi)
  {
  }

  /** What may stop a call that is stepped over: a breakpoint, a trap of the program's
      own, an unmapped pc. */
  ghost predicate Interrupts(prog: Program, table: Table, a: Addr) {
    Listed(table, a) || !Fetchable(prog.text, a)
  }

  lemma InterruptsByAddrs(prog: Program, table: Table, table': Table, a: Addr)
    requires SameAddrs(table, table')
    ensures Interrupts(prog, table, a) <==> Interrupts(prog, table', a)
  {
    forall i | 0 <= i < |table| ensures table[i].addr == a <==> table'[i].addr == a {}
  }

  /** One leg of `next`, from native instruction `m` to `n`: at most one instruction, of
      the starting line; or a call there, up to its return address or an interruption.
      Where a watchpoint may interrupt a call too, `strict` is false. */
  ghost predicate Leg(prog: Program, table: Table, lines: LineMap, start: Option<(string, nat)>, strict: bool, m: nat, n: nat) {
    m <= n && WasOnLine(prog, lines, start, m) &&
    var pc := Native(prog, m).cpu.pc;
    if pc in prog.text && IsCall(prog.text[pc]) then m == n || Called(prog, table, strict, ReturnAddress(pc), m, n)
    else n <= m + 1
  }

  ghost predicate Called(prog: Program, table: Table, strict: bool, ra: Addr, m: nat, n: nat) {
    NotAt(prog, ra, m, n) &&
    (strict && Native(prog, n).Next? ==> Native(prog, n).cpu.pc == ra || Interrupts(prog, table, Native(prog, n).cpu.pc))
  }

  lemma LegByAddrs(prog: Program, table: Table, table': Table, lines: LineMap, start: Option<(string, nat)>, strict: bool, m: nat, n: nat)
    requires SameAddrs(table, table') && Leg(prog, table', lines, start, strict, m, n)
    ensures Leg(prog, table, lines, start, strict, m, n)
  {
    if Native(prog, n).Next? {
      InterruptsByAddrs(prog, table, table', Native(prog, n).cpu.pc);
    }
  }

  /** The legs of `next`, from mark to mark. */
  ghost predicate Course(prog: Program, table: Table, lines: LineMap, start: Option<(string, nat)>, strict: bool, marks: seq<nat>) {
    marks != [] && forall i | 0 < i < |marks| :: Leg(prog, table, lines, start, strict, marks[i - 1], marks[i])
  }

  lemma CourseExtends(prog: Program, table: Table, lines: LineMap, start: Option<(string, nat)>, strict: bool, marks: seq<nat>, n: nat)
    requires Course(prog, table, lines, start, strict, marks) && Leg(prog, table, lines, start, strict, marks[|marks| - 1], n)
    ensures Course(prog, table, lines, start, strict, marks + [n])
  {
  }
}

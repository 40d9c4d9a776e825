/** A line-number program for any list of rows, with special opcodes where they
    reach: what parse_line_program makes of it is the list. */
module LineEncoder {
  import opened Common
  import opened Leb128
  import opened LineMachine
  import opened LineProgram

  /** The special opcode that advances the address by `da` and the line by `dl`. */
  function SpecialFor(h: Header, da: nat, dl: int): (r: Option<Byte>)
    requires Usable(h)
  {
    if h.minInstLength == 0 || da % h.minInstLength != 0 then None
    else if !(h.lineBase <= dl < h.lineBase + h.lineRange && dl <= 127) then None
    else
      var opcode := h.opcodeBase + (dl - h.lineBase) + h.lineRange * (da / h.minInstLength);
      if 1 <= opcode < 0x100 then Some(opcode) else None
  }

  /** The division by line_range recovers both advances. */
  lemma SpecialInverts(h: Header, da: nat, dl: int)
    requires Usable(h) && SpecialFor(h, da, dl).Some?
    ensures var opcode := SpecialFor(h, da, dl).value;
            Encodable(h, Special(opcode)) && LineIncrement(h, opcode) == dl
            && OperationAdvance(h, opcode) * h.minInstLength == da
  {
    var n := da / h.minInstLength;
    var opcode := SpecialFor(h, da, dl).value;
    ModUnique(opcode - h.opcodeBase, h.lineRange, n, dl - h.lineBase);
    assert da == n * h.minInstLength + da % h.minInstLength;
  }

  /** The address advance of DW_LNS_const_add_pc. */
  function ConstAdvance(h: Header): nat
    requires Usable(h)
  {
    OperationAdvance(h, 255) * h.minInstLength
  }

  function Distance(from: U64, to: U64): U64 {
    (to - from) % TWO_64
  }

  // The registers that append `row`, if it fits in them.
  function RegsOf(row: Row): Regs {
    Regs(row.address, WrapI64(row.line), row.file, row.column % TWO_64)
  }

  /** Instructions that take the registers from `cur` to those of `row` and append it; with
      several operations per instruction, without operation advances. */
  function MoveTo(h: Header, cur: Regs, row: Row): seq<Op>
    requires Usable(h)
  {
    var da, dl := Distance(cur.address, row.address), row.line - cur.line;
    if h.maxOps == 1 && -128 <= dl < 128 && SpecialFor(h, da, dl).Some? then [Special(SpecialFor(h, da, dl).value)]
    else if h.maxOps == 1 && -128 <= dl < 128 && h.opcodeBase > 8 && da >= ConstAdvance(h) && SpecialFor(h, da - ConstAdvance(h), dl).Some? then
      [ConstAddPc, Special(SpecialFor(h, da - ConstAdvance(h), dl).value)]
    else [SetAddress(row.address), AdvanceLine(WrapI64(dl)), Copy]
  }

  function OpsFor(h: Header, cur: Regs, row: Row): seq<Op>
    requires Usable(h)
  {
    [SetFile(row.file), SetColumn(row.column % TWO_64)] + MoveTo(h, cur, row)
  }

  function Program(h: Header, cur: Regs, rows: seq<Row>): seq<Op>
    requires Usable(h)
    decreases rows
  {
    if rows == [] then [] else OpsFor(h, cur, rows[0]) + Program(h, RegsOf(rows[0]), rows[1..])
  }

  /** A row the table can hold, in a unit whose header has the needed opcodes. */
  predicate Expressible(h: Header, row: Row) {
    IsKept(h, row) && Fits(row) && h.opcodeBase > 5 &&
    (h.addressSize == 8 || (h.addressSize == 4 && row.address < 0x1_0000_0000))
  }

  /** Where the machine is after `ops`. */
  function Final(h: Header, s: State, ops: seq<Op>): State
    requires WellFormed(h)
    decreases ops
  {
    if ops == [] then s else Final(h, Step(h, s, ops[0]).0, ops[1..])
  }

  // From `s`, the instructions are taken as meant, append `rows` and end in `s'`.
  predicate Runs(h: Header, s: State, ops: seq<Op>, rows: seq<Row>, s': State)
    requires WellFormed(h)
  {
    AllTaken(h, s, ops) && RunOps(h, s, ops) == rows && Final(h, s, ops) == s'
  }

  lemma {:induction false} RunAppend(h: Header, s: State, a: seq<Op>, rows: seq<Row>, s': State, b: seq<Op>, rows': seq<Row>, s'': State)
    requires WellFormed(h) && Runs(h, s, a, rows, s') && Runs(h, s', b, rows', s'')
    ensures Runs(h, s, a + b, rows + rows', s'')
    decreases a
  {
    if a == [] {
      assert a + b == b && rows + rows' == rows';
    } else {
      var (s1, first) := Step(h, s, a[0]);
      var later := RunOps(h, s1, a[1..]);
      RunAppend(h, s1, a[1..], later, s', b, rows', s'');
      assert (a + b)[1..] == a[1..] + b;
      assert first + (later + rows') == (first + later) + rows';
    }
  }

  lemma Arrives(from: U64, to: U64, part: nat)
    requires part <= Distance(from, to)
    ensures ((from + part) % TWO_64 + (Distance(from, to) - part)) % TWO_64 == to
    ensures (from + Distance(from, to)) % TWO_64 == to
  {
  }

  lemma LineArrives(from: I64, to: U32)
    requires 0 <= from < 0x1_0000_0000
    ensures WrapI64(from + (to - from)) == to && WrapI64(from + WrapI64(to - from)) == to
  {
  }

  lemma RunOne(h: Header, s: State, op: Op)
    requires WellFormed(h) && Encodable(h, op) && TakenAsMeant(h, s, op) && s.opIndex < h.maxOps
    ensures Runs(h, s, [op], Step(h, s, op).1, Step(h, s, op).0)
  {
    assert [op][1..] == [];
    assert Step(h, s, op).1 + [] == Step(h, s, op).1;
  }

  lemma RunTwo(h: Header, s: State, op: Op, op': Op)
    requires WellFormed(h) && Encodable(h, op) && TakenAsMeant(h, s, op) && s.opIndex < h.maxOps && Step(h, s, op).1 == []
    requires var s' := Step(h, s, op).0; Encodable(h, op') && TakenAsMeant(h, s', op') && s'.opIndex < h.maxOps
    ensures var (s'', rows) := Step(h, Step(h, s, op).0, op'); Runs(h, s, [op, op'], rows, s'')
  {
    var s' := Step(h, s, op).0;
    RunOne(h, s, op);
    RunOne(h, s', op');
    RunAppend(h, s, [op], [], s', [op'], Step(h, s', op').1, Step(h, s', op').0);
    assert [op] + [op'] == [op, op'];
    assert [] + Step(h, s', op').1 == Step(h, s', op').1;
  }

  /** A special opcode for the rest of the way appends the row. */
  lemma SpecialArrives(h: Header, r: Regs, row: Row, da: nat)
    requires WellFormed(h) && h.maxOps == 1 && Expressible(h, row) && 0 <= r.line < 0x1_0000_0000
    requires r.file == row.file && r.column == row.column && (r.address + da) % TWO_64 == row.address
    requires SpecialFor(h, da, row.line - r.line).Some?
    ensures var op := Special(SpecialFor(h, da, row.line - r.line).value);
            Encodable(h, op) && Step(h, State(r, 0), op) == (State(RegsOf(row), 0), [row])
  {
    var opcode := SpecialFor(h, da, row.line - r.line).value;
    SpecialInverts(h, da, row.line - r.line);
    LineArrives(r.line, row.line);
    AdvancedOne(h, r.(line := row.line), OperationAdvance(h, opcode));
  }

  lemma AdvancedOne(h: Header, r: Regs, n: nat)
    requires WellFormed(h) && h.maxOps == 1
    ensures Advanced(h, State(r, 0), n) == State(r.(address := (r.address + n * h.minInstLength) % TWO_64), 0)
  {
  }

  lemma MoveToRuns(h: Header, cur: Regs, row: Row)
    requires WellFormed(h) && Expressible(h, row) && 0 <= cur.line < 0x1_0000_0000
    requires cur.file == row.file && cur.column == row.column
    ensures Runs(h, State(cur, 0), MoveTo(h, cur, row), [row], State(RegsOf(row), 0))
  {
    var da, dl := Distance(cur.address, row.address), row.line - cur.line;
    if h.maxOps == 1 && -128 <= dl < 128 && SpecialFor(h, da, dl).Some? {
      Arrives(cur.address, row.address, 0);
      SpecialArrives(h, cur, row, da);
      RunOne(h, State(cur, 0), Special(SpecialFor(h, da, dl).value));
    } else if h.maxOps == 1 && -128 <= dl < 128 && h.opcodeBase > 8 && da >= ConstAdvance(h) && SpecialFor(h, da - ConstAdvance(h), dl).Some? {
      ConstThenSpecial(h, cur, row);
    } else {
      SetThenCopy(h, cur, row);
    }
  }

  lemma ConstThenSpecial(h: Header, cur: Regs, row: Row)
    requires WellFormed(h) && h.maxOps == 1 && Expressible(h, row) && 0 <= cur.line < 0x1_0000_0000 && h.opcodeBase > 8
    requires cur.file == row.file && cur.column == row.column
    requires Distance(cur.address, row.address) >= ConstAdvance(h)
    requires SpecialFor(h, Distance(cur.address, row.address) - ConstAdvance(h), row.line - cur.line).Some?
    ensures var rest := Distance(cur.address, row.address) - ConstAdvance(h);
            var ops := [ConstAddPc, Special(SpecialFor(h, rest, row.line - cur.line).value)];
            Runs(h, State(cur, 0), ops, [row], State(RegsOf(row), 0))
  {
    var rest := Distance(cur.address, row.address) - ConstAdvance(h);
    var op := Special(SpecialFor(h, rest, row.line - cur.line).value);
    var s := Step(h, State(cur, 0), ConstAddPc).0;
    Arrives(cur.address, row.address, ConstAdvance(h));
    SpecialArrives(h, s.regs, row, rest);
    RunTwo(h, State(cur, 0), ConstAddPc, op);
  }

  lemma SetThenCopy(h: Header, cur: Regs, row: Row)
    requires WellFormed(h) && Expressible(h, row) && 0 <= cur.line < 0x1_0000_0000
    requires cur.file == row.file && cur.column == row.column
    ensures var ops := [SetAddress(row.address), AdvanceLine(WrapI64(row.line - cur.line)), Copy];
            Runs(h, State(cur, 0), ops, [row], State(RegsOf(row), 0))
  {
    var first, second := SetAddress(row.address), AdvanceLine(WrapI64(row.line - cur.line));
    var s1 := Step(h, State(cur, 0), first).0;
    var s2 := Step(h, s1, second).0;
    LineArrives(cur.line, row.line);
    RunTwo(h, State(cur, 0), first, second);
    RunOne(h, s2, Copy);
    RunAppend(h, State(cur, 0), [first, second], [], s2, [Copy], [row], State(RegsOf(row), 0));
    assert [first, second] + [Copy] == [first, second, Copy];
    assert [] + [row] == [row];
  }

  lemma OpsForRuns(h: Header, cur: Regs, row: Row)
    requires WellFormed(h) && Expressible(h, row) && 0 <= cur.line < 0x1_0000_0000
    ensures Runs(h, State(cur, 0), OpsFor(h, cur, row), [row], State(RegsOf(row), 0))
  {
    var r := cur.(file := row.file, column := row.column);
    var first, move := [SetFile(row.file), SetColumn(row.column % TWO_64)], MoveTo(h, r, row);
    MoveToRuns(h, r, row);
    RunTwo(h, State(cur, 0), SetFile(row.file), SetColumn(row.column % TWO_64));
    RunAppend(h, State(cur, 0), first, [], State(r, 0), move, [row], State(RegsOf(row), 0));
    assert [] + [row] == [row];
    assert OpsFor(h, cur, row) == first + move;
  }

  lemma {:induction false} ProgramRuns(h: Header, cur: Regs, rows: seq<Row>)
    requires WellFormed(h) && 0 <= cur.line < 0x1_0000_0000 && forall i | 0 <= i < |rows| :: Expressible(h, rows[i])
    ensures AllTaken(h, State(cur, 0), Program(h, cur, rows)) && RunOps(h, State(cur, 0), Program(h, cur, rows)) == rows
    decreases rows
  {
    if rows != [] {
      var next := RegsOf(rows[0]);
      OpsForRuns(h, cur, rows[0]);
      ProgramRuns(h, next, rows[1..]);
      var rest := Program(h, next, rows[1..]);
      RunAppend(h, State(cur, 0), OpsFor(h, cur, rows[0]), [rows[0]], State(next, 0), rest, rows[1..], Final(h, State(next, 0), rest));
      assert [rows[0]] + rows[1..] == rows;
    }
  }

  lemma {:induction false} AllKept(h: Header, rows: seq<Row>)
    requires forall i | 0 <= i < |rows| :: IsKept(h, rows[i]) && Fits(rows[i])
    ensures Kept(h, rows) == rows
  {
    if rows != [] { AllKept(h, rows[1..]); }
  }

  /** Every list of rows the table can hold, encoded and parsed, comes back; and the
      encoding means these rows to the state machine. */
  lemma RowsRoundTrip(h: Header, rows: seq<Row>)
    requires WellFormed(h) && forall i | 0 <= i < |rows| :: Expressible(h, rows[i])
    ensures Parse(h, EncodeAll(h, Program(h, INITIAL, rows)), 0, INITIAL) == (rows, true)
    ensures RunOps(h, START, Program(h, INITIAL, rows)) == rows
  {
    var ops := Program(h, INITIAL, rows);
    ProgramRuns(h, INITIAL, rows);
    ParseRefinesMachine(h, EncodeAll(h, ops), 0, START, ops);
    AllKept(h, rows);
  }
}

/** The line-number state machine of section 6.2.5 of DWARF Version 5, on decoded
    instructions: the reference for parse_line_program in src/lineno.c. Registers
    that no row shows (is_stmt and the like) are left out, except op_index, on which
    addresses depend. */
module LineMachine {
  import opened Common
  import opened Leb128

  type U16 = v: int | 0 <= v < 0x1_0000
  type U32 = v: int | 0 <= v < 0x1_0000_0000

  /** The unit's header, and how many entries its file table has. */
  datatype Header = Header(opcodeBase: Byte, lineBase: int, lineRange: Byte, minInstLength: Byte, maxOps: Byte,
                           addressSize: Byte, stdLengths: seq<Byte>, files: nat)

  /** What parse_line_program needs of a header not to divide by zero or read past
      std_lengths. */
  predicate Usable(h: Header) {
    h.lineRange > 0 && -128 <= h.lineBase <= 127 && h.opcodeBase <= 16 && |h.stdLengths| == 16
  }

  /** What the state machine needs: at least one operation per instruction. */
  predicate WellFormed(h: Header) {
    Usable(h) && h.maxOps > 0
  }

  datatype Regs = Regs(address: U64, line: I64, file: U64, column: U64)

  const INITIAL := Regs(0, 1, 1, 0)

  datatype State = State(regs: Regs, opIndex: nat)

  const START := State(INITIAL, 0)

  datatype Row = Row(address: U64, line: int, column: nat, file: U64)

  function RowOf(r: Regs): Row {
    Row(r.address, r.line, r.column, r.file)
  }

  // What the table keeps: rows with a positive line and a file it has, in 32-bit fields.

  predicate IsKept(h: Header, row: Row) {
    row.line > 0 && 0 < row.file < h.files
  }

  function Stored(row: Row): Row {
    row.(line := row.line % 0x1_0000_0000, column := row.column % 0x1_0000_0000)
  }

  function Rows(h: Header, r: Regs): seq<Row> {
    if IsKept(h, RowOf(r)) then [Stored(RowOf(r))] else []
  }

  function Kept(h: Header, rows: seq<Row>): seq<Row> {
    if rows == [] then [] else (if IsKept(h, rows[0]) then [Stored(rows[0])] else []) + Kept(h, rows[1..])
  }

  predicate Fits(row: Row) {
    row.line < 0x1_0000_0000 && row.column < 0x1_0000_0000
  }

  function Visible(h: Header, rows: seq<Row>): seq<Row> {
    if rows == [] then [] else (if IsKept(h, rows[0]) then [rows[0]] else []) + Visible(h, rows[1..])
  }

  /** The rows kept are the machine's own exactly when line and column fit in 32 bits. */
  lemma {:induction false} KeptExact(h: Header, rows: seq<Row>)
    ensures |Kept(h, rows)| == |Visible(h, rows)|
    ensures Kept(h, rows) == Visible(h, rows) <==> forall i | 0 <= i < |Visible(h, rows)| :: Fits(Visible(h, rows)[i])
  {
    if rows != [] {
      KeptExact(h, rows[1..]);
      var kept, visible := Kept(h, rows[1..]), Visible(h, rows[1..]);
      if IsKept(h, rows[0]) {
        assert Kept(h, rows) == [Stored(rows[0])] + kept && Visible(h, rows) == [rows[0]] + visible;
        assert Kept(h, rows)[1..] == kept && Visible(h, rows)[1..] == visible;
        assert Stored(rows[0]) == rows[0] <==> Fits(rows[0]);
        assert forall i | 0 <= i < |visible| :: Visible(h, rows)[i + 1] == visible[i];
      } else {
        assert Kept(h, rows) == kept && Visible(h, rows) == visible;
      }
    }
  }

  lemma {:induction false} KeptJoins(h: Header, a: seq<Row>, b: seq<Row>)
    ensures Kept(h, a + b) == Kept(h, a) + Kept(h, b)
  {
    if a == [] {
      assert a + b == b;
    } else {
      KeptJoins(h, a[1..], b);
      assert (a + b)[1..] == a[1..] + b;
    }
  }

  lemma KeptOne(h: Header, r: Regs)
    ensures Kept(h, [RowOf(r)]) == Rows(h, r) && Kept(h, []) == []
  {
    assert [RowOf(r)][1..] == [];
  }

  datatype Op =
    | Special(opcode: Byte)
    | Copy
    | AdvancePc(advance: U64)
    | AdvanceLine(delta: I64)
    | SetFile(file: U64)
    | SetColumn(column: U64)
    | ConstAddPc
    | FixedAdvancePc(bytes: U16)
    | NoEffect(opcode: Byte, operands: seq<U64>)
    | EndSequence
    | SetAddress(address: U64)
    | Extended(sub: Byte, payload: seq<Byte>)

  /** The operation advance and the line increment of a special opcode. */
  function OperationAdvance(h: Header, opcode: Byte): nat
    requires h.lineRange > 0
  {
    if opcode < h.opcodeBase then 0 else (opcode - h.opcodeBase) / h.lineRange
  }

  function LineIncrement(h: Header, opcode: Byte): int
    requires h.lineRange > 0
  {
    if opcode < h.opcodeBase then h.lineBase else h.lineBase + (opcode - h.opcodeBase) % h.lineRange
  }

  function WrapI64(v: int): I64 {
    ToSigned(v % TWO_64)
  }

  /** The effect of an operation advance, as in section 6.2.5.1. */
  function Advanced(h: Header, s: State, n: nat): State
    requires WellFormed(h)
  {
    State(s.regs.(address := AdvancedAddress(h, s.opIndex, s.regs.address, n)), (s.opIndex + n) % h.maxOps)
  }

  function AdvancedAddress(h: Header, opIndex: nat, address: U64, n: nat): U64
    requires WellFormed(h)
  {
    (address + (opIndex + n) / h.maxOps * h.minInstLength) % TWO_64
  }

  function Step(h: Header, s: State, op: Op): (State, seq<Row>)
    requires WellFormed(h)
  {
    var r := s.regs;
    match op
    case Special(opcode) =>
      var s' := Advanced(h, s.(regs := r.(line := WrapI64(r.line + LineIncrement(h, opcode)))), OperationAdvance(h, opcode));
      (s', [RowOf(s'.regs)])
    case Copy => (s, [RowOf(r)])
    case AdvancePc(n) => (Advanced(h, s, n), [])
    case AdvanceLine(d) => (s.(regs := r.(line := WrapI64(r.line + d))), [])
    case SetFile(f) => (s.(regs := r.(file := f)), [])
    case SetColumn(c) => (s.(regs := r.(column := c)), [])
    case ConstAddPc => (Advanced(h, s, OperationAdvance(h, 255)), [])
    case FixedAdvancePc(n) => (State(r.(address := (r.address + n) % TWO_64), 0), [])
    case NoEffect(_, _) => (s, [])
    case EndSequence => (START, [RowOf(r)])
    case SetAddress(a) => (State(r.(address := a), 0), [])
    case Extended(_, _) => (s, [])
  }

  /** Without an op_index, an operation advance is still taken as meant. */
  predicate AdvanceRight(h: Header, opIndex: nat, n: nat) {
    h.maxOps == 1 || h.minInstLength == 0 || n == 0 || (n == 1 && opIndex == h.maxOps - 1)
  }

  predicate TakenAsMeant(h: Header, s: State, op: Op)
    requires Usable(h)
  {
    match op
    case Special(opcode) => AdvanceRight(h, s.opIndex, OperationAdvance(h, opcode))
    case AdvancePc(n) => AdvanceRight(h, s.opIndex, n)
    case ConstAddPc => AdvanceRight(h, s.opIndex, OperationAdvance(h, 255))
    case _ => true
  }

  /** A standard opcode whose effect is on registers that no row shows, or unknown. */
  predicate Unknown(h: Header, opcode: Byte) {
    (opcode == 6 || opcode == 7 || 10 <= opcode) && opcode < h.opcodeBase
  }

  predicate AllShort(operands: seq<U64>) {
    forall i | 0 <= i < |operands| :: operands[i] < 128
  }

  /** An instruction the header gives an encoding to, and which parse_line_program
      takes as it is meant: with a line increment that fits in eight bits if it is a
      special opcode, and with one-byte operands if it is skipped. */
  predicate Encodable(h: Header, op: Op)
    requires Usable(h)
  {
    match op
    case Special(opcode) => 1 <= opcode && h.opcodeBase <= opcode && LineIncrement(h, opcode) <= 127
    case Copy => h.opcodeBase > 1
    case AdvancePc(_) => h.opcodeBase > 2
    case AdvanceLine(_) => h.opcodeBase > 3
    case SetFile(_) => h.opcodeBase > 4
    case SetColumn(_) => h.opcodeBase > 5
    case ConstAddPc => h.opcodeBase > 8
    case FixedAdvancePc(_) => h.opcodeBase > 9
    case NoEffect(opcode, operands) => Unknown(h, opcode) && |operands| == h.stdLengths[opcode] && AllShort(operands)
    case EndSequence => true
    case SetAddress(a) => h.addressSize == 8 || (h.addressSize == 4 && a < 0x1_0000_0000)
    case Extended(sub, payload) => sub != 1 && sub != 2 && |payload| + 1 < TWO_64
  }

  function LittleEndian(v: nat, n: nat): (r: seq<Byte>)
    ensures |r| == n
  {
    if n == 0 then [] else [v % 0x100] + LittleEndian(v / 0x100, n - 1)
  }

  /** Operands as unsigned LEB128 numbers, which is what section 6.2.4 has the header's
      standard_opcode_lengths count. */
  function OperandBytes(operands: seq<U64>): seq<Byte> {
    if operands == [] then [] else UlebBytes(operands[0]) + OperandBytes(operands[1..])
  }

  /** The encoding of one instruction, as in sections 6.2.5.1 to 6.2.5.3. */
  function Encode(h: Header, op: Op): (r: seq<Byte>)
    requires Usable(h)
    ensures |r| > 0
  {
    match op
    case Special(opcode) => [opcode]
    case Copy => [1]
    case AdvancePc(n) => [2] + UlebBytes(n)
    case AdvanceLine(d) => [3] + SlebBytes(d)
    case SetFile(f) => [4] + UlebBytes(f)
    case SetColumn(c) => [5] + UlebBytes(c)
    case ConstAddPc => [8]
    case FixedAdvancePc(n) => [9] + LittleEndian(n, 2)
    case NoEffect(opcode, operands) => [opcode] + OperandBytes(operands)
    case EndSequence => [0, 1, 1]
    case SetAddress(a) => if h.addressSize == 8 then [0, 9, 2] + LittleEndian(a, 8) else [0, 5, 2] + LittleEndian(a, 4)
    case Extended(sub, payload) => [0] + UlebBytes(|payload| + 1) + [sub] + payload
  }

  /** Every instruction has an encoding and, where it is executed, is taken as meant. */
  predicate AllTaken(h: Header, s: State, ops: seq<Op>)
    requires WellFormed(h)
    decreases ops
  {
    ops == [] ||
    (Encodable(h, ops[0]) && TakenAsMeant(h, s, ops[0]) && s.opIndex < h.maxOps && AllTaken(h, Step(h, s, ops[0]).0, ops[1..]))
  }

  /** One operation per instruction is enough. */
  lemma {:induction false} OneOperationTaken(h: Header, s: State, ops: seq<Op>)
    requires WellFormed(h) && h.maxOps == 1 && s.opIndex == 0
    requires forall i | 0 <= i < |ops| :: Encodable(h, ops[i])
    ensures AllTaken(h, s, ops)
    decreases ops
  {
    if ops != [] { OneOperationTaken(h, Step(h, s, ops[0]).0, ops[1..]); }
  }

  /** The rows the state machine appends. */
  function RunOps(h: Header, s: State, ops: seq<Op>): seq<Row>
    requires WellFormed(h)
    decreases ops
  {
    if ops == [] then []
    else
      var (s', rows) := Step(h, s, ops[0]);
      rows + RunOps(h, s', ops[1..])
  }

  function EncodeAll(h: Header, ops: seq<Op>): seq<Byte>
    requires Usable(h)
  {
    if ops == [] then [] else Encode(h, ops[0]) + EncodeAll(h, ops[1..])
  }
}

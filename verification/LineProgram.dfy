/** parse_line_program of src/lineno.c: the byte cursor, the decoding loop, and
    its refinement of the state machine on decoded instructions. */
module LineProgram {
  import opened Common
  import opened Leb128
  import opened LineMachine

  // The bytes at `pos` on, least significant first; a short read gives 0 and stays.

  function U16At(data: seq<Byte>, pos: nat): (U16, nat) {
    if pos + 2 <= |data| then (data[pos] as int + 0x100 * data[pos + 1] as int, pos + 2) else (0, pos)
  }

  function U32At(data: seq<Byte>, pos: nat): (U64, nat) {
    if pos + 4 <= |data|
    then (data[pos] as int + 0x100 * data[pos + 1] as int + 0x1_0000 * data[pos + 2] as int + 0x100_0000 * data[pos + 3] as int, pos + 4)
    else (0, pos)
  }

  /** What read_u64 returns, after `i` bytes read one at a time gave `value`. */
  function U64From(data: seq<Byte>, pos: nat, i: nat, value: U64): U64
    decreases 8 - i
  {
    if i >= 8 then value
    else U64From(data, After(data, pos), i + 1, (value + ByteAt(data, pos) * Power256(i)) % TWO_64)
  }

  /** The conversion to int8_t of a number from -128 to 382. */
  function CastI8(v: int): int
    requires -128 <= v < 384
  {
    if v < 128 then v else v - 256
  }

  datatype Decoded = Fails | Continues(pos: nat, regs: Regs, rows: seq<Row>)

  /** One round of the loop of parse_line_program, from a position before the end. */
  function Decode(h: Header, data: seq<Byte>, pos: nat, r: Regs): (d: Decoded)
    requires Usable(h) && pos < |data|
    ensures d.Continues? ==> d.pos > pos
  {
    var opcode := data[pos];
    if opcode == 0 then DecodeExtended(h, data, pos + 1, r)
    else if opcode < h.opcodeBase then DecodeStandard(h, data, opcode, pos + 1, r)
    else DecodeSpecial(h, opcode, pos + 1, r)
  }

  function DecodeSpecial(h: Header, opcode: Byte, pos: nat, r: Regs): (d: Decoded)
    requires Usable(h) && opcode >= h.opcodeBase
    ensures d.Continues? && d.pos == pos
  {
    var adjusted := opcode - h.opcodeBase;
    var r' := r.(line := WrapI64(r.line + CastI8(h.lineBase + adjusted % h.lineRange)),
                 address := (r.address + adjusted / h.lineRange * h.minInstLength) % TWO_64);
    Continues(pos, r', Rows(h, r'))
  }

  function DecodeExtended(h: Header, data: seq<Byte>, pos: nat, r: Regs): (d: Decoded)
    requires pos <= |data|
    ensures d.Continues? ==> d.pos >= pos
  {
    UlebMoves(data, pos, 0, 0);
    var (length, start) := Uleb(data, pos, 0, 0);
    var end := start + length;
    if end > |data| then Fails
    else
      var sub := ByteAt(data, start);
      if sub == 1 then Continues(end, INITIAL, Rows(h, r))
      else if sub == 2 && h.addressSize == 8 then
        Continues(end, r.(address := U64From(data, After(data, start), 0, 0)), [])
      else if sub == 2 && h.addressSize == 4 then
        Continues(end, r.(address := U32At(data, After(data, start)).0), [])
      else Continues(end, r, [])
  }

  function DecodeStandard(h: Header, data: seq<Byte>, opcode: Byte, pos: nat, r: Regs): (d: Decoded)
    requires Usable(h) && 1 <= opcode < h.opcodeBase
    ensures d.Continues? && d.pos >= pos
  {
    UlebMoves(data, pos, 0, 0);
    SlebMoves(data, pos, 0, 0);
    match opcode
    case 1 => Continues(pos, r, Rows(h, r))
    case 2 =>
      var (delta, pos') := Uleb(data, pos, 0, 0);
      Continues(pos', r.(address := (r.address + delta * h.minInstLength) % TWO_64), [])
    case 3 =>
      var (delta, pos') := Sleb(data, pos, 0, 0);
      Continues(pos', r.(line := WrapI64(r.line + delta)), [])
    case 4 =>
      var (file, pos') := Uleb(data, pos, 0, 0);
      Continues(pos', r.(file := file), [])
    case 5 =>
      var (column, pos') := Uleb(data, pos, 0, 0);
      Continues(pos', r.(column := column), [])
    case 8 =>
      Continues(pos, r.(address := (r.address + (255 - h.opcodeBase) / h.lineRange * h.minInstLength) % TWO_64), [])
    case 9 =>
      var (delta, pos') := U16At(data, pos);
      Continues(pos', r.(address := (r.address + delta) % TWO_64), [])
    case _ => Continues(pos + h.stdLengths[opcode], r, [])
  }

  lemma {:induction false} UlebMoves(data: seq<Byte>, pos: nat, i: nat, value: U64)
    ensures Uleb(data, pos, i, value).1 >= pos
    ensures pos <= |data| ==> Uleb(data, pos, i, value).1 <= |data|
    decreases 10 - i
  {
    if i < 10 && ByteAt(data, pos) >= 128 { UlebMoves(data, After(data, pos), i + 1, OrShifted(value, ByteAt(data, pos), i)); }
  }

  lemma {:induction false} SlebMoves(data: seq<Byte>, pos: nat, i: nat, value: U64)
    requires i < 10
    ensures Sleb(data, pos, i, value).1 >= pos
    decreases 10 - i
  {
    if ByteAt(data, pos) >= 128 && i != 9 { SlebMoves(data, After(data, pos), i + 1, OrShifted(value, ByteAt(data, pos), i)); }
  }

  /** The rows the loop appends from `pos` on, and whether it ends without an error. */
  function Parse(h: Header, data: seq<Byte>, pos: nat, r: Regs): (seq<Row>, bool)
    requires Usable(h)
    decreases |data| - pos
  {
    if pos >= |data| then ([], true)
    else
      match Decode(h, data, pos, r)
      case Fails => ([], false)
      case Continues(pos', r', rows) =>
        var (more, ok) := Parse(h, data, pos', r');
        (rows + more, ok)
  }

  // Refinement: each encoded instruction is one round of the loop.

  /** What the loop makes of an instruction: it has no op_index. */
  function Taken(h: Header, r: Regs, op: Op): (Regs, seq<Row>)
    requires Usable(h)
  {
    match op
    case Special(opcode) =>
      var r' := r.(address := Flat(h, r.address, OperationAdvance(h, opcode)), line := WrapI64(r.line + LineIncrement(h, opcode)));
      (r', Rows(h, r'))
    case Copy => (r, Rows(h, r))
    case AdvancePc(n) => (r.(address := Flat(h, r.address, n)), [])
    case AdvanceLine(d) => (r.(line := WrapI64(r.line + d)), [])
    case SetFile(f) => (r.(file := f), [])
    case SetColumn(c) => (r.(column := c), [])
    case ConstAddPc => (r.(address := Flat(h, r.address, OperationAdvance(h, 255))), [])
    case FixedAdvancePc(n) => (r.(address := (r.address + n) % TWO_64), [])
    case NoEffect(_, _) => (r, [])
    case EndSequence => (INITIAL, Rows(h, r))
    case SetAddress(a) => (r.(address := a), [])
    case Extended(_, _) => (r, [])
  }

  function Flat(h: Header, address: U64, n: nat): U64 {
    (address + n * h.minInstLength) % TWO_64
  }

  /** For the advances of special opcodes: as far as any address tells, an advance is taken
      as meant exactly under `AdvanceRight`. */
  lemma AdvanceExact(h: Header, opIndex: nat, address: U64, n: nat)
    requires WellFormed(h) && opIndex < h.maxOps && n < 0x100
    ensures Flat(h, address, n) == AdvancedAddress(h, opIndex, address, n) <==> AdvanceRight(h, opIndex, n)
  {
    var q, min := (opIndex + n) / h.maxOps, h.minInstLength;
    Quotients(opIndex, n, h.maxOps);
    Products(n, q, min);
    AddressesDiffer(address, n * min, q * min);
  }

  lemma Quotients(k: nat, n: nat, m: nat)
    requires k < m
    ensures (k + n) / m <= n
    ensures (k + n) / m == n <==> m == 1 || n == 0 || (n == 1 && k == m - 1)
  {
    if m == 1 || n == 0 || (n == 1 && k < m - 1) {
      ModUnique(k + n, m, if m == 1 then n else 0, if m == 1 then 0 else k + n);
    } else if n == 1 {
      ModUnique(m, m, 1, 0);
    } else {
      QuotientBelow(k, n, m, (k + n) / m);
    }
  }

  lemma QuotientBelow(k: nat, n: nat, m: nat, q: nat)
    requires k < m && m >= 2 && n >= 2 && m * q <= k + n
    ensures q < n
  {
    TimesAtLeast(m - 1, 2, n);
    assert m * n == n + (m - 1) * n;
    LessByTimes(m, q, n);
  }

  lemma LessByTimes(m: nat, q: nat, n: nat)
    requires m * q < m * n
    ensures q < n
  {
  }

  lemma TimesAtLeast(m: nat, a: nat, b: nat)
    requires a <= b
    ensures m * a <= m * b
  {
  }

  lemma Products(n: nat, q: nat, min: nat)
    requires q <= n < 0x100 && min < 0x100
    ensures 0 <= n * min - q * min < 0x1_0000
    ensures n * min == q * min <==> min == 0 || n == q
  {
    assert n * min - q * min == (n - q) * min;
    assert (n - q) * min <= 0xff * 0xff;
    assert n > q && min > 0 ==> (n - q) * min > 0;
  }

  lemma AddressesDiffer(a: U64, x: nat, y: nat)
    requires 0 <= x - y < TWO_64
    ensures (a + x) % TWO_64 == (a + y) % TWO_64 <==> x == y
  {
    assert (a + x) % TWO_64 == (a + y) % TWO_64 ==> (x - y) % TWO_64 == 0;
  }

  /** advance_pc by any number: exactly when what it lacks is a multiple of 2^64. */
  lemma AdvancePcExact(h: Header, s: State, n: U64)
    requires WellFormed(h)
    ensures Taken(h, s.regs, AdvancePc(n)).0 == Step(h, s, AdvancePc(n)).0.regs
            <==> (n - (s.opIndex + n) / h.maxOps) * h.minInstLength % TWO_64 == 0
  {
    var q, min := (s.opIndex + n) / h.maxOps, h.minInstLength;
    assert n * min == q * min + (n - q) * min;
    SameRemainder(s.regs.address + q * min, (n - q) * min);
  }

  /** An instruction taken as meant has the machine's effect on the registers rows show. */
  lemma TakenRight(h: Header, s: State, op: Op)
    requires WellFormed(h) && s.opIndex < h.maxOps && TakenAsMeant(h, s, op)
    ensures Taken(h, s.regs, op) == (Step(h, s, op).0.regs, Kept(h, Step(h, s, op).1))
    ensures Step(h, s, op).0.opIndex < h.maxOps
  {
    KeptOne(h, Step(h, s, op).0.regs);
    KeptOne(h, s.regs);
    match op {
      case Special(opcode) => AdvanceRightTaken(h, s.opIndex, s.regs.address, OperationAdvance(h, opcode));
      case ConstAddPc => AdvanceRightTaken(h, s.opIndex, s.regs.address, OperationAdvance(h, 255));
      case AdvancePc(n) => AdvanceRightTaken(h, s.opIndex, s.regs.address, n);
      case _ =>
    }
  }

  lemma AdvanceRightTaken(h: Header, opIndex: nat, address: U64, n: nat)
    requires WellFormed(h) && opIndex < h.maxOps && AdvanceRight(h, opIndex, n)
    ensures Flat(h, address, n) == AdvancedAddress(h, opIndex, address, n)
  {
    Quotients(opIndex, n, h.maxOps);
  }

  /** The input: two operations per instruction, and an advance by one of them. */
  lemma SecondOperationLost(h: Header)
    requires Usable(h) && h.maxOps == 2 && h.minInstLength > 0 && h.opcodeBase > 2
    ensures Encode(h, AdvancePc(1)) == [2, 1]
            && Decode(h, [2, 1], 0, INITIAL) == Continues(2, INITIAL.(address := h.minInstLength), [])
            && Step(h, START, AdvancePc(1)) == (State(INITIAL, 1), [])
  {
    assert UlebBytes(1) == [1];
    HoldsHead([2, 1], 0, 2, UlebBytes(1));
    UlebInverts([2, 1], 1, 1);
  }

  lemma {:induction false} Power256Monotone(m: nat, n: nat)
    requires m <= n
    ensures Power256(m) <= Power256(n)
  {
    if m < n { Power256Monotone(m, n - 1); }
  }

  lemma {:induction false} U64Resumes(data: seq<Byte>, pos: nat, i: nat, value: U64, v: nat)
    requires i <= 8 && Holds(data, pos, LittleEndian(v, 8 - i))
    requires value < Power256(i) && v < Power256(8 - i)
    ensures U64From(data, pos, i, value) == value + v * Power256(i)
    decreases 8 - i
  {
    if i < 8 {
      var low, high, w := v % 0x100, v / 0x100, Power256(i);
      var value' := value + low * w;
      HoldsHead(data, pos, low, LittleEndian(high, 8 - i - 1));
      ByteFits(value, low, w);
      Power256Monotone(i + 1, 8);
      PowerBound(8);
      U64Step(data, pos, i, value, value');
      ByteSplit(low, high, w);
      assert high < Power256(8 - i - 1);
      U64Resumes(data, pos + 1, i + 1, value', high);
    }
  }

  lemma U64Step(data: seq<Byte>, pos: nat, i: nat, value: U64, value': U64)
    requires i < 8 && value' == value + ByteAt(data, pos) * Power256(i)
    ensures U64From(data, pos, i, value) == U64From(data, After(data, pos), i + 1, value')
  {
    assert value' % TWO_64 == value';
  }

  lemma ByteFits(value: nat, low: nat, w: nat)
    requires value < w && low < 0x100
    ensures 0 <= value + low * w < 0x100 * w
  {
    assert low * w <= 0xff * w;
  }

  lemma ByteSplit(low: nat, high: nat, w: nat)
    ensures low * w + high * (0x100 * w) == (low + 0x100 * high) * w
  {
  }

  lemma U32Inverts(data: seq<Byte>, pos: nat, v: nat)
    requires Holds(data, pos, LittleEndian(v, 4)) && v < 0x1_0000_0000
    ensures U32At(data, pos).0 == v
  {
    var v1, v2, v3 := v / 0x100, v / 0x100 / 0x100, v / 0x100 / 0x100 / 0x100;
    HoldsHead(data, pos, v % 0x100, LittleEndian(v1, 3));
    HoldsHead(data, pos + 1, v1 % 0x100, LittleEndian(v2, 2));
    HoldsHead(data, pos + 2, v2 % 0x100, LittleEndian(v3, 1));
    HoldsHead(data, pos + 3, v3 % 0x100, LittleEndian(v3 / 0x100, 0));
    assert v3 < 0x100;
  }

  lemma U16Inverts(data: seq<Byte>, pos: nat, v: U16)
    requires Holds(data, pos, LittleEndian(v, 2))
    ensures U16At(data, pos) == (v, pos + 2)
  {
    HoldsHead(data, pos, v % 0x100, LittleEndian(v / 0x100, 1));
    HoldsHead(data, pos + 1, v / 0x100 % 0x100, LittleEndian(v / 0x100 / 0x100, 0));
    assert v / 0x100 < 0x100;
  }

  /** Every encoded instruction that is taken as meant is decoded by one round of the
      loop, with the effect the state machine gives it. */
  lemma DecodesInstruction(h: Header, data: seq<Byte>, pos: nat, s: State, op: Op)
    requires WellFormed(h) && s.opIndex < h.maxOps && TakenAsMeant(h, s, op)
    requires Encodable(h, op) && Holds(data, pos, Encode(h, op))
    ensures pos < |data|
    ensures Decode(h, data, pos, s.regs) == Continues(pos + |Encode(h, op)|, Step(h, s, op).0.regs, Kept(h, Step(h, s, op).1))
    ensures Step(h, s, op).0.opIndex < h.maxOps
  {
    DecodesTaken(h, data, pos, s.regs, op);
    TakenRight(h, s, op);
  }

  lemma DecodesTaken(h: Header, data: seq<Byte>, pos: nat, r: Regs, op: Op)
    requires Usable(h) && Encodable(h, op) && Holds(data, pos, Encode(h, op))
    ensures pos < |data|
    ensures Decode(h, data, pos, r) == Continues(pos + |Encode(h, op)|, Taken(h, r, op).0, Taken(h, r, op).1)
  {
    match op {
      case EndSequence => DecodesEndSequence(h, data, pos, r);
      case SetAddress(a) => DecodesSetAddress(h, data, pos, r, a);
      case AdvancePc(_) => DecodesUnsigned(h, data, pos, r, op);
      case SetFile(_) => DecodesUnsigned(h, data, pos, r, op);
      case SetColumn(_) => DecodesUnsigned(h, data, pos, r, op);
      case AdvanceLine(d) => DecodesAdvanceLine(h, data, pos, r, d);
      case FixedAdvancePc(n) => DecodesFixedAdvance(h, data, pos, r, n);
      case Extended(sub, payload) => DecodesUnknownExtended(h, data, pos, r, sub, payload);
      case Special(opcode) =>
        HoldsHead(data, pos, opcode, []);
        SpecialDecoded(h, data, pos, r, opcode);
      case _ => DecodesPlain(h, data, pos, r, op);
    }
  }

  lemma DecodesUnsigned(h: Header, data: seq<Byte>, pos: nat, r: Regs, op: Op)
    requires Usable(h) && Encodable(h, op) && Holds(data, pos, Encode(h, op))
    requires op.AdvancePc? || op.SetFile? || op.SetColumn?
    ensures pos < |data|
    ensures Decode(h, data, pos, r) == Continues(pos + |Encode(h, op)|, Taken(h, r, op).0, Taken(h, r, op).1)
  {
    var opcode, v := if op.AdvancePc? then 2 else if op.SetFile? then 4 else 5,
      if op.AdvancePc? then op.advance else if op.SetFile? then op.file else op.column;
    HoldsHead(data, pos, opcode, UlebBytes(v));
    UlebInverts(data, pos + 1, v);
  }

  lemma DecodesAdvanceLine(h: Header, data: seq<Byte>, pos: nat, r: Regs, d: I64)
    requires Usable(h) && h.opcodeBase > 3 && Holds(data, pos, Encode(h, AdvanceLine(d)))
    ensures pos < |data|
    ensures Decode(h, data, pos, r) == Continues(pos + 1 + |SlebBytes(d)|, r.(line := WrapI64(r.line + d)), [])
  {
    HoldsHead(data, pos, 3, SlebBytes(d));
    SlebInverts(data, pos + 1, d);
  }

  lemma DecodesPlain(h: Header, data: seq<Byte>, pos: nat, r: Regs, op: Op)
    requires Usable(h) && Encodable(h, op) && Holds(data, pos, Encode(h, op))
    requires op.Copy? || op.ConstAddPc? || op.NoEffect?
    ensures pos < |data|
    ensures Decode(h, data, pos, r) == Continues(pos + |Encode(h, op)|, Taken(h, r, op).0, Taken(h, r, op).1)
  {
    match op {
      case Copy => HoldsHead(data, pos, 1, []);
      case ConstAddPc => HoldsHead(data, pos, 8, []);
      case NoEffect(opcode, operands) =>
        OperandsShort(operands);
        HoldsHead(data, pos, opcode, OperandBytes(operands));
    }
  }

  lemma {:induction false} OperandsLong(operands: seq<U64>)
    ensures |OperandBytes(operands)| >= |operands|
    ensures |OperandBytes(operands)| == |operands| <==> AllShort(operands)
  {
    if operands != [] {
      OperandsLong(operands[1..]);
      assert |UlebBytes(operands[0])| == 1 <==> operands[0] < 128;
    }
  }

  lemma OperandsShort(operands: seq<U64>)
    requires AllShort(operands)
    ensures |OperandBytes(operands)| == |operands|
  {
    OperandsLong(operands);
  }

  /** A standard opcode the code does not know, with the operands its header declares,
      is consumed by one round exactly when every operand takes one byte. */
  lemma SkipExact(h: Header, data: seq<Byte>, pos: nat, r: Regs, opcode: Byte, operands: seq<U64>)
    requires Usable(h) && Unknown(h, opcode) && |operands| == h.stdLengths[opcode]
    requires Holds(data, pos, Encode(h, NoEffect(opcode, operands)))
    ensures pos < |data| && Decode(h, data, pos, r) == Continues(pos + 1 + |operands|, r, [])
    ensures pos + 1 + |operands| == pos + |Encode(h, NoEffect(opcode, operands))| <==> AllShort(operands)
  {
    HoldsHead(data, pos, opcode, OperandBytes(operands));
    OperandsLong(operands);
  }

  /** One operand of two bytes, then DW_LNS_copy: the second byte of the operand is
      taken for the next instruction, and here it copies a row of its own. */
  lemma SkipLosesStep(h: Header)
    requires Usable(h) && Unknown(h, 12) && h.stdLengths[12] == 1 && h.opcodeBase > 12 && h.files > 1
    ensures var ops := [NoEffect(12, [128]), Copy];
            EncodeAll(h, ops) == [12, 0x80, 0x01, 1]
            && Parse(h, EncodeAll(h, ops), 0, INITIAL).0 == Rows(h, INITIAL) + Rows(h, INITIAL) != Rows(h, INITIAL)
  {
    var row := Row(0, 1, 0, 1);
    assert Rows(h, INITIAL) == [row];
    var data: seq<Byte> := [12, 0x80, 0x01, 1];
    assert UlebBytes(128) == [0x80, 0x01] by { assert UlebBytes(1) == [1]; }
    assert [128][1..] == [];
    assert OperandBytes([128]) == [0x80, 0x01];
    assert [NoEffect(12, [128]), Copy][1..] == [Copy] && [Copy][1..] == [];
    assert EncodeAll(h, [Copy]) == [1];
    assert EncodeAll(h, [NoEffect(12, [128]), Copy]) == data;
    assert Decode(h, data, 0, INITIAL) == Continues(2, INITIAL, []);
    assert Decode(h, data, 2, INITIAL) == Continues(3, INITIAL, [row]);
    assert Decode(h, data, 3, INITIAL) == Continues(4, INITIAL, [row]);
    assert Parse(h, data, 4, INITIAL) == ([], true);
    assert Parse(h, data, 3, INITIAL).0 == [row] + [];
    assert Parse(h, data, 2, INITIAL).0 == [row] + ([row] + []);
  }

  lemma DecodesFixedAdvance(h: Header, data: seq<Byte>, pos: nat, r: Regs, n: U16)
    requires Usable(h) && h.opcodeBase > 9 && Holds(data, pos, Encode(h, FixedAdvancePc(n)))
    ensures pos < |data|
    ensures Decode(h, data, pos, r) == Continues(pos + 3, r.(address := (r.address + n) % TWO_64), [])
  {
    HoldsHead(data, pos, 9, LittleEndian(n, 2));
    U16Inverts(data, pos + 1, n);
  }

  /** A special opcode is decoded as the state machine executes it exactly when its
      line increment fits in eight signed bits and its operation advance is taken as
      meant, which with one operation per instruction it always is. */
  lemma SpecialExact(h: Header, data: seq<Byte>, pos: nat, s: State, opcode: Byte)
    requires WellFormed(h) && s.opIndex < h.maxOps
    requires 1 <= opcode && h.opcodeBase <= opcode && pos < |data| && data[pos] == opcode
    ensures LineIncrement(h, opcode) <= 127 && AdvanceRight(h, s.opIndex, OperationAdvance(h, opcode)) <==>
            Decode(h, data, pos, s.regs)
            == Continues(pos + 1, Step(h, s, Special(opcode)).0.regs, Kept(h, Step(h, s, Special(opcode)).1))
  {
    SpecialDecoded(h, data, pos, s.regs, opcode);
    SpecialRight(h, s, opcode);
  }

  // What the loop makes of a special opcode.
  function SpecialRegs(h: Header, r: Regs, opcode: Byte): Regs
    requires Usable(h) && -128 <= LineIncrement(h, opcode) < 384
  {
    Regs(Flat(h, r.address, OperationAdvance(h, opcode)), WrapI64(r.line + CastI8(LineIncrement(h, opcode))), r.file, r.column)
  }

  lemma SpecialRight(h: Header, s: State, opcode: Byte)
    requires WellFormed(h) && s.opIndex < h.maxOps && h.opcodeBase <= opcode && -128 <= LineIncrement(h, opcode) < 384
    ensures LineIncrement(h, opcode) <= 127 && AdvanceRight(h, s.opIndex, OperationAdvance(h, opcode)) <==>
            SpecialRegs(h, s.regs, opcode) == Step(h, s, Special(opcode)).0.regs
    ensures Kept(h, Step(h, s, Special(opcode)).1) == Rows(h, Step(h, s, Special(opcode)).0.regs)
  {
    AdvanceBound(h, opcode);
    AdvanceExact(h, s.opIndex, s.regs.address, OperationAdvance(h, opcode));
    CastExact(s.regs.line, LineIncrement(h, opcode));
    KeptOne(h, Step(h, s, Special(opcode)).0.regs);
  }

  lemma SpecialDecoded(h: Header, data: seq<Byte>, pos: nat, r: Regs, opcode: Byte)
    requires Usable(h) && 1 <= opcode && h.opcodeBase <= opcode && pos < |data| && data[pos] == opcode
    ensures -128 <= LineIncrement(h, opcode) < 384
    ensures var r' := SpecialRegs(h, r, opcode); Decode(h, data, pos, r) == Continues(pos + 1, r', Rows(h, r'))
  {
  }

  lemma CastExact(line: I64, d: int)
    requires -128 <= d < 384
    ensures WrapI64(line + CastI8(d)) == WrapI64(line + d) <==> d <= 127
  {
    if d > 127 { WrapDiffers(line + d - 256, line + d); }
  }

  lemma AdvanceBound(h: Header, opcode: Byte)
    requires Usable(h)
    ensures OperationAdvance(h, opcode) < 0x100
  {
  }

  lemma WrapDiffers(a: int, b: int)
    requires a < b < a + TWO_64
    ensures WrapI64(a) != WrapI64(b)
  {
  }

  lemma DecodesEndSequence(h: Header, data: seq<Byte>, pos: nat, r: Regs)
    requires Usable(h) && Holds(data, pos, [0, 1, 1])
    ensures pos < |data| && Decode(h, data, pos, r) == Continues(pos + 3, INITIAL, Rows(h, r))
  {
    assert [0, 1, 1] == [0] + ([1] + ([1] + []));
    HoldsHead(data, pos, 0, [1] + ([1] + []));
    HoldsHead(data, pos + 1, 1, [1] + []);
    HoldsHead(data, pos + 2, 1, []);
    assert UlebBytes(1) == [1];
    UlebInverts(data, pos + 1, 1);
  }

  lemma DecodesSetAddress(h: Header, data: seq<Byte>, pos: nat, r: Regs, a: U64)
    requires Usable(h) && Encodable(h, SetAddress(a)) && Holds(data, pos, Encode(h, SetAddress(a)))
    ensures pos < |data|
    ensures Decode(h, data, pos, r) == Continues(pos + |Encode(h, SetAddress(a))|, r.(address := a), [])
  {
    var n := if h.addressSize == 8 then 8 else 4;
    var address := LittleEndian(a, n);
    assert Encode(h, SetAddress(a)) == [0] + ([n + 1] + ([2] + address));
    HoldsHead(data, pos, 0, [n + 1] + ([2] + address));
    HoldsHead(data, pos + 1, n + 1, [2] + address);
    HoldsHead(data, pos + 2, 2, address);
    assert UlebBytes(n + 1) == [n + 1];
    UlebInverts(data, pos + 1, n + 1);
    AddressInverts(data, pos + 3, a, n);
  }

  lemma DecodesUnknownExtended(h: Header, data: seq<Byte>, pos: nat, r: Regs, sub: Byte, payload: seq<Byte>)
    requires Usable(h) && Encodable(h, Extended(sub, payload)) && Holds(data, pos, Encode(h, Extended(sub, payload)))
    ensures pos < |data|
    ensures Decode(h, data, pos, r) == Continues(pos + |Encode(h, Extended(sub, payload))|, r, [])
  {
    var length := UlebBytes(|payload| + 1);
    assert Encode(h, Extended(sub, payload)) == [0] + (length + ([sub] + payload));
    ExtendedRound(h, data, pos, r, sub, payload);
  }

  lemma ExtendedRound(h: Header, data: seq<Byte>, pos: nat, r: Regs, sub: Byte, payload: seq<Byte>)
    requires Usable(h) && sub != 1 && sub != 2 && |payload| + 1 < TWO_64
    requires Holds(data, pos, [0] + (UlebBytes(|payload| + 1) + ([sub] + payload)))
    ensures pos < |data|
    ensures Decode(h, data, pos, r) == Continues(pos + 1 + |UlebBytes(|payload| + 1)| + |payload| + 1, r, [])
  {
    var n: U64 := |payload| + 1;
    var length := UlebBytes(n);
    HoldsHead(data, pos, 0, length + ([sub] + payload));
    HoldsSplit(data, pos + 1, length, [sub] + payload);
    HoldsHead(data, pos + 1 + |length|, sub, payload);
    UlebInverts(data, pos + 1, n);
    ExtendedSkips(h, data, pos + 1, r, n, pos + 1 + |length|);
  }

  lemma ExtendedSkips(h: Header, data: seq<Byte>, pos: nat, r: Regs, length: U64, start: nat)
    requires pos <= |data| && Uleb(data, pos, 0, 0) == (length, start) && start + length <= |data|
    requires ByteAt(data, start) != 1 && ByteAt(data, start) != 2
    ensures DecodeExtended(h, data, pos, r) == Continues(start + length, r, [])
  {
  }

  lemma AddressInverts(data: seq<Byte>, pos: nat, a: U64, n: nat)
    requires Holds(data, pos, LittleEndian(a, n)) && (n == 8 || (n == 4 && a < 0x1_0000_0000))
    ensures n == 8 ==> U64From(data, pos, 0, 0) == a
    ensures n == 4 ==> U32At(data, pos).0 == a
  {
    if n == 8 {
      U64Resumes(data, pos, 0, 0, a);
    } else {
      U32Inverts(data, pos, a);
    }
  }

  /** Parsing an encoded program whose instructions are taken as meant succeeds and
      appends exactly the rows of the state machine that the table keeps. */
  lemma {:induction false} ParseRefinesMachine(h: Header, data: seq<Byte>, pos: nat, s: State, ops: seq<Op>)
    requires WellFormed(h) && AllTaken(h, s, ops)
    requires pos <= |data| && data[pos..] == EncodeAll(h, ops)
    ensures Parse(h, data, pos, s.regs) == (Kept(h, RunOps(h, s, ops)), true)
    decreases ops
  {
    if ops != [] {
      var code := Encode(h, ops[0]);
      var (s', rows) := Step(h, s, ops[0]);
      HoldsFirst(data, pos, code, EncodeAll(h, ops[1..]));
      DecodesInstruction(h, data, pos, s, ops[0]);
      ParseRefinesMachine(h, data, pos + |code|, s', ops[1..]);
      ParseStep(h, data, pos, s.regs, Continues(pos + |code|, s'.regs, Kept(h, rows)));
      KeptStep(h, s, ops);
    }
  }

  lemma KeptStep(h: Header, s: State, ops: seq<Op>)
    requires WellFormed(h) && ops != []
    ensures var (s', rows) := Step(h, s, ops[0]); Kept(h, RunOps(h, s, ops)) == Kept(h, rows) + Kept(h, RunOps(h, s', ops[1..]))
  {
    var (s', rows) := Step(h, s, ops[0]);
    KeptJoins(h, rows, RunOps(h, s', ops[1..]));
  }

  lemma HoldsFirst(data: seq<Byte>, pos: nat, a: seq<Byte>, b: seq<Byte>)
    requires pos <= |data| && data[pos..] == a + b
    ensures Holds(data, pos, a) && data[pos + |a|..] == b
  {
    assert data[pos..pos + |a|] == data[pos..][..|a|];
    assert data[pos + |a|..] == data[pos..][|a|..];
  }

  lemma ParseStep(h: Header, data: seq<Byte>, pos: nat, r: Regs, d: Decoded)
    requires Usable(h) && pos < |data| && Decode(h, data, pos, r) == d && d.Continues?
    ensures d.pos > pos
    ensures var (more, ok) := Parse(h, data, d.pos, d.regs); Parse(h, data, pos, r) == (d.rows + more, ok)
  {
  }
}

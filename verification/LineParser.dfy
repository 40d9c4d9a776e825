/** The readers and parse_line_program of src/lineno.c as they run: a cursor that
    advances, one register struct, rows appended to the table. */
module LineParser {
  import opened Common
  import opened Words
  import opened ReaderSteps
  import opened Leb128
  import opened LineMachine
  import opened LineProgram

  lemma U64Next(data: seq<Byte>, pos: nat, i: nat, value: U64)
    requires i < 8 && value < Power256(i)
    ensures var value' := OrByte(value, ByteAt(data, pos), 8 * i);
            value' < Power256(i + 1) && U64From(data, pos, i, value) == U64From(data, After(data, pos), i + 1, value')
  {
    OrByteIsSum(value, ByteAt(data, pos), i);
    U64Step(data, pos, i, value, OrByte(value, ByteAt(data, pos), 8 * i));
  }

  lemma SlebNext(data: seq<Byte>, pos: nat, i: nat, value: U64)
    requires i < 10 && value < Weight(i)
    ensures var byte := ByteAt(data, pos);
            var value' := OrGroup(value, byte, 7 * i);
            value' < Weight(i + 1)
            && Sleb(data, pos, i, value) ==
               if byte < 128 || i == 9 then (ToSigned(SignExtended(value', byte, i + 1)), After(data, pos))
               else Sleb(data, After(data, pos), i + 1, value')
  {
    GroupStep(value, ByteAt(data, pos), i);
  }

  class Cursor {
    const data: seq<Byte>
    var pos: nat

    constructor (data: seq<Byte>)
      ensures this.data == data && pos == 0
    {
      this.data, pos := data, 0;
    }

    method ReadU8() returns (b: Byte)
      modifies this
      ensures b == ByteAt(data, old(pos)) && pos == After(data, old(pos))
    {
      if pos >= |data| { return 0; }
      b := data[pos];
      pos := pos + 1;
    }

    method ReadU16() returns (v: U16)
      modifies this
      ensures (v, pos) == U16At(data, old(pos))
    {
      if pos + 2 > |data| { return 0; }
      TwoBytes(data[pos], data[pos + 1]);
      v := OrByte(data[pos], data[pos + 1], 8);
      pos := pos + 2;
    }

    method ReadU32() returns (v: U64)
      modifies this
      ensures (v, pos) == U32At(data, old(pos))
    {
      if pos + 4 > |data| { return 0; }
      FourBytes(data[pos], data[pos + 1], data[pos + 2], data[pos + 3]);
      v := OrByte(OrByte(OrByte(data[pos], data[pos + 1], 8), data[pos + 2], 16), data[pos + 3], 24);
      pos := pos + 4;
    }

    method ReadU64() returns (v: U64)
      modifies this
      ensures v == U64From(data, old(pos), 0, 0) && pos >= old(pos)
    {
      v := 0;
      for i := 0 to 8
        invariant pos >= old(pos) && v < Power256(i)
        invariant U64From(data, old(pos), 0, 0) == U64From(data, pos, i, v)
      {
        U64Next(data, pos, i, v);
        var byte := ReadU8();
        v := OrByte(v, byte, 8 * i);
      }
    }

    method ReadUleb() returns (v: U64)
      modifies this
      ensures (v, pos) == Uleb(data, old(pos), 0, 0)
    {
      v := 0;
      var shift := 0;
      for i := 0 to 10
        invariant shift == 7 * i && v < Weight(i)
        invariant Uleb(data, old(pos), 0, 0) == Uleb(data, pos, i, v)
      {
        var byte := ReadU8();
        GroupStep(v, byte, i);
        v := OrGroup(v, byte, shift);
        if byte < 128 { return; }
        shift := shift + 7;
      }
    }

    method ReadSleb() returns (v: I64)
      modifies this
      ensures (v, pos) == Sleb(data, old(pos), 0, 0)
    {
      var value: U64, shift, i := 0, 0, 0;
      var byte: Byte := 128;
      while i < 10 && byte >= 128
        invariant 0 <= i <= 10 && shift == 7 * i && value < Weight(i) && (i == 0 ==> byte == 128)
        invariant if i < 10 && byte >= 128 then Sleb(data, old(pos), 0, 0) == Sleb(data, pos, i, value)
                  else Sleb(data, old(pos), 0, 0) == (ToSigned(SignExtended(value, byte, i)), pos)
      {
        SlebNext(data, pos, i, value);
        byte := ReadU8();
        value := OrGroup(value, byte, shift);
        shift, i := shift + 7, i + 1;
      }
      OrSignIsSum(value, byte, i);
      v := ToSigned(OrSign(value, byte, shift));
    }
  }

  class LineTable {
    var entries: seq<Row>

    constructor ()
      ensures entries == []
    {
      entries := [];
    }

    // emit_row and entries_push
    method EmitRow(h: Header, r: Regs)
      modifies this
      ensures entries == old(entries) + Rows(h, r)
    {
      if r.line <= 0 { return; }
      if r.file >= h.files || r.file == 0 { return; }
      entries := entries + [Row(r.address, r.line % 0x1_0000_0000, r.column % 0x1_0000_0000, r.file)];
    }
  }

  /** At `pos` the loop has appended `rows`; what is still to come is what the rest
      of the bytes decodes to. */
  ghost predicate Ahead(h: Header, data: seq<Byte>, start: nat, pos: nat, r: Regs, rows: seq<Row>)
    requires Usable(h)
  {
    Parse(h, data, start, INITIAL) == (rows + Parse(h, data, pos, r).0, Parse(h, data, pos, r).1)
  }

  lemma AheadOfRound(h: Header, data: seq<Byte>, start: nat, pos: nat, r: Regs, rows: seq<Row>)
    requires Usable(h) && pos < |data| && Ahead(h, data, start, pos, r, rows)
    ensures match Decode(h, data, pos, r)
            case Fails => Parse(h, data, start, INITIAL) == (rows, false)
            case Continues(pos', r', more) => Ahead(h, data, start, pos', r', rows + more)
  {
    match Decode(h, data, pos, r) {
      case Fails => assert rows + [] == rows;
      case Continues(pos', r', more) =>
        var later := Parse(h, data, pos', r').0;
        assert (rows + more) + later == rows + (more + later);
    }
  }

  lemma AheadAtEnds(h: Header, data: seq<Byte>, start: nat, pos: nat, r: Regs, rows: seq<Row>)
    requires Usable(h)
    ensures Ahead(h, data, start, start, INITIAL, [])
    ensures pos >= |data| && Ahead(h, data, start, pos, r, rows) ==> Parse(h, data, start, INITIAL) == (rows, true)
  {
    assert [] + Parse(h, data, start, INITIAL).0 == Parse(h, data, start, INITIAL).0;
    assert rows + [] == rows;
  }

  /** parse_line_program appends exactly the rows the bytes decode to, up to an
      extended instruction that overruns the unit, if there is one. */
  method ParseLineProgram(ln: LineTable, unit: Cursor, h: Header) returns (ok: bool)
    requires Usable(h)
    modifies ln, unit
    ensures ln.entries == old(ln.entries) + Parse(h, unit.data, old(unit.pos), INITIAL).0
    ensures ok == Parse(h, unit.data, old(unit.pos), INITIAL).1
  {
    var state := INITIAL;
    ghost var start, before := unit.pos, ln.entries;
    ghost var rows: seq<Row> := [];
    AheadAtEnds(h, unit.data, start, start, INITIAL, []);
    while unit.pos < |unit.data|
      invariant ln.entries == before + rows
      invariant Ahead(h, unit.data, start, unit.pos, state, rows)
      decreases |unit.data| - unit.pos
    {
      ok, state, rows := Round(ln, unit, h, state, start, before, rows);
      if !ok { return; }
    }
    AheadAtEnds(h, unit.data, start, unit.pos, state, rows);
    ok := true;
  }

  // A round of the loop, seen from all the rows appended.
  method Round(ln: LineTable, unit: Cursor, h: Header, state: Regs, ghost start: nat, ghost before: seq<Row>, ghost rows: seq<Row>)
    returns (ok: bool, next: Regs, ghost rows': seq<Row>)
    requires Usable(h) && unit.pos < |unit.data| && Ahead(h, unit.data, start, unit.pos, state, rows)
    requires ln.entries == before + rows
    modifies ln, unit
    ensures ln.entries == before + rows'
    ensures ok ==> unit.pos > old(unit.pos) && Ahead(h, unit.data, start, unit.pos, next, rows')
    ensures !ok ==> Parse(h, unit.data, start, INITIAL) == (rows', false)
  {
    AheadOfRound(h, unit.data, start, unit.pos, state, rows);
    ghost var d := Decode(h, unit.data, unit.pos, state);
    ok, next := ParseOne(ln, unit, h, state);
    rows' := if ok then rows + d.rows else rows;
    assert ok ==> (before + rows) + d.rows == before + rows';
  }

  // One round of the loop.
  method ParseOne(ln: LineTable, unit: Cursor, h: Header, state: Regs) returns (ok: bool, next: Regs)
    requires Usable(h) && unit.pos < |unit.data|
    modifies ln, unit
    ensures var d := Decode(h, unit.data, old(unit.pos), state);
            if ok then d.Continues? && d.pos == unit.pos && d.regs == next && ln.entries == old(ln.entries) + d.rows
            else d == Fails && ln.entries == old(ln.entries)
  {
    next := state;
    var opcode := unit.ReadU8();
    if opcode == 0 {
      ok, next := ParseExtended(ln, unit, h, state);
    } else if opcode < h.opcodeBase {
      next := ParseStandard(ln, unit, h, opcode, state);
      ok := true;
    } else {
      next := ParseSpecial(ln, h, opcode, state);
      ok := true;
    }
  }

  method ParseSpecial(ln: LineTable, h: Header, opcode: Byte, state: Regs) returns (next: Regs)
    requires Usable(h) && opcode >= h.opcodeBase
    modifies ln
    ensures forall pos: nat :: DecodeSpecial(h, opcode, pos, state) == Continues(pos, next, Rows(h, next))
    ensures ln.entries == old(ln.entries) + Rows(h, next)
  {
    var adjusted := opcode - h.opcodeBase;
    next := state.(line := WrapI64(state.line + CastI8(h.lineBase + adjusted % h.lineRange)),
                   address := (state.address + adjusted / h.lineRange * h.minInstLength) % TWO_64);
    ln.EmitRow(h, next);
  }

  method ParseExtended(ln: LineTable, unit: Cursor, h: Header, state: Regs) returns (ok: bool, next: Regs)
    requires unit.pos <= |unit.data|
    modifies ln, unit
    ensures var d := DecodeExtended(h, unit.data, old(unit.pos), state);
            if ok then d.Continues? && d.pos == unit.pos && d.regs == next && ln.entries == old(ln.entries) + d.rows
            else d == Fails && ln.entries == old(ln.entries)
  {
    next := state;
    var length := unit.ReadUleb();
    var end := unit.pos + length;
    if end > |unit.data| { return false, next; }
    var sub := unit.ReadU8();
    if sub == 1 {
      ln.EmitRow(h, state);
      next := INITIAL;
    } else if sub == 2 {
      if h.addressSize == 8 {
        var address := unit.ReadU64();
        next := next.(address := address);
      } else if h.addressSize == 4 {
        var address := unit.ReadU32();
        next := next.(address := address);
      }
    }
    unit.pos := end;
    ok := true;
  }

  method ParseStandard(ln: LineTable, unit: Cursor, h: Header, opcode: Byte, state: Regs) returns (next: Regs)
    requires Usable(h) && 1 <= opcode < h.opcodeBase
    modifies ln, unit
    ensures var d := DecodeStandard(h, unit.data, opcode, old(unit.pos), state);
            d.pos == unit.pos && d.regs == next && ln.entries == old(ln.entries) + d.rows
  {
    next := state;
    match opcode {
      case 1 => ln.EmitRow(h, next);
      case 2 =>
        var delta := unit.ReadUleb();
        next := next.(address := (next.address + delta * h.minInstLength) % TWO_64);
      case 3 =>
        var delta := unit.ReadSleb();
        next := next.(line := WrapI64(next.line + delta));
      case 4 =>
        var file := unit.ReadUleb();
        next := next.(file := file);
      case 5 =>
        var column := unit.ReadUleb();
        next := next.(column := column);
      case 8 => next := next.(address := (next.address + (255 - h.opcodeBase) / h.lineRange * h.minInstLength) % TWO_64);
      case 9 =>
        var delta := unit.ReadU16();
        next := next.(address := (next.address + delta) % TWO_64);
      case _ => unit.pos := unit.pos + h.stdLengths[opcode];
    }
  }
}

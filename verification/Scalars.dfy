/** Scalars in debuggee memory: read_scalar_value, write_scalar_value, mask_to_size
    and sign_extend_value of src/debugger.c. An access to memory fails as a whole
    when one of its bytes is not mapped. */
module Scalars {
  import opened Common
  import opened Words
  import opened ReaderSteps
  import opened Leb128

  type Bytes = map<Addr, Byte>

  /** The width a size stands for: 0 and anything above 8 act as 8. */
  function Width(size: nat): (n: nat)
    ensures 1 <= n <= 8
  {
    if size == 0 || size > 8 then 8 else size
  }

  predicate InMemory(mem: Bytes, a: int) {
    0 <= a < TWO_64 && a in mem
  }

  /** The n bytes at `a`, least significant first. */
  function Load(mem: Bytes, a: int, n: nat): (r: Option<nat>)
    ensures r.Some? <==> forall b | a <= b < a + n :: InMemory(mem, b)
    ensures r.Some? ==> r.value < Power256(n)
    decreases n
  {
    if n == 0 then Some(0)
    else
      match Load(mem, a + 1, n - 1)
      case Some(high) =>
        assert InMemory(mem, a) ==> forall b | a <= b < a + n :: b == a || InMemory(mem, b);
        if InMemory(mem, a) then Some(mem[a] + 0x100 * high) else None
      case None => None
  }

  /** `mem` with the low n bytes of `v` at `a`. */
  function Put(mem: Bytes, a: int, n: nat, v: nat): (r: Bytes)
    requires 0 <= a && a + n <= TWO_64
    decreases n
  {
    if n == 0 then mem else Put(mem, a + 1, n - 1, v / 0x100)[a := v % 0x100]
  }

  function ReadScalar(mem: Bytes, addr: Addr, size: nat): (r: Option<U64>)
    ensures r.Some? <==> Load(mem, addr, Width(size)).Some?
    ensures r.Some? ==> r.value == Load(mem, addr, Width(size)).value
  {
    match Load(mem, addr, Width(size))
    case None => None
    case Some(v) =>
      PowerBound(Width(size));
      Some(v)
  }

  function WriteScalar(mem: Bytes, addr: Addr, size: nat, value: U64): Option<Bytes> {
    if Load(mem, addr, Width(size)).Some? then
      assert InMemory(mem, addr + Width(size) - 1);
      Some(Put(mem, addr, Width(size), value))
    else None
  }

  // (1 << bits) - 1, for a width of fewer than eight bytes
  function Mask(size: nat): U64
    requires 1 <= size < 8
  {
    MaskIs(size);
    ShiftLeft(1, 8 * size) - 1
  }

  lemma MaskIs(size: nat)
    requires 1 <= size < 8
    ensures ShiftLeft(1, 8 * size) == Power256(size) == Power2(8 * size)
    ensures ShiftLeft(1, 8 * size - 1) == Power2(8 * size - 1) && 2 * Power2(8 * size - 1) == Power256(size)
  {
    PowerBound(size);
    Power256IsPower(size);
    OneShifted(8 * size);
  }

  lemma OneShifted(k: nat)
    requires k > 0 && Power2(k) < TWO_64
    ensures ShiftLeft(1, k) == Power2(k) == 2 * Power2(k - 1) && ShiftLeft(1, k - 1) == Power2(k - 1)
  {
    ShiftIsProduct(1, k);
    ShiftIsProduct(1, k - 1);
  }

  function MaskToSize(value: U64, size: nat): U64 {
    if size == 0 || size >= 8 then value else Bitwise(AND, value, Mask(size))
  }

  function SignExtend(value: U64, size: nat): I64 {
    if size == 0 || size >= 8 then ToSigned(value)
    else
      var sign := ShiftLeft(1, 8 * size - 1);
      var low := Bitwise(AND, value, Mask(size));
      ToSigned(if Bitwise(AND, low, sign) != 0 then Bitwise(OR, low, Complement(Mask(size))) else low)
  }

  /** Masking leaves the value modulo 2 to the power of the width in bits. */
  lemma MaskExact(value: U64, size: nat)
    ensures MaskToSize(value, size) == value % Power256(Width(size))
  {
    if 1 <= size < 8 { NarrowMask(value, size, Power256(size)); } else { PowerBound(8); }
  }

  lemma NarrowMask(value: U64, size: nat, p: nat)
    requires 1 <= size < 8 && p == Power256(size)
    ensures MaskToSize(value, size) == value % p
  {
    PowerBound(size);
    MaskIs(size);
    Masked(value, p, 8 * size);
  }

  lemma Masked(value: U64, p: nat, k: nat)
    requires k <= 64 && p == Power2(k) && p <= TWO_64
    ensures Bitwise(AND, value, p - 1) == value % p
  {
    var q, r := value / p, value % p;
    Divided(value, p);
    MaskDigits(value, q, r, p, k);
  }

  lemma Divided(v: nat, p: nat)
    requires p > 0
    ensures v == v / p * p + v % p && v / p >= 0
  {
    assert v == p * (v / p) + v % p;
  }

  lemma MaskDigits(value: U64, q: nat, r: nat, p: nat, k: nat)
    requires k <= 64 && p == Power2(k) && p <= TWO_64 && r < p && value == q * p + r
    ensures Bitwise(AND, value, p - 1) == r
  {
    AndMask(value, q, r, k, 64);
  }

  /** Testing the sign bit and or-ing the complement of the mask subtracts 2^k from
      the upper half of the numbers below 2^k. */
  lemma SignedBits(low: U64, k: nat)
    requires 0 < k < 64 && low < Power2(k) <= TWO_64 / 2
    ensures ToSigned(if Bitwise(AND, low, Power2(k - 1)) != 0 then Bitwise(OR, low, Complement(Power2(k) - 1)) else low)
            == if low >= Power2(k) / 2 then low - Power2(k) else low
  {
    AndBit(low, 0, low, k - 1, 64);
    OrHighOnes(low, k);
  }

  // Set, then print.

  lemma {:induction false} PutElsewhere(mem: Bytes, a: int, n: nat, v: nat)
    requires 0 <= a && a + n <= TWO_64
    ensures forall b: Addr :: b in Put(mem, a, n, v) <==> b in mem || a <= b < a + n
    ensures forall b | b in mem && !(a <= b < a + n) :: Put(mem, a, n, v)[b] == mem[b]
    decreases n
  {
    if n > 0 { PutElsewhere(mem, a + 1, n - 1, v / 0x100); }
  }

  lemma {:induction false} LoadDependsOnBytes(mem: Bytes, mem': Bytes, a: int, n: nat)
    requires forall b: Addr | a <= b < a + n :: b in mem && b in mem' && mem[b] == mem'[b]
    requires 0 <= a && a + n <= TWO_64
    ensures Load(mem, a, n) == Load(mem', a, n)
    decreases n
  {
    if n > 0 { LoadDependsOnBytes(mem, mem', a + 1, n - 1); }
  }

  lemma {:induction false} LoadAfterPut(mem: Bytes, a: int, n: nat, v: nat)
    requires 0 <= a && a + n <= TWO_64
    ensures Load(Put(mem, a, n, v), a, n) == Some(v % Power256(n))
    decreases n
  {
    if n > 0 {
      var inner := Put(mem, a + 1, n - 1, v / 0x100);
      LoadAfterPut(mem, a + 1, n - 1, v / 0x100);
      PutElsewhere(mem, a + 1, n - 1, v / 0x100);
      LoadDependsOnBytes(inner, inner[a := v % 0x100], a + 1, n - 1);
      LoadStep(inner[a := v % 0x100], a, n, v / 0x100 % Power256(n - 1));
      SplitByte(v, Power256(n - 1));
    }
  }

  lemma LoadStep(mem: Bytes, a: Addr, n: nat, high: nat)
    requires n > 0 && a in mem && Load(mem, a + 1, n - 1) == Some(high)
    ensures Load(mem, a, n) == Some(mem[a] + 0x100 * high)
  {
  }

  lemma SplitByte(v: nat, p: nat)
    requires p > 0
    ensures v % (0x100 * p) == v % 0x100 + 0x100 * (v / 0x100 % p)
  {
    var q := v / 0x100;
    var a, b := q / p, q % p;
    assert q == p * a + b && v == 0x100 * q + v % 0x100;
    assert 0x100 * (p * a) == (0x100 * p) * a;
    ModUnique(v, 0x100 * p, a, v % 0x100 + 0x100 * b);
  }

  /** Writing a scalar and reading it back gives the value cut to its width, and no
      other byte changes. */
  lemma SetThenPrint(mem: Bytes, addr: Addr, size: nat, value: U64)
    requires WriteScalar(mem, addr, size, value).Some?
    ensures var mem' := WriteScalar(mem, addr, size, value).value;
            ReadScalar(mem', addr, size) == Some(value % Power256(Width(size)))
            && mem'.Keys == mem.Keys
            && forall b | b in mem && !(addr <= b < addr + Width(size)) :: mem'[b] == mem[b]
  {
    var n := Width(size);
    assert InMemory(mem, addr + n - 1);
    LoadAfterPut(mem, addr, n, value);
    PutElsewhere(mem, addr, n, value);
    SameKeys(mem, Put(mem, addr, n, value), addr, n);
    PowerBound(n);
  }

  lemma SameKeys(mem: Bytes, mem': Bytes, a: Addr, n: nat)
    requires forall b: Addr :: b in mem' <==> b in mem || a <= b < a + n
    requires Load(mem, a, n).Some?
    ensures mem'.Keys == mem.Keys
  {
    forall b: Addr | a <= b < a + n ensures b in mem { assert InMemory(mem, b); }
  }

  /** `r` is the number of `8 * n` signed bits congruent to `value`. */
  predicate IsSignedValue(r: int, value: U64, n: nat)
    requires 1 <= n <= 8
  {
    -(Power256(n) / 2) <= r < Power256(n) / 2 && (r - value) % Power256(n) == 0
  }

  /** Sign extension gives the one signed value of the width congruent to its operand. */
  lemma SignExtendExact(value: U64, size: nat, r: int)
    ensures IsSignedValue(r, value, Width(size)) <==> r == SignExtend(value, size)
  {
    var p := Power256(Width(size));
    SignExtendIs(value, size);
    SignedUnique(value, p, if value % p >= p / 2 then value % p - p else value % p, r);
  }

  lemma SignExtendIs(value: U64, size: nat)
    ensures var p := Power256(Width(size));
            p % 2 == 0 && SignExtend(value, size) == if value % p >= p / 2 then value % p - p else value % p
  {
    if 1 <= size < 8 { NarrowSign(value, size, Power256(size)); } else { PowerBound(8); }
  }

  lemma NarrowSign(value: U64, size: nat, p: nat)
    requires 1 <= size < 8 && p == Power256(size)
    ensures p % 2 == 0 && SignExtend(value, size) == if value % p >= p / 2 then value % p - p else value % p
  {
    PowerBound(size);
    MaskIs(size);
    Masked(value, p, 8 * size);
    var low := value % p;
    SignedBits(low, 8 * size);
  }

  lemma SignedUnique(value: nat, p: int, s: int, r: int)
    requires p > 0 && p % 2 == 0
    requires s == if value % p >= p / 2 then value % p - p else value % p
    ensures -(p / 2) <= r < p / 2 && (r - value) % p == 0 <==> r == s
  {
    var q := value / p;
    assert value == p * q + value % p;
    if r == s {
      var k := if value % p >= p / 2 then q + 1 else q;
      assert r - value == p * (-k);
      MultipleIsZero(-k, p);
    }
    if -(p / 2) <= r < p / 2 && (r - value) % p == 0 {
      var k := (r - value) / p;
      assert r - value == p * k;
      assert r - s == p * (k + if value % p >= p / 2 then q + 1 else q);
      SmallMultiple(r - s, p, k + if value % p >= p / 2 then q + 1 else q);
    }
  }

  lemma MultipleIsZero(k: int, p: int)
    requires p > 0
    ensures (p * k) % p == 0
  {
    var d, m := (p * k) / p, (p * k) % p;
    assert p * k == p * d + m;
    assert m == p * (k - d);
    SmallMultiple(m, p, k - d);
  }

  lemma SmallMultiple(x: int, p: int, k: int)
    requires p > 0 && x == p * k && -p < x < p
    ensures x == 0
  {
    assert k > 0 ==> p * k >= p;
    assert k < 0 ==> p * k <= -p;
  }

  // The memory of the debuggee, written in place.

  class Memory {
    var bytes: Bytes

    constructor (bytes: Bytes)
      ensures this.bytes == bytes
    {
      this.bytes := bytes;
    }

    // write_scalar_value
    method Write(addr: Addr, size: nat, value: U64) returns (ok: bool)
      modifies this
      ensures ok <==> ReadScalar(old(bytes), addr, size).Some?
      ensures ok ==> ReadScalar(bytes, addr, size) == Some(value % Power256(Width(size)))
      ensures bytes.Keys == old(bytes).Keys
      ensures forall b | b in old(bytes) && !(ok && addr <= b < addr + Width(size)) :: bytes[b] == old(bytes)[b]
    {
      var written := WriteScalar(bytes, addr, size, value);
      if written.None? { return false; }
      SetThenPrint(bytes, addr, size, value);
      bytes := written.value;
      ok := true;
    }
  }
}

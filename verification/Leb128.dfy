/** The byte cursor of src/lineno.c and its readers, with LEB128 as in section
    7.6 of DWARF Version 5. A cursor at its end reads zeros and stays there. */
module Leb128 {
  import opened Common

  /** 2 to the power of 7 * i: the weight of the i-th group of seven bits. */
  function Weight(i: nat): (r: nat)
    ensures r > 0
  {
    if i == 0 then 1 else 128 * Weight(i - 1)
  }

  function ToSigned(v: U64): I64 {
    if v < 0x8000_0000_0000_0000 then v else v - TWO_64
  }

  function ByteAt(data: seq<Byte>, pos: nat): Byte {
    if pos < |data| then data[pos] else 0
  }

  function After(data: seq<Byte>, pos: nat): nat {
    if pos < |data| then pos + 1 else pos
  }

  /** A value of i groups of seven bits with one more group above them, in 64 bits. */
  function WithGroup(value: U64, g: nat, i: nat): U64 {
    (value + g * Weight(i)) % TWO_64
  }

  function OrShifted(value: U64, byte: Byte, i: nat): U64 {
    WithGroup(value, byte % 128, i)
  }

  /** What read_uleb128 returns and where it stops, after `i` bytes that gave `value`. */
  function Uleb(data: seq<Byte>, pos: nat, i: nat, value: U64): (U64, nat)
    decreases 10 - i
  {
    if i >= 10 then (value, pos)
    else
      var byte := ByteAt(data, pos);
      var value' := OrShifted(value, byte, i);
      if byte < 128 then (value', After(data, pos)) else Uleb(data, After(data, pos), i + 1, value')
  }

  /** A value of n groups with ones above them when the byte has its sign bit, if there
      is room above them. */
  function SignExtended(value: U64, byte: Byte, n: nat): U64 {
    if byte / 64 % 2 == 1 && 7 * n < 64 then (value + TWO_64 - Weight(n)) % TWO_64 else value
  }

  /** What read_sleb128 returns and where it stops, likewise. */
  function Sleb(data: seq<Byte>, pos: nat, i: nat, value: U64): (I64, nat)
    requires i < 10
    decreases 10 - i
  {
    var byte := ByteAt(data, pos);
    var value' := OrShifted(value, byte, i);
    if byte < 128 || i == 9 then (ToSigned(SignExtended(value', byte, i + 1)), After(data, pos))
    else Sleb(data, After(data, pos), i + 1, value')
  }

  /** The canonical encodings. */
  function UlebBytes(v: nat): (r: seq<Byte>)
    ensures |r| > 0
  {
    if v < 128 then [v] else [v % 128 + 128] + UlebBytes(v / 128)
  }

  function SlebBytes(v: int): (r: seq<Byte>)
    ensures |r| > 0
    decreases if v < 0 then -v else v
  {
    if -64 <= v < 64 then [v % 128] else [v % 128 + 128] + SlebBytes(v / 128)
  }

  ghost predicate Holds(data: seq<Byte>, pos: nat, bytes: seq<Byte>) {
    pos + |bytes| <= |data| && data[pos..pos + |bytes|] == bytes
  }

  lemma HoldsSplit(data: seq<Byte>, pos: nat, a: seq<Byte>, b: seq<Byte>)
    requires Holds(data, pos, a + b)
    ensures Holds(data, pos, a) && Holds(data, pos + |a|, b)
  {
    var s := data[pos..pos + |a + b|];
    assert data[pos..pos + |a|] == s[..|a|] == a;
    assert data[pos + |a|..pos + |a| + |b|] == s[|a|..] == b;
  }

  lemma HoldsHead(data: seq<Byte>, pos: nat, head: Byte, tail: seq<Byte>)
    requires Holds(data, pos, [head] + tail)
    ensures ByteAt(data, pos) == head && After(data, pos) == pos + 1 && Holds(data, pos + 1, tail)
  {
    HoldsSplit(data, pos, [head], tail);
    assert data[pos..pos + 1][0] == head;
  }

  lemma Weights()
    ensures Weight(9) == 0x8000_0000_0000_0000 && Weight(10) == 128 * Weight(9)
  {
    assert Weight(3) == 128 * Weight(2) && Weight(2) == 128 * Weight(1) && Weight(1) == 128;
    assert Weight(6) == 128 * Weight(5) && Weight(5) == 128 * Weight(4) && Weight(4) == 128 * Weight(3);
    assert Weight(9) == 128 * Weight(8) && Weight(8) == 128 * Weight(7) && Weight(7) == 128 * Weight(6);
  }

  /** Splitting off the low seven bits. */
  lemma SplitOff(value: nat, v: nat, w: nat)
    requires value < w && v >= 128
    ensures value + v % 128 * w < 128 * w <= v / 128 * (128 * w)
    ensures (value + v % 128 * w) + v / 128 * (128 * w) == value + v * w
  {
    SignedSplitOff(value, v, w);
    AtLeastOnce(v / 128, 128 * w);
  }

  lemma AtLeastOnce(q: nat, m: nat)
    requires q >= 1
    ensures m <= q * m
  {
  }

  /** Ten groups of seven bits are enough. */
  lemma NotLast(i: nat)
    requires i < 10 && 128 * Weight(i) < TWO_64
    ensures i < 9
  {
    if i == 9 { Weights(); }
  }

  /** read_uleb128 inverts the canonical encoding of every 64-bit value, from any
      position and whatever follows, and stops right after it. */
  lemma UlebInverts(data: seq<Byte>, pos: nat, v: U64)
    requires Holds(data, pos, UlebBytes(v))
    ensures Uleb(data, pos, 0, 0) == (v, pos + |UlebBytes(v)|)
  {
    UlebResumes(data, pos, 0, 0, v);
  }

  /** A group that fits adds its weight. */
  lemma OrAdds(value: U64, byte: Byte, i: nat, low: nat)
    requires low == byte % 128 && value + low * Weight(i) < TWO_64
    ensures OrShifted(value, byte, i) == value + low * Weight(i)
  {
  }

  lemma {:induction false} UlebResumes(data: seq<Byte>, pos: nat, i: nat, value: U64, v: nat)
    requires Holds(data, pos, UlebBytes(v)) && i < 10
    requires value < Weight(i) && value + v * Weight(i) < TWO_64
    ensures Uleb(data, pos, i, value) == (value + v * Weight(i), pos + |UlebBytes(v)|)
    decreases v
  {
    if v < 128 {
      assert UlebBytes(v) == [v] + [];
      HoldsHead(data, pos, v, []);
      OrAdds(value, v, i, v);
    } else {
      var head, low, w := v % 128 + 128, v % 128, Weight(i);
      HoldsHead(data, pos, head, UlebBytes(v / 128));
      SplitOff(value, v, w);
      NotLast(i);
      OrAdds(value, head, i, low);
      var value': U64 := value + low * w;
      UlebMore(data, pos, i, value, value', head);
      UlebResumes(data, pos + 1, i + 1, value', v / 128);
    }
  }

  lemma UlebMore(data: seq<Byte>, pos: nat, i: nat, value: U64, value': U64, head: Byte)
    requires i < 10 && ByteAt(data, pos) == head >= 128 && After(data, pos) == pos + 1 && OrShifted(value, head, i) == value'
    ensures Uleb(data, pos, i, value) == Uleb(data, pos + 1, i + 1, value')
  {
  }

  lemma {:induction false} WeightMonotone(m: nat, n: nat)
    requires m <= n
    ensures Weight(m) <= Weight(n)
  {
    if m < n { WeightMonotone(m, n - 1); }
  }

  lemma NineGroupsFit(i: nat)
    requires i < 9
    ensures Weight(i + 1) == 128 * Weight(i) <= 0x8000_0000_0000_0000
  {
    WeightMonotone(i + 1, 9);
    Weights();
  }

  /** read_sleb128 inverts the canonical encoding of every signed 64-bit value,
      the ten-byte ones included, and stops right after it. */
  lemma SlebInverts(data: seq<Byte>, pos: nat, v: I64)
    requires Holds(data, pos, SlebBytes(v))
    ensures Sleb(data, pos, 0, 0) == (v, pos + |SlebBytes(v)|)
  {
    SlebResumes(data, pos, 0, 0, v);
  }

  ghost predicate InI64(v: int) {
    -0x8000_0000_0000_0000 <= v < 0x8000_0000_0000_0000
  }

  lemma {:induction false} SlebResumes(data: seq<Byte>, pos: nat, i: nat, value: U64, v: int)
    requires Holds(data, pos, SlebBytes(v)) && i < 10
    requires value < Weight(i) && InI64(value + v * Weight(i))
    ensures Sleb(data, pos, i, value) == (value + v * Weight(i), pos + |SlebBytes(v)|)
    decreases if v < 0 then -v else v
  {
    var w := Weight(i);
    if -64 <= v < 64 {
      SlebLast(data, pos, i, value, v);
    } else {
      HoldsHead(data, pos, v % 128 + 128, SlebBytes(v / 128));
      NotTenth(value, v, i);
      MoreGroups(value, v, i);
      var value': U64 := value + v % 128 * w;
      SlebMore(data, pos, i, value, value', v % 128 + 128);
      SlebResumes(data, pos + 1, i + 1, value', v / 128);
    }
  }

  lemma SlebLast(data: seq<Byte>, pos: nat, i: nat, value: U64, v: int)
    requires -64 <= v < 64 && Holds(data, pos, SlebBytes(v)) && i < 10
    requires value < Weight(i) && InI64(value + v * Weight(i))
    ensures Sleb(data, pos, i, value) == (value + v * Weight(i), pos + |SlebBytes(v)|)
  {
    assert SlebBytes(v) == [v % 128] + [];
    HoldsHead(data, pos, v % 128, []);
    if i < 9 { LastGroup(value, v, i); } else { TenthGroup(value, v); }
  }

  lemma SlebMore(data: seq<Byte>, pos: nat, i: nat, value: U64, value': U64, head: Byte)
    requires i < 9 && ByteAt(data, pos) == head >= 128 && After(data, pos) == pos + 1 && OrShifted(value, head, i) == value'
    ensures Sleb(data, pos, i, value) == Sleb(data, pos + 1, i + 1, value')
  {
  }

  lemma MoreGroups(value: U64, v: int, i: nat)
    requires i < 9 && value < Weight(i)
    ensures 0 <= value + v % 128 * Weight(i) < Weight(i + 1) < TWO_64
    ensures OrShifted(value, v % 128 + 128, i) == value + v % 128 * Weight(i)
    ensures (value + v % 128 * Weight(i)) + v / 128 * Weight(i + 1) == value + v * Weight(i)
  {
    SignedSplitOff(value, v, Weight(i));
    NineGroupsFit(i);
    OrAdds(value, v % 128 + 128, i, v % 128);
  }

  lemma SignedSplitOff(value: nat, v: int, w: nat)
    requires value < w
    ensures 0 <= value + v % 128 * w < 128 * w
    ensures (value + v % 128 * w) + v / 128 * (128 * w) == value + v * w
  {
    Distribute(v / 128, v % 128, w);
    assert v == 128 * (v / 128) + v % 128;
    ScaleBounds(v % 128, w);
  }

  lemma Distribute(q: int, r: int, w: int)
    ensures r * w + q * (128 * w) == (128 * q + r) * w
  {
  }

  lemma ScaleBounds(r: int, w: nat)
    requires 0 <= r < 128
    ensures 0 <= r * w <= 127 * w
  {
  }

  lemma NotTenth(value: nat, v: int, i: nat)
    requires i < 10 && value < Weight(i) && InI64(value + v * Weight(i)) && !(-64 <= v < 64)
    ensures i < 9
  {
    if i == 9 { Weights(); }
  }

  /** The final group of at most nine: the sign extension supplies the rest. */
  lemma LastGroup(value: U64, v: int, i: nat)
    requires -64 <= v < 64 && i < 9 && value < Weight(i)
    ensures ToSigned(SignExtended(OrShifted(value, v % 128, i), v % 128, i + 1)) == value + v * Weight(i)
  {
    var byte, w := v % 128, Weight(i);
    NineGroupsFit(i);
    ScaleBounds(byte, w);
    OrAdds(value, byte, i, byte);
    var value': U64 := value + byte * w;
    assert OrShifted(value, byte, i) == value';
    ByteTimes(v, w);
    Extends(value', byte, i + 1, value + v * w);
  }

  lemma ByteTimes(v: int, w: int)
    requires -64 <= v < 64
    ensures if v < 0 then v % 128 == v + 128 && v % 128 * w == v * w + 128 * w else v % 128 == v
  {
    if v < 0 {
      assert v % 128 == v + 128;
      Distribute(1, v, w);
    }
  }

  lemma Extends(value: U64, byte: Byte, n: nat, full: int)
    requires n <= 9 && value < Weight(n) <= 0x8000_0000_0000_0000 && byte < 128
    requires full == if byte >= 64 then value - Weight(n) else value
    ensures ToSigned(SignExtended(value, byte, n)) == full
  {
    SignArithmetic(value, Weight(n));
  }

  lemma SignArithmetic(value: nat, w: nat)
    requires value < w <= 0x8000_0000_0000_0000
    ensures (value + TWO_64 - w) % TWO_64 == value + TWO_64 - w
    ensures ToSigned(value + TWO_64 - w) == value - w && ToSigned(value) == value
  {
  }

  /** The tenth group holds one bit, and the shift guard leaves it as it is. */
  lemma TenthGroup(value: U64, v: int)
    requires -64 <= v < 64 && value < Weight(9) && InI64(value + v * Weight(9))
    ensures ToSigned(SignExtended(OrShifted(value, v % 128, 9), v % 128, 10)) == value + v * Weight(9)
  {
    Weights();
    assert v == 0 || v == -1;
  }
}

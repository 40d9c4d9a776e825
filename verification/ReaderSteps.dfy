/** The steps of the readers of src/lineno.c on words, and the arithmetic they come to. */
module ReaderSteps {
  import opened Common
  import opened Words
  import opened Leb128

  // value | (byte & 0x7f) << shift
  function OrGroup(value: U64, byte: Byte, shift: nat): U64 {
    Bitwise(OR, value, ShiftLeft(Bitwise(AND, byte, 0x7f), shift))
  }

  // value | byte << shift
  function OrByte(value: U64, byte: Byte, shift: nat): U64 {
    Bitwise(OR, value, ShiftLeft(byte, shift))
  }

  // if ((byte & 0x40) != 0 && shift < 64) value |= ~0 << shift
  function OrSign(value: U64, byte: Byte, shift: nat): U64 {
    if Bitwise(AND, byte, 0x40) != 0 && shift < 64 then Bitwise(OR, value, ShiftLeft(TWO_64 - 1, shift)) else value
  }

  lemma {:induction false} WeightIsPower(i: nat)
    ensures Weight(i) == Power2(7 * i)
  {
    if i > 0 {
      WeightIsPower(i - 1);
      var n := 7 * i;
      assert Power2(n) == 2 * Power2(n - 1) && Power2(n - 1) == 2 * Power2(n - 2) && Power2(n - 2) == 2 * Power2(n - 3);
      assert Power2(n - 3) == 2 * Power2(n - 4) && Power2(n - 4) == 2 * Power2(n - 5) && Power2(n - 5) == 2 * Power2(n - 6);
    }
  }

  lemma LowGroup(byte: Byte)
    ensures Bitwise(AND, byte, 0x7f) == byte % 128
  {
    Power2At64();
    AndMask(byte, byte / 128, byte % 128, 7, 64);
  }

  lemma ShiftedOnto(value: U64, g: nat, h: U64, k: nat)
    requires value < Power2(k) && h == g * Power2(k) && value + h < TWO_64 && k < 64
    ensures Bitwise(OR, value, ShiftLeft(g, k)) == value + h
  {
    ShiftIsProduct(g, k);
    OrHighPart(value, h, g, k);
  }

  /** In the top place only the lowest digit stays. */
  lemma TopPlace(g: U64)
    ensures ShiftLeft(g, 63) == g % 2 * 0x8000_0000_0000_0000
  {
    assert Power2(1) == 2;
    Power2At64();
    assert Power2(64) == 2 * Power2(63);
    ShiftKeeps(g, g / 2, g % 2, 63);
  }

  /** A group or-ed above the others adds its weight; the tenth one, what fits of it. */
  lemma OrGroupIsSum(value: U64, byte: Byte, i: nat)
    requires i < 10 && value < Weight(i)
    ensures OrGroup(value, byte, 7 * i) == OrShifted(value, byte, i)
  {
    LowGroup(byte);
    if i < 9 { OrFits(value, byte % 128, i); } else { OrTop(value, byte % 128); }
  }

  lemma OrFits(value: U64, g: U64, i: nat)
    requires i < 9 && value < Weight(i) && g < 128
    ensures Bitwise(OR, value, ShiftLeft(g, 7 * i)) == WithGroup(value, g, i)
  {
    NineGroupsFit(i);
    ScaleBounds(g, Weight(i));
    WeightIsPower(i);
    ShiftedOnto(value, g, g * Weight(i), 7 * i);
    Fits(value, g, i);
  }

  lemma Fits(value: U64, g: nat, i: nat)
    requires value + g * Weight(i) < TWO_64
    ensures WithGroup(value, g, i) == value + g * Weight(i)
  {
  }

  lemma OrTop(value: U64, g: U64)
    requires value < Weight(9)
    ensures Bitwise(OR, value, ShiftLeft(g, 63)) == WithGroup(value, g, 9)
  {
    Weights();
    WeightIsPower(9);
    TopPlace(g);
    OrHighPart(value, g % 2 * 0x8000_0000_0000_0000, g % 2, 63);
    TopSum(value, g);
  }

  lemma TopSum(value: nat, g: nat)
    requires value < 0x8000_0000_0000_0000
    ensures (value + g * 0x8000_0000_0000_0000) % TWO_64 == value + g % 2 * 0x8000_0000_0000_0000
  {
    ModUnique(value + g * 0x8000_0000_0000_0000, TWO_64, g / 2, value + g % 2 * 0x8000_0000_0000_0000);
  }

  /** The sign extension of n groups. */
  lemma OrSignIsSum(value: U64, byte: Byte, n: nat)
    requires 1 <= n <= 10 && value < Weight(n)
    ensures OrSign(value, byte, 7 * n) == SignExtended(value, byte, n)
  {
    SignBit(byte);
    if n < 10 { OrOnes(value, n); }
  }

  lemma OrOnes(value: U64, n: nat)
    requires n < 10 && value < Weight(n)
    ensures Bitwise(OR, value, ShiftLeft(TWO_64 - 1, 7 * n)) == (value + TWO_64 - Weight(n)) % TWO_64
  {
    WeightIsPower(n);
    AllOnesShifted(7 * n);
    OrHighOnes(value, 7 * n);
    var full := value + TWO_64 - Weight(n);
    assert full % TWO_64 == full;
  }

  lemma SignBit(byte: Byte)
    ensures Bitwise(AND, byte, 0x40) != 0 <==> byte / 64 % 2 == 1
  {
    assert Power2(6) == 64;
    AndBit(byte, byte / 64 / 2, byte % 128, 6, 64);
  }

  /** A byte or-ed above i others adds its weight. */
  lemma OrByteIsSum(value: U64, byte: Byte, i: nat)
    requires i < 8 && value < Power256(i)
    ensures OrByte(value, byte, 8 * i) == value + byte * Power256(i) < Power256(i + 1) <= TWO_64
  {
    Power256IsPower(i);
    PowerBound(i);
    PowerBound(i + 1);
    ByteBound(value, byte, Power256(i));
    ShiftedOnto(value, byte, byte * Power256(i), 8 * i);
  }

  lemma ByteBound(value: nat, byte: Byte, p: nat)
    requires value < p
    ensures value + byte * p < 0x100 * p
  {
    assert byte * p <= 0xff * p;
  }

  lemma {:induction false} Power256IsPower(i: nat)
    ensures Power256(i) == Power2(8 * i)
  {
    if i > 0 {
      Power256IsPower(i - 1);
      Power2Plus8(8 * (i - 1));
    }
  }

  /** One more group on top of i keeps the value below the weight of the next. */
  lemma GroupStep(value: U64, byte: Byte, i: nat)
    requires i < 10 && value < Weight(i)
    ensures OrGroup(value, byte, 7 * i) == OrShifted(value, byte, i) < Weight(i + 1)
  {
    OrGroupIsSum(value, byte, i);
    if i < 9 {
      NineGroupsFit(i);
      ScaleBounds(byte % 128, Weight(i));
      Fits(value, byte % 128, i);
    } else {
      Weights();
    }
  }

  lemma TwoBytes(b0: Byte, b1: Byte)
    ensures OrByte(b0, b1, 8) == b0 + 0x100 * b1
  {
    OrByteIsSum(b0, b1, 1);
    assert Power256(1) == 0x100;
  }

  lemma FourBytes(b0: Byte, b1: Byte, b2: Byte, b3: Byte)
    ensures OrByte(OrByte(OrByte(b0, b1, 8), b2, 16), b3, 24) == b0 + 0x100 * b1 + 0x1_0000 * b2 + 0x100_0000 * b3
  {
    TwoBytes(b0, b1);
    assert Power256(2) == 0x1_0000 && Power256(3) == 0x100_0000;
    OrByteIsSum(b0 + 0x100 * b1, b2, 2);
    OrByteIsSum(b0 + 0x100 * b1 + 0x1_0000 * b2, b3, 3);
  }
}

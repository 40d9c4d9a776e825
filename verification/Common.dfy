/** What several modules share: optional results, addresses and words, the 64-bit
    modulus and the weights of bytes. */
module Common {
  datatype Option<T> = None | Some(value: T)

  const TWO_64: int := 0x1_0000_0000_0000_0000

  type Addr = a: int | 0 <= a < 0x1_0000_0000_0000_0000
  type Word = w: int | 0 <= w < 0x1_0000_0000
  type Byte = b: int | 0 <= b < 0x100
  type U64 = v: int | 0 <= v < 0x1_0000_0000_0000_0000
  type I64 = v: int | -0x8000_0000_0000_0000 <= v < 0x8000_0000_0000_0000

  function Power2(n: nat): (r: nat)
    ensures r > 0
  {
    if n == 0 then 1 else 2 * Power2(n - 1)
  }

  lemma Power2At64()
    ensures Power2(7) == 0x80 && Power2(8) == 0x100 && Power2(64) == TWO_64
  {
    Power2Plus8(8);
    Power2Plus8(16);
    Power2Plus8(24);
    Power2Plus8(32);
    Power2Plus8(40);
    Power2Plus8(48);
    Power2Plus8(56);
  }

  lemma Power2Plus8(n: nat)
    ensures Power2(n + 8) == 0x100 * Power2(n)
  {
    assert Power2(n + 8) == 2 * Power2(n + 7) && Power2(n + 7) == 2 * Power2(n + 6) && Power2(n + 6) == 2 * Power2(n + 5);
    assert Power2(n + 5) == 2 * Power2(n + 4) && Power2(n + 4) == 2 * Power2(n + 3) && Power2(n + 3) == 2 * Power2(n + 2);
    assert Power2(n + 2) == 2 * Power2(n + 1) && Power2(n + 1) == 2 * Power2(n);
  }

  function Power256(n: nat): (r: nat)
    ensures r > 0
  {
    if n == 0 then 1 else 0x100 * Power256(n - 1)
  }

  lemma PowerBound(n: nat)
    ensures n < 8 ==> Power256(n) <= Power256(7) == 0x100_0000_0000_0000
    ensures Power256(8) == TWO_64
    ensures 1 <= n < 8 ==> Power256(n) % 2 == 0
    ensures Power256(4) == 0x1_0000_0000
  {
    assert Power256(4) == 0x1_0000_0000;
  }

  lemma ModUnique(v: nat, m: nat, a: nat, r: nat)
    requires m > 0 && r < m && v == m * a + r
    ensures v % m == r && v / m == a
  {
    var q := v / m;
    assert v == m * q + v % m;
    assert q < a ==> m * q <= m * (a - 1);
    assert q > a ==> m * q >= m * (a + 1);
  }

  lemma SameRemainder(a: int, d: int)
    ensures (a + d) % TWO_64 == a % TWO_64 <==> d % TWO_64 == 0
  {
  }
}

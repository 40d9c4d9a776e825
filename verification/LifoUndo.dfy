/** Breakpoints on bytes instead of words: enabling them anywhere, at equal or
    overlapping addresses too, and deleting them last to first as `del all` does
    (src/breakpoint.c, cmd_del in src/debugger.c). */
module LifoUndo {
  import opened Common
  import opened Leb128
  import opened Machine
  import opened Scalars

  // An enabled entry: where it is, and the four bytes it covers.
  datatype Patch = Patch(addr: Addr, saved: nat)

  /** cdbg_bp_enable: save the four bytes at `a`, write BRK #0 over them. */
  function Enable(mem: Bytes, a: Addr): (r: Option<(Bytes, Patch)>)
  {
    match Load(mem, a, 4)
    case None => None
    case Some(saved) =>
      assert InMemory(mem, a + 3);
      Some((Put(mem, a, 4, TRAP), Patch(a, saved)))
  }

  /** Enabling a list of breakpoints, skipping those that fail. */
  function EnableAll(mem: Bytes, addrs: seq<Addr>): (Bytes, seq<Patch>)
    decreases addrs
  {
    if addrs == [] then (mem, [])
    else
      match Enable(mem, addrs[0])
      case None => EnableAll(mem, addrs[1..])
      case Some((mem', patch)) =>
        var (last, patches) := EnableAll(mem', addrs[1..]);
        (last, [patch] + patches)
  }

  /** Deleting enabled entries from the last to the first, restoring what each saved. */
  function DeleteAll(mem: Bytes, table: seq<Patch>): Bytes
    decreases table
  {
    if table == [] then mem
    else
      var last := table[|table| - 1];
      if last.addr + 4 > TWO_64 then mem
      else DeleteAll(Put(mem, last.addr, 4, last.saved), table[..|table| - 1])
  }

  lemma {:induction false} PutLoaded(mem: Bytes, a: int, n: nat)
    requires 0 <= a && a + n <= TWO_64 && Load(mem, a, n).Some?
    ensures Put(mem, a, n, Load(mem, a, n).value) == mem
    decreases n
  {
    if n > 0 {
      var high := Load(mem, a + 1, n - 1).value;
      assert InMemory(mem, a);
      PutLoaded(mem, a + 1, n - 1);
      LowByte(mem[a], high);
      assert Load(mem, a, n).value == mem[a] + 0x100 * high;
    }
  }

  lemma LowByte(b: Byte, high: nat)
    ensures (b + 0x100 * high) % 0x100 == b && (b + 0x100 * high) / 0x100 == high
  {
  }

  /** The bytes put do not depend on the memory they are put into. */
  lemma {:induction false} PutSame(mem: Bytes, mem': Bytes, a: int, n: nat, v: nat)
    requires 0 <= a && a + n <= TWO_64
    ensures forall b: Addr | a <= b < a + n ::
              b in Put(mem, a, n, v) && b in Put(mem', a, n, v) && Put(mem, a, n, v)[b] == Put(mem', a, n, v)[b]
    decreases n
  {
    if n > 0 { PutSame(mem, mem', a + 1, n - 1, v / 0x100); }
  }

  lemma PutLoadRestores(mem: Bytes, mem': Bytes, a: Addr, n: nat)
    requires a + n <= TWO_64 && Load(mem, a, n).Some?
    requires forall b: Addr :: b in mem <==> b in mem'
    requires forall b: Addr | b in mem && !(a <= b < a + n) :: mem[b] == mem'[b]
    ensures Put(mem', a, n, Load(mem, a, n).value) == mem
  {
    var v := Load(mem, a, n).value;
    PutLoaded(mem, a, n);
    PutSame(mem, mem', a, n, v);
    PutElsewhere(mem', a, n, v);
  }

  /** Disabling right after enabling restores every byte. */
  lemma DisableUndoesEnable(mem: Bytes, a: Addr)
    requires Enable(mem, a).Some?
    ensures var (mem', patch) := Enable(mem, a).value;
            patch.addr == a && a + 4 <= TWO_64 && Put(mem', a, 4, patch.saved) == mem
  {
    assert InMemory(mem, a + 3);
    PutElsewhere(mem, a, 4, TRAP);
    forall b: Addr | a <= b < a + 4 ensures b in mem { assert InMemory(mem, b); }
    PutLoadRestores(mem, Put(mem, a, 4, TRAP), a, 4);
  }

  /** Deleting the table a list of breakpoints left restores the first entry's
      memory before the rest of the list. */
  lemma {:induction false} DeleteAfterPrefix(mem: Bytes, first: Patch, table: seq<Patch>)
    requires first.addr + 4 <= TWO_64 && forall p | p in table :: p.addr + 4 <= TWO_64
    ensures DeleteAll(mem, [first] + table) == Put(DeleteAll(mem, table), first.addr, 4, first.saved)
    decreases table
  {
    if table == [] {
      assert [first] + table == [first] && [first][..0] == [];
    } else {
      var n := |table| - 1;
      assert table[n] in table;
      assert ([first] + table)[..|table|] == [first] + table[..n];
      DeleteAfterPrefix(Put(mem, table[n].addr, 4, table[n].saved), first, table[..n]);
    }
  }

  lemma {:induction false} PatchesFit(mem: Bytes, addrs: seq<Addr>)
    ensures forall p | p in EnableAll(mem, addrs).1 :: p.addr + 4 <= TWO_64
    decreases addrs
  {
    if addrs != [] {
      match Enable(mem, addrs[0]) {
        case None => PatchesFit(mem, addrs[1..]);
        case Some(result) =>
          assert InMemory(mem, addrs[0] + 3);
          PatchesFit(result.0, addrs[1..]);
      }
    }
  }

  /** Whatever the addresses, deleting last to first restores memory byte for byte. */
  lemma {:induction false} DeleteAllUndoes(mem: Bytes, addrs: seq<Addr>)
    ensures var (mem', table) := EnableAll(mem, addrs); DeleteAll(mem', table) == mem
    decreases addrs
  {
    if addrs != [] {
      match Enable(mem, addrs[0]) {
        case None => DeleteAllUndoes(mem, addrs[1..]);
        case Some(result) =>
          var (mem1, first) := result;
          DeleteAllUndoes(mem1, addrs[1..]);
          DisableUndoesEnable(mem, addrs[0]);
          PatchesFit(mem1, addrs[1..]);
          var (last, patches) := EnableAll(mem1, addrs[1..]);
          DeleteAfterPrefix(last, first, patches);
      }
    }
  }

  /** The order matters: of two breakpoints at one address, deleting the first one
      first leaves a trap behind. */
  lemma FirstToLastLeavesTrap(a: Addr, word: nat)
    requires a + 4 <= TWO_64 && word < 0x1_0000_0000 && word != TRAP
    ensures var mem := Put(map[], a, 4, word);
            var (patched, table) := EnableAll(mem, [a, a]);
            |table| == 2 && Put(Put(patched, a, 4, table[0].saved), a, 4, table[1].saved) != mem
  {
    var mem: Bytes := Put(map[], a, 4, word);
    var patched: Bytes := Put(mem, a, 4, TRAP);
    FourBytesBack(map[], a, word);
    FourBytesBack(mem, a, TRAP);
    EnabledTwice(mem, a, word);
    FourBytesBack(Put(Put(patched, a, 4, TRAP), a, 4, word), a, TRAP);
  }

  lemma FitsIn(v: nat, p: nat)
    requires v < p
    ensures v % p == v
  {
  }

  lemma FourBytesBack(mem: Bytes, a: Addr, v: nat)
    requires a + 4 <= TWO_64 && v < 0x1_0000_0000
    ensures Load(Put(mem, a, 4, v), a, 4) == Some(v)
  {
    LoadAfterPut(mem, a, 4, v);
    PowerBound(4);
    FitsIn(v, Power256(4));
  }

  lemma EnabledTwice(mem: Bytes, a: Addr, word: nat)
    requires a + 4 <= TWO_64 && Load(mem, a, 4) == Some(word) && Load(Put(mem, a, 4, TRAP), a, 4) == Some(TRAP)
    ensures EnableAll(mem, [a, a]) == (Put(Put(mem, a, 4, TRAP), a, 4, TRAP), [Patch(a, word), Patch(a, TRAP)])
  {
    var patched: Bytes := Put(mem, a, 4, TRAP);
    assert [a, a][1..] == [a] && [a][1..] == [];
    assert Enable(mem, a) == Some((patched, Patch(a, word)));
    var twice: Bytes := Put(patched, a, 4, TRAP);
    assert Enable(patched, a) == Some((twice, Patch(a, TRAP)));
    var none: seq<Patch> := [];
    assert EnableAll(twice, []) == (twice, none);
    assert [Patch(a, TRAP)] + none == [Patch(a, TRAP)] && [Patch(a, word)] + [Patch(a, TRAP)] == [Patch(a, word), Patch(a, TRAP)];
    var single := [a];
    assert single[0] == a && single[1..] == [];
    assert EnableAll(patched, single).0 == twice;
    assert EnableAll(patched, single).1 == [Patch(a, TRAP)] + EnableAll(twice, []).1;
    assert EnableAll(patched, [a]) == (Put(patched, a, 4, TRAP), [Patch(a, TRAP)]);
  }
}

/** The encoding of one hardware watchpoint in a thread's debug registers
    (src/watchpoint.c), against the meaning that the DBGWVR<n>_EL1 and
    DBGWCR<n>_EL1 descriptions of the Arm Architecture Reference Manual
    (DDI 0487) give those registers. Addresses are numbers, so `addr & 7` reads
    `addr % 8`; control words are bit-vectors. */
module WatchEncoding {
  import opened Common

  const WCR_ENABLE: bv64 := 1
  const WCR_PAC_EL0: bv64 := 2 << 1
  const WCR_LSC_LOAD: bv64 := 1 << 3
  const WCR_LSC_STORE: bv64 := 2 << 3

  datatype Kind = Read | Write | Access
  datatype AccessType = Load | Store

  predicate Wants(kind: Kind, access: AccessType) {
    kind == Access || (kind == Read) == (access == Load)
  }

  /** What cdbg_watch_arm accepts: 1 to 8 bytes within one 8-byte granule. */
  predicate Encodable(addr: Addr, size: nat) {
    1 <= size <= 8 && addr % 8 + size <= 8
  }

  function EncodeValue(addr: Addr): Addr {
    addr - addr % 8
  }

  function ByteAddressSelect(offset: nat, size: nat): bv64
    requires offset < 8 && size <= 8
  {
    (((1 as bv64) << size) - 1) << offset
  }

  function EncodeControl(addr: Addr, size: nat, kind: Kind): bv64
    requires Encodable(addr, size)
  {
    WCR_ENABLE | WCR_PAC_EL0 | (ByteAddressSelect(addr % 8, size) << 5)
    | (if Wants(kind, Load) then WCR_LSC_LOAD else 0)
    | (if Wants(kind, Store) then WCR_LSC_STORE else 0)
  }

  // DBGWCR<n>_EL1: E is bit 0, PAC bits 2:1, LSC bits 4:3, BAS bits 12:5; HMC, SSC,
  // LBN, WT and MASK are bits 13 and above.

  predicate IsEnabled(wcr: bv64) { wcr & 1 == 1 }

  function PrivilegedAccessControl(wcr: bv64): bv64 { (wcr >> 1) & 3 }

  predicate LoadSelected(wcr: bv64) { (wcr >> 3) & 1 == 1 }

  predicate StoreSelected(wcr: bv64) { (wcr >> 4) & 1 == 1 }

  predicate ByteSelected(wcr: bv64, byte: nat)
    requires byte < 8
  {
    (wcr >> (5 + byte)) & 1 == 1
  }

  /** The register pair matches an access by the program (at EL0) of the given
      type to the byte at `a`: enabled, EL0 only, unlinked and unmasked, the
      access type selected, the granule equal and the byte selected. */
  predicate HardwareMatches(wvr: Addr, wcr: bv64, a: Addr, access: AccessType) {
    IsEnabled(wcr) && PrivilegedAccessControl(wcr) == 2 && wcr >> 13 == 0 &&
    (if access == Load then LoadSelected(wcr) else StoreSelected(wcr)) &&
    a - a % 8 == wvr && ByteSelected(wcr, a % 8)
  }

  lemma SelectExact(offset: nat, size: nat, byte: nat)
    requires 1 <= size <= 8 && offset + size <= 8 && byte < 8
    ensures ((ByteAddressSelect(offset, size) >> byte) & 1 == 1) <==> offset <= byte < offset + size
  {
    assert size == 1 || size == 2 || size == 3 || size == 4 || size == 5 || size == 6 || size == 7 || size == 8;
    assert offset == 0 || offset == 1 || offset == 2 || offset == 3 || offset == 4 || offset == 5 || offset == 6 || offset == 7;
  }

  lemma SelectFits(offset: nat, size: nat)
    requires 1 <= size <= 8 && offset + size <= 8
    ensures ByteAddressSelect(offset, size) < 0x100
  {
    assert size == 1 || size == 2 || size == 3 || size == 4 || size == 5 || size == 6 || size == 7 || size == 8;
    assert offset == 0 || offset == 1 || offset == 2 || offset == 3 || offset == 4 || offset == 5 || offset == 6 || offset == 7;
  }

  lemma FieldsOf(bas: bv64, load: bool, store: bool)
    requires bas < 0x100
    ensures var wcr := WCR_ENABLE | WCR_PAC_EL0 | (bas << 5)
                       | (if load then WCR_LSC_LOAD else 0) | (if store then WCR_LSC_STORE else 0);
            IsEnabled(wcr) && wcr >> 13 == 0 && PrivilegedAccessControl(wcr) == 2
            && (LoadSelected(wcr) <==> load) && (StoreSelected(wcr) <==> store)
            && wcr >> 5 == bas
  {
  }

  lemma SelectedIn(wcr: bv64, byte: nat)
    requires byte < 8
    ensures ByteSelected(wcr, byte) <==> ((wcr >> 5) >> byte) & 1 == 1
  {
    assert byte == 0 || byte == 1 || byte == 2 || byte == 3 || byte == 4 || byte == 5 || byte == 6 || byte == 7;
  }

  lemma ControlDecodes(addr: Addr, size: nat, kind: Kind, byte: nat)
    requires Encodable(addr, size) && byte < 8
    ensures var wcr := EncodeControl(addr, size, kind);
            IsEnabled(wcr) && wcr >> 13 == 0 && PrivilegedAccessControl(wcr) == 2
            && (LoadSelected(wcr) <==> Wants(kind, Load)) && (StoreSelected(wcr) <==> Wants(kind, Store))
            && (ByteSelected(wcr, byte) <==> addr % 8 <= byte < addr % 8 + size)
  {
    SelectExact(addr % 8, size, byte);
    SelectFits(addr % 8, size);
    FieldsOf(ByteAddressSelect(addr % 8, size), Wants(kind, Load), Wants(kind, Store));
    SelectedIn(EncodeControl(addr, size, kind), byte);
  }

  /** A register pair armed for `addr`, `size` and `kind` traps exactly the
      accesses of that kind to the bytes from `addr` up to `addr + size`. */
  lemma EncodingExact(addr: Addr, size: nat, kind: Kind, a: Addr, access: AccessType)
    requires Encodable(addr, size)
    ensures HardwareMatches(EncodeValue(addr), EncodeControl(addr, size, kind), a, access)
            <==> addr <= a < addr + size && Wants(kind, access)
  {
    ControlDecodes(addr, size, kind, a % 8);
    SameGranule(addr, size, a);
  }

  lemma SameGranule(addr: Addr, size: nat, a: Addr)
    requires Encodable(addr, size)
    ensures a - a % 8 == addr - addr % 8 && addr % 8 <= a % 8 < addr % 8 + size <==> addr <= a < addr + size
  {
  }

  datatype Watchpoint = Watchpoint(addr: Addr, size: nat, kind: Kind, enabled: bool, slot: nat,
                                   lastValue: int, hasLastValue: bool)

  const NO_WATCHPOINT := Watchpoint(0, 0, Read, false, 0, 0, false)

  /** cdbg_watch_addr_hit, whose sum is a 64-bit one. */
  predicate AddrHit(wp: Watchpoint, fault: Addr) {
    wp.enabled && wp.addr <= fault < (wp.addr + wp.size) % 0x1_0000_0000_0000_0000
  }

  /** The debugger attributes a fault address to an armed watchpoint exactly when
      the hardware would have trapped there; it fails to only for a watchpoint
      that ends at the top of the address space, to which nothing is attributed. */
  lemma AttributionExact(wp: Watchpoint, access: AccessType)
    requires wp.enabled && Encodable(wp.addr, wp.size) && Wants(wp.kind, access)
    ensures wp.addr + wp.size < 0x1_0000_0000_0000_0000
            <==> forall fault: Addr :: AddrHit(wp, fault) <==>
                   HardwareMatches(EncodeValue(wp.addr), EncodeControl(wp.addr, wp.size, wp.kind), fault, access)
    ensures wp.addr + wp.size >= 0x1_0000_0000_0000_0000 ==> forall fault: Addr :: !AddrHit(wp, fault)
  {
    forall fault: Addr
      ensures HardwareMatches(EncodeValue(wp.addr), EncodeControl(wp.addr, wp.size, wp.kind), fault, access)
              <==> wp.addr <= fault < wp.addr + wp.size
    {
      EncodingExact(wp.addr, wp.size, wp.kind, fault, access);
    }
    assert AddrHit(wp, wp.addr) <==> wp.addr + wp.size < 0x1_0000_0000_0000_0000;
  }

  // A byte loaded or stored.
  datatype Touch = Touch(addr: Addr, access: AccessType)

  // The debug registers of one thread, as in arm_debug_state64_t.
  datatype DebugRegs = DebugRegs(wvr: seq<Addr>, wcr: seq<bv64>) {
    predicate Shaped() { |wvr| == |wcr| == 16 }

    predicate EnabledSlot(s: nat)
      requires Shaped() && s < 16
    {
      IsEnabled(wcr[s])
    }

    /** Slot `s` carries the encoding of `wp`. */
    predicate Carries(s: nat, wp: Watchpoint)
      requires Shaped() && s < 16 && Encodable(wp.addr, wp.size)
    {
      wvr[s] == EncodeValue(wp.addr) && wcr[s] == EncodeControl(wp.addr, wp.size, wp.kind)
    }

    /** Some register pair matches the access. */
    predicate Traps(t: Touch) {
      Shaped() && exists s | 0 <= s < 16 :: HardwareMatches(wvr[s], wcr[s], t.addr, t.access)
    }
  }

  const CLEAR_REGS := DebugRegs(seq(16, _ => 0), seq(16, _ => 0))

  // Exception classes of ESR_ELx for a watchpoint, from a lower level and from the same one.
  predicate IsWatchpointException(esr: bv32) {
    (esr >> 26) & 0x3f == 0x34 || (esr >> 26) & 0x3f == 0x35
  }
}

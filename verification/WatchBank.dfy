/** Hardware watchpoints over all threads of the debuggee: slot allocation,
    arming with rollback, disarming, deletion (src/watchpoint.c,
    src/debugger.c). */
module WatchBank {
  import opened Common
  import opened Slots
  import opened WatchEncoding

  const MAX_WATCHPOINTS: nat := 4
  const MAX_THREADS: nat := 256

  ghost predicate SameExcept(r: DebugRegs, r': DebugRegs, slot: nat) {
    r.Shaped() && r'.Shaped() &&
    forall s: nat | s < 16 && s != slot :: r'.wvr[s] == r.wvr[s] && r'.wcr[s] == r.wcr[s]
  }

  /** Hardware with `hw` slots drops what is written to a missing one. */
  function Stored(hw: nat, r: DebugRegs, slot: nat, wvr: Addr, wcr: bv64): (r': DebugRegs)
    requires r.Shaped() && slot < 16
    ensures SameExcept(r, r', slot)
    ensures slot < hw ==> r'.wvr[slot] == wvr && r'.wcr[slot] == wcr
    ensures slot >= hw ==> r' == r
  {
    if slot < hw then DebugRegs(r.wvr[slot := wvr], r.wcr[slot := wcr]) else r
  }

  type Table = seq<Watchpoint>

  /** The live watchpoints have distinct existing slots and can be encoded. */
  ghost predicate SlotsDistinct(table: Table, hw: nat) {
    (forall i | 0 <= i < |table| && table[i].enabled ::
      table[i].slot < MAX_WATCHPOINTS && table[i].slot < hw && Encodable(table[i].addr, table[i].size)) &&
    (forall i, j | 0 <= i < j < |table| && table[i].enabled && table[j].enabled :: table[i].slot != table[j].slot)
  }

  ghost predicate SlotsBounded(table: Table) {
    forall i | 0 <= i < |table| :: table[i].slot < MAX_WATCHPOINTS
  }

  ghost predicate AllLive(table: Table) {
    forall i | 0 <= i < |table| :: table[i].enabled
  }

  ghost predicate Owned(table: Table, s: nat) {
    exists i :: 0 <= i < |table| && Owns(table[i], s)
  }

  predicate Owns(wp: Watchpoint, s: nat) {
    wp.enabled && wp.slot == s
  }

  const ALL_SLOTS: set<nat> := {0, 1, 2, 3}

  /** In `r`, each live watchpoint whose slot is in `armed` is carried by that slot,
      and no other slot is enabled. */
  ghost predicate RegsMatch(r: DebugRegs, table: Table, hw: nat, armed: set<nat>)
    requires SlotsDistinct(table, hw)
  {
    r.Shaped() &&
    (forall i | 0 <= i < |table| && table[i].enabled ::
      if table[i].slot in armed then r.Carries(table[i].slot, table[i]) else !r.EnabledSlot(table[i].slot)) &&
    (forall s: nat | s < MAX_WATCHPOINTS && r.EnabledSlot(s) :: Owned(table, s))
  }

  // The slot of `wp` carries it.
  predicate Armed(r: DebugRegs, wp: Watchpoint) {
    r.Shaped() && wp.slot < 16 && Encodable(wp.addr, wp.size) && r.Carries(wp.slot, wp)
  }

  ghost predicate RegsClear(r: DebugRegs) {
    r.Shaped() && forall s: nat | s < MAX_WATCHPOINTS :: !r.EnabledSlot(s)
  }

  /** Only existing slots of those the debugger uses are ever enabled. */
  ghost predicate RegsBounded(r: DebugRegs, hw: nat) {
    r.Shaped() && forall s: nat | s < 16 && (hw <= s || MAX_WATCHPOINTS <= s) :: !r.EnabledSlot(s)
  }

  /** What a thread with nothing armed traps. */
  lemma ClearTrapsNothing(r: DebugRegs, hw: nat, touch: Touch)
    requires RegsBounded(r, hw) && RegsClear(r)
    ensures !r.Traps(touch)
  {
    forall s: nat | s < 16 ensures !HardwareMatches(r.wvr[s], r.wcr[s], touch.addr, touch.access) {
      assert !r.EnabledSlot(s);
    }
  }

  // Some live entry watches the access.
  predicate Watches(table: Table, touch: Touch) {
    exists i | 0 <= i < |table| :: WatchesTouch(table[i], touch)
  }

  predicate WatchesTouch(wp: Watchpoint, touch: Touch) {
    wp.enabled && wp.addr <= touch.addr < wp.addr + wp.size && Wants(wp.kind, touch.access)
  }

  /** A thread in step with the table traps exactly the accesses that the table's live
      entries watch. */
  lemma TrapsExactly(r: DebugRegs, table: Table, hw: nat, touch: Touch)
    requires SlotsDistinct(table, hw) && RegsBounded(r, hw) && RegsMatch(r, table, hw, ALL_SLOTS)
    ensures r.Traps(touch) <==> Watches(table, touch)
  {
    forall s: nat | s < 16 && HardwareMatches(r.wvr[s], r.wcr[s], touch.addr, touch.access) ensures Watches(table, touch) {
      assert r.EnabledSlot(s);
      var i :| 0 <= i < |table| && Owns(table[i], s);
      EncodingExact(table[i].addr, table[i].size, table[i].kind, touch.addr, touch.access);
      assert WatchesTouch(table[i], touch);
    }
    forall i | 0 <= i < |table| && WatchesTouch(table[i], touch) ensures r.Traps(touch) {
      var s := table[i].slot;
      EncodingExact(table[i].addr, table[i].size, table[i].kind, touch.addr, touch.access);
      assert HardwareMatches(r.wvr[s], r.wcr[s], touch.addr, touch.access);
    }
  }

  lemma EncodedIsEnabled(addr: Addr, size: nat, kind: Kind)
    requires Encodable(addr, size)
    ensures IsEnabled(EncodeControl(addr, size, kind))
  {
    ControlDecodes(addr, size, kind, 0);
  }

  /** cdbg_watch_disarm drops the enable bit and no other. */
  function ClearEnable(wcr: bv64): (r: bv64)
    ensures !IsEnabled(r)
    ensures r | WCR_ENABLE == wcr | WCR_ENABLE
  {
    wcr & !WCR_ENABLE
  }

  /** On a thread where the slots `armed` are, a slot's enable bit is set exactly when
      it is one of them and some table entry owns it, and then it traps exactly
      that entry's accesses. */
  lemma EnabledIffOwned(r: DebugRegs, table: Table, hw: nat, armed: set<nat>, s: nat)
    requires SlotsDistinct(table, hw) && RegsMatch(r, table, hw, armed) && s < MAX_WATCHPOINTS
    ensures r.EnabledSlot(s) <==> Owned(table, s) && s in armed
    ensures forall i, a: Addr, access | 0 <= i < |table| && Owns(table[i], s) && s in armed ::
              HardwareMatches(r.wvr[s], r.wcr[s], a, access)
              <==> table[i].addr <= a < table[i].addr + table[i].size && Wants(table[i].kind, access)
  {
    forall i | 0 <= i < |table| && Owns(table[i], s) && s in armed ensures r.EnabledSlot(s) {
      EncodedIsEnabled(table[i].addr, table[i].size, table[i].kind);
    }
    forall i, a: Addr, access | 0 <= i < |table| && Owns(table[i], s) && s in armed
      ensures HardwareMatches(r.wvr[s], r.wcr[s], a, access)
              <==> table[i].addr <= a < table[i].addr + table[i].size && Wants(table[i].kind, access)
    {
      EncodingExact(table[i].addr, table[i].size, table[i].kind, a, access);
    }
  }

  /** A thread that is in step with the table for one set of slots is so for another
      exactly when both have the same of the owned slots. */
  lemma MatchesForIff(r: DebugRegs, table: Table, hw: nat, armed: set<nat>, armed': set<nat>)
    requires SlotsDistinct(table, hw) && RegsMatch(r, table, hw, armed)
    ensures RegsMatch(r, table, hw, armed') <==> forall i | 0 <= i < |table| && table[i].enabled :: table[i].slot in armed <==> table[i].slot in armed'
  {
    forall i | 0 <= i < |table| && table[i].enabled && table[i].slot in armed ensures r.EnabledSlot(table[i].slot) {
      EncodedIsEnabled(table[i].addr, table[i].size, table[i].kind);
    }
    forall i | 0 <= i < |table| && table[i].enabled ensures r.Carries(table[i].slot, table[i]) ==> r.EnabledSlot(table[i].slot) {
      EncodedIsEnabled(table[i].addr, table[i].size, table[i].kind);
    }
  }

  /** A new thread has nothing armed: it is in step exactly with a table without live
      watchpoints. */
  lemma NewThreadMatchesIff(r: DebugRegs, table: Table, hw: nat)
    requires SlotsDistinct(table, hw) && RegsClear(r)
    ensures RegsMatch(r, table, hw, {})
    ensures RegsMatch(r, table, hw, ALL_SLOTS) <==> forall i | 0 <= i < |table| :: !table[i].enabled
  {
    MatchesForIff(r, table, hw, {}, ALL_SLOTS);
  }

  /** The watchpoint armed before a thread was created is not armed on it. */
  lemma CreatedThreadUnarmed(addr: Addr, size: nat, kind: Kind)
    requires Encodable(addr, size)
    ensures var table := [Watchpoint(addr, size, kind, true, 0, 0, false)];
            SlotsDistinct(table, MAX_WATCHPOINTS)
            && RegsMatch(Written(MAX_WATCHPOINTS, CLEAR_REGS, 0, addr, size, kind), table, MAX_WATCHPOINTS, ALL_SLOTS)
            && !RegsMatch(CLEAR_REGS, table, MAX_WATCHPOINTS, ALL_SLOTS)
  {
    var wp := Watchpoint(addr, size, kind, true, 0, 0, false);
    var none: Table := [];
    assert none + [wp] == [wp];
    assert RegsClear(CLEAR_REGS);
    AppendedMatches(CLEAR_REGS, Written(MAX_WATCHPOINTS, CLEAR_REGS, 0, addr, size, kind), none, MAX_WATCHPOINTS, ALL_SLOTS, wp);
    assert ALL_SLOTS + {0} == ALL_SLOTS;
    NewThreadMatchesIff(CLEAR_REGS, [wp], MAX_WATCHPOINTS);
    assert [wp][0].enabled;
  }

  /** A change confined to a slot that no live entry owns, leaving it disabled,
      keeps a thread's registers in step with the table. */
  lemma FreeSlotChange(r: DebugRegs, r': DebugRegs, table: Table, hw: nat, armed: set<nat>, slot: nat)
    requires SlotsDistinct(table, hw) && RegsMatch(r, table, hw, armed) && SameExcept(r, r', slot)
    requires slot < MAX_WATCHPOINTS && !Owned(table, slot) && !r'.EnabledSlot(slot)
    ensures RegsMatch(r', table, hw, armed)
  {
    forall i | 0 <= i < |table| && table[i].enabled ensures table[i].slot != slot {
      assert Owns(table[i], table[i].slot);
    }
    forall s: nat | s < MAX_WATCHPOINTS && r'.EnabledSlot(s) ensures Owned(table, s) {
      assert s != slot && r.EnabledSlot(s);
    }
  }

  /** cdbg_watch_arm does not undo its write when the read-back fails: from then on the
      thread is in step with the table only if the slot does not exist. */
  lemma LeftArmedIff(r: DebugRegs, table: Table, hw: nat, armed: set<nat>, slot: nat, addr: Addr, size: nat, kind: Kind)
    requires SlotsDistinct(table, hw) && RegsMatch(r, table, hw, armed)
    requires slot < MAX_WATCHPOINTS && !Owned(table, slot) && Encodable(addr, size)
    ensures RegsMatch(Written(hw, r, slot, addr, size, kind), table, hw, armed) <==> slot >= hw
  {
    EncodedIsEnabled(addr, size, kind);
    if slot < hw {
      assert Written(hw, r, slot, addr, size, kind).EnabledSlot(slot);
    }
  }

  /** What cdbg_watch_arm writes. */
  function Written(hw: nat, r: DebugRegs, slot: nat, addr: Addr, size: nat, kind: Kind): (r': DebugRegs)
    requires r.Shaped() && slot < 16 && Encodable(addr, size)
    ensures SameExcept(r, r', slot)
  {
    Stored(hw, r, slot, EncodeValue(addr), EncodeControl(addr, size, kind))
  }

  lemma AppendedMatches(r: DebugRegs, r': DebugRegs, table: Table, hw: nat, armed: set<nat>, wp: Watchpoint)
    requires SlotsDistinct(table, hw) && RegsMatch(r, table, hw, armed) && SameExcept(r, r', wp.slot)
    requires wp.enabled && wp.slot < MAX_WATCHPOINTS && wp.slot < hw && Encodable(wp.addr, wp.size)
    requires !Owned(table, wp.slot) && r'.Carries(wp.slot, wp)
    ensures SlotsDistinct(table + [wp], hw) && RegsMatch(r', table + [wp], hw, armed + {wp.slot})
  {
    var table', armed' := table + [wp], armed + {wp.slot};
    AppendedDistinct(table, hw, wp);
    forall i | 0 <= i < |table'| && table'[i].enabled
      ensures if table'[i].slot in armed' then r'.Carries(table'[i].slot, table'[i]) else !r'.EnabledSlot(table'[i].slot)
    {
      if i < |table| {
        assert table'[i] == table[i] && Owns(table[i], table[i].slot);
      }
    }
    assert Owns(table'[|table|], wp.slot);
    forall s: nat | s < MAX_WATCHPOINTS && r'.EnabledSlot(s) ensures Owned(table', s) {
      if s != wp.slot {
        assert r.EnabledSlot(s);
        var i :| 0 <= i < |table| && Owns(table[i], s);
        assert Owns(table'[i], s);
      }
    }
  }

  lemma AppendedDistinct(table: Table, hw: nat, wp: Watchpoint)
    requires SlotsDistinct(table, hw)
    requires wp.enabled && wp.slot < MAX_WATCHPOINTS && wp.slot < hw && Encodable(wp.addr, wp.size)
    requires !Owned(table, wp.slot)
    ensures SlotsDistinct(table + [wp], hw)
  {
    var table' := table + [wp];
    forall i | 0 <= i < |table| && table[i].enabled ensures table'[i] == table[i] && table[i].slot != wp.slot {
      assert !Owns(table[i], wp.slot);
    }
  }

  lemma RemovedMatches(r: DebugRegs, r': DebugRegs, table: Table, hw: nat, armed: set<nat>, i: nat)
    requires SlotsDistinct(table, hw) && i < |table| && RegsMatch(r, table, hw, armed)
    requires table[i].enabled && SameExcept(r, r', table[i].slot) && !r'.EnabledSlot(table[i].slot)
    ensures SlotsDistinct(RemoveAt(table, i), hw) && RegsMatch(r', RemoveAt(table, i), hw, armed)
  {
    var table' := RemoveAt(table, i);
    RemovedDistinct(table, hw, i);
    forall k | 0 <= k < |table'| && table'[k].enabled
      ensures if table'[k].slot in armed then r'.Carries(table'[k].slot, table'[k]) else !r'.EnabledSlot(table'[k].slot)
    {
      var k' := if k < i then k else k + 1;
      assert table'[k] == table[k'] && table[k'].slot != table[i].slot;
    }
    forall s: nat | s < MAX_WATCHPOINTS && r'.EnabledSlot(s) ensures Owned(table', s) {
      assert s != table[i].slot && r.EnabledSlot(s);
      StillOwned(table, i, s);
    }
  }

  lemma StillOwned(table: Table, i: nat, s: nat)
    requires i < |table| && Owned(table, s) && s != table[i].slot
    ensures Owned(RemoveAt(table, i), s)
  {
    var k :| 0 <= k < |table| && Owns(table[k], s);
    assert Owns(RemoveAt(table, i)[if k < i then k else k - 1], s);
  }

  lemma DisabledMatches(r: DebugRegs, table: Table, hw: nat, armed: set<nat>, wp: Watchpoint)
    requires SlotsDistinct(table, hw) && RegsMatch(r, table, hw, armed) && !wp.enabled
    ensures SlotsDistinct(table + [wp], hw) && RegsMatch(r, table + [wp], hw, armed)
  {
    var table' := table + [wp];
    forall s: nat | s < MAX_WATCHPOINTS && r.EnabledSlot(s) ensures Owned(table', s) {
      var i :| 0 <= i < |table| && Owns(table[i], s);
      assert Owns(table'[i], s);
    }
  }

  lemma SameOwnersMatch(r: DebugRegs, table: Table, table': Table, hw: nat, armed: set<nat>)
    requires SlotsDistinct(table, hw) && SlotsDistinct(table', hw) && RegsMatch(r, table, hw, armed)
    requires |table| == |table'|
    requires forall i | 0 <= i < |table| :: table'[i] == table[i].(lastValue := table'[i].lastValue, hasLastValue := table'[i].hasLastValue)
    ensures RegsMatch(r, table', hw, armed)
  {
    forall s: nat | s < MAX_WATCHPOINTS && r.EnabledSlot(s) ensures Owned(table', s) {
      var i :| 0 <= i < |table| && Owns(table[i], s);
      assert Owns(table'[i], s);
    }
  }

  lemma PrefixDistinct(table: Table, hw: nat, n: nat)
    requires SlotsDistinct(table, hw) && n <= |table|
    ensures SlotsDistinct(table[..n], hw)
  {
  }

  lemma RemovedDistinct(table: Table, hw: nat, i: nat)
    requires SlotsDistinct(table, hw) && i < |table|
    ensures SlotsDistinct(RemoveAt(table, i), hw)
  {
    var table' := RemoveAt(table, i);
    forall k | 0 <= k < |table'| ensures table'[k] == table[if k < i then k else k + 1] {}
  }

  /** `table'` is `table` with a live watchpoint of a free slot at its end. */
  ghost predicate Added(table: Table, table': Table, addr: Addr, size: nat, kind: Kind) {
    |table'| == |table| + 1 && table'[..|table|] == table &&
    var wp := table'[|table|];
    wp.addr == addr && wp.size == size && wp.kind == kind && wp.enabled && wp.slot < MAX_WATCHPOINTS
    && !Owned(table, wp.slot)
  }

  /** Pigeonhole: fewer entries than slots leave a slot free. */
  lemma SomeSlotFree(table: Table)
    requires |table| < MAX_WATCHPOINTS
    ensures exists s: nat :: s < MAX_WATCHPOINTS && !Owned(table, s)
  {
    var used := set i | 0 <= i < |table| :: table[i].slot;
    UsedSlotsBound(table, |table|);
    var all: set<nat> := {0, 1, 2, 3};
    if all <= used {
      CardinalityOfSubset(all, used);
      assert false;
    }
    var s :| s in all && s !in used;
    forall i | 0 <= i < |table| ensures !Owns(table[i], s) {
      assert table[i].slot in used;
    }
    assert !Owned(table, s);
  }

  lemma UsedSlotsBound(table: Table, n: nat)
    requires n <= |table|
    ensures |set i | 0 <= i < n :: table[i].slot| <= n
  {
    if n > 0 {
      UsedSlotsBound(table, n - 1);
      assert (set i | 0 <= i < n :: table[i].slot) == (set i | 0 <= i < n - 1 :: table[i].slot) + {table[n - 1].slot};
    }
  }

  lemma CardinalityOfSubset(a: set<nat>, b: set<nat>)
    requires a <= b
    ensures |a| <= |b|
  {
    if a != {} {
      var x :| x in a;
      CardinalityOfSubset(a - {x}, b - {x});
    }
  }

  /** The slots last armed, according to `armedAt`, at change number `n` or later. */
  function SlotsSince(armedAt: seq<nat>, n: nat): set<nat> {
    set s: nat | s in ALL_SLOTS && s < |armedAt| && n <= armedAt[s]
  }

  class Bank {
    // dbg->watchpoints and dbg->watchpoint_count
    const points: Slots<Watchpoint>
    // How many watchpoint slots the hardware implements.
    const hw: nat
    // The debug registers of the debuggee's threads, in task_threads order. The first
    // thread is the one that executes.
    var regs: seq<DebugRegs>
    // How often the list of threads has changed, when each thread came among those
    // cdbg_threads_list gives, and when each slot was last armed on all of these.
    ghost var changes: nat
    ghost var since: seq<nat>
    ghost var armedAt: seq<nat>
    // Failed system calls, and those of them that may leave a slot armed.
    ghost var faults: nat
    ghost var leaks: nat
    // Whether the threads are accounted for, and whether nothing is armed on any.
    ghost var accounted: bool
    ghost var clear: bool

    ghost predicate Valid()
      reads this, points, points.cells
    {
      RegsValid() && (accounted ==> Accounted()) && (clear ==> AllClear())
    }

    ghost predicate RegsValid()
      reads this`regs, this`since, this`armedAt, this`changes, points, points.cells
    {
      points.Valid() && points.cells.Length == MAX_WATCHPOINTS && SlotsBounded(points.contents) &&
      (forall t | 0 <= t < |regs| :: RegsBounded(regs[t], hw)) &&
      TimesValid()
    }

    ghost predicate TimesValid()
      reads this`regs, this`since, this`armedAt, this`changes
    {
      |since| == |regs| && |armedAt| == MAX_WATCHPOINTS &&
      (forall t | 0 <= t < |since| :: since[t] <= changes) && forall s | 0 <= s < |armedAt| :: armedAt[s] <= changes
    }

    ghost function Listed(): nat
      reads this`regs
    {
      if |regs| <= MAX_THREADS then |regs| else MAX_THREADS
    }

    function Current(): DebugRegs
      reads this`regs
    {
      if regs == [] then CLEAR_REGS else regs[0]
    }

    /** With nothing armed nothing is trapped. */
    lemma ClearIsFree(touch: Touch)
      requires Valid() && clear
      ensures !Current().Traps(touch)
    {
      ClearTrapsNothing(Current(), hw, touch);
    }

    /** Nor without a watchpoint, while the threads are accounted for. */
    lemma EmptyIsFree(touch: Touch)
      requires Valid() && accounted && points.contents == []
      ensures !Current().Traps(touch)
    {
      assert ThreadAccounted(0);
      ClearTrapsNothing(Current(), hw, touch);
    }

    /** While the watchpoints are armed, what traps is what they watch. */
    lemma InStepTraps(touch: Touch)
      requires RegsValid() && InStep()
      ensures Current().Traps(touch) <==> Watches(points.contents, touch)
    {
      TrapsExactly(Current(), points.contents, hw, touch);
    }

    ghost predicate Live()
      reads this`regs, points
    {
      regs != [] && AllLive(points.contents) && SlotsDistinct(points.contents, hw)
    }

    /** All entries are live, with distinct slots, and on every listed thread exactly they are armed. */
    ghost predicate InStep()
      requires RegsValid()
      reads this`regs, this`since, this`armedAt, this`changes, points, points.cells
    {
      Live() && forall t | 0 <= t < Listed() :: RegsMatch(regs[t], points.contents, hw, ALL_SLOTS)
    }

    /** All entries are live, with distinct slots; on every listed thread exactly those
        are armed whose slot was armed since the thread came onto the list; on the
        other threads none. */
    ghost predicate Accounted()
      requires RegsValid()
      reads this`regs, this`since, this`armedAt, this`changes, points, points.cells
    {
      Live() && forall t | 0 <= t < |regs| :: ThreadAccounted(t)
    }

    ghost predicate ThreadAccounted(t: nat)
      requires RegsValid() && t < |regs| && SlotsDistinct(points.contents, hw)
      reads this`regs, this`since, this`armedAt, this`changes, points, points.cells
    {
      if t < MAX_THREADS then RegsMatch(regs[t], points.contents, hw, SlotsSince(armedAt, since[t])) else RegsClear(regs[t])
    }

    /** Every slot the hardware has is owned. */
    ghost predicate NoSlotLeft()
      reads points
    {
      forall s: nat | s < MAX_WATCHPOINTS && s < hw :: Owned(points.contents, s)
    }

    /** No listed thread came onto the list after a watchpoint was last armed. */
    ghost predicate NoneSince()
      requires RegsValid()
      reads this`regs, this`since, this`armedAt, this`changes, points, points.cells
    {
      forall t, i | 0 <= t < Listed() && 0 <= i < |points.contents| :: since[t] <= armedAt[points.contents[i].slot]
    }

    /** The watchpoints are armed on every listed thread if and only if there is none, or
        no listed thread came after one was last armed. */
    lemma InStepIff()
      requires RegsValid() && Accounted()
      ensures InStep() <==> NoneSince()
    {
      var table := points.contents;
      forall t | 0 <= t < Listed()
        ensures RegsMatch(regs[t], table, hw, ALL_SLOTS) <==> forall i | 0 <= i < |table| :: since[t] <= armedAt[table[i].slot]
      {
        assert ThreadAccounted(t);
        MatchesForIff(regs[t], table, hw, SlotsSince(armedAt, since[t]), ALL_SLOTS);
      }
    }

    ghost predicate AllClear()
      requires RegsValid()
      reads this`regs, this`since, this`armedAt, this`changes, points, points.cells
    {
      regs != [] && forall t | 0 <= t < |regs| :: RegsClear(regs[t])
    }

    /** What waiting for the debuggee keeps. */
    twostate predicate Aged()
      reads this
    {
      faults == old(faults) && leaks == old(leaks) && accounted == old(accounted) && clear == old(clear)
      && Current() == old(Current())
    }

    constructor (hw: nat)
      ensures Valid() && fresh(points) && fresh(points.cells) && points.contents == [] && regs == []
      ensures faults == leaks == 0 && this.hw == hw
    {
      this.hw := hw;
      points := new Slots<Watchpoint>(MAX_WATCHPOINTS, NO_WATCHPOINT);
      regs := [];
      changes, since, armedAt := 0, [], [0, 0, 0, 0];
      faults, leaks, accounted, clear := 0, 0, false, false;
    }

    method ThreadsList() returns (ok: bool, n: nat)
      requires RegsValid()
      modifies this`faults
      ensures RegsValid() && n == Listed()
      ensures faults >= old(faults) && (!ok ==> faults > old(faults))
    {
      ok := *;
      if !ok { faults := faults + 1; }
      n := if |regs| <= MAX_THREADS then |regs| else MAX_THREADS;
    }

    // A successful thread_set_state that changes one register pair.
    method Store(t: nat, slot: nat, wvr: Addr, wcr: bv64)
      requires RegsValid() && t < |regs| && slot < MAX_WATCHPOINTS
      modifies this`regs
      ensures RegsValid() && |regs| == |old(regs)|
      ensures forall u | 0 <= u < |regs| && u != t :: regs[u] == old(regs)[u]
      ensures SameExcept(old(regs)[t], regs[t], slot)
      ensures regs[t] == Stored(hw, old(regs)[t], slot, wvr, wcr)
      ensures slot >= hw ==> regs == old(regs)
    {
      var state := Stored(hw, regs[t], slot, wvr, wcr);
      forall s: nat | s < 16 && (hw <= s || MAX_WATCHPOINTS <= s) ensures !state.EnabledSlot(s) {
        assert !regs[t].EnabledSlot(s);
      }
      regs := regs[t := state];
    }

    // cdbg_watch_arm
    method Arm(t: nat, slot: int, addr: Addr, size: nat, kind: Kind) returns (ok: bool)
      requires RegsValid() && t < |regs|
      modifies this`regs, this`faults, this`leaks
      ensures RegsValid() && |regs| == |old(regs)|
      ensures faults == old(faults) ==> leaks == old(leaks)
      ensures faults >= old(faults) && leaks >= old(leaks)
      ensures forall u | 0 <= u < |regs| && u != t :: regs[u] == old(regs)[u]
      ensures ok ==> 0 <= slot < MAX_WATCHPOINTS && slot < hw && Encodable(addr, size) && leaks == old(leaks)
      ensures ok ==> SameExcept(old(regs)[t], regs[t], slot) && regs[t].wvr[slot] == EncodeValue(addr)
                     && regs[t].wcr[slot] == EncodeControl(addr, size, kind)
      ensures !ok && leaks == old(leaks) ==> regs == old(regs)
      ensures !ok ==> regs == old(regs)
                      || (0 <= slot < MAX_WATCHPOINTS && Encodable(addr, size) && regs[t] == Written(hw, old(regs)[t], slot, addr, size, kind))
      ensures !ok && 0 <= slot < MAX_WATCHPOINTS && slot < hw && Encodable(addr, size) ==> faults > old(faults)
      ensures 0 <= slot < MAX_WATCHPOINTS ==> SameExcept(old(regs)[t], regs[t], slot)
    {
      if slot < 0 || slot >= MAX_WATCHPOINTS { return false; }
      if size == 0 || size > 8 { return false; }
      if addr % 8 + size > 8 { return false; }

      ok := *;
      if !ok { faults := faults + 1; return; }
      var state := regs[t];

      var wcr := EncodeControl(addr, size, kind);
      EncodedIsEnabled(addr, size, kind);

      ok := *;
      if !ok { faults := faults + 1; return; }
      Store(t, slot, EncodeValue(addr), wcr);

      ok := *;
      if !ok { faults, leaks := faults + 1, leaks + 1; return; }
      ok := regs[t].wcr[slot] == wcr;
      assert slot >= hw ==> !ok by {
        assert slot >= hw ==> !regs[t].EnabledSlot(slot);
      }
    }

    // cdbg_watch_disarm
    method Disarm(t: nat, slot: int) returns (ok: bool)
      requires RegsValid() && t < |regs|
      modifies this`regs, this`faults, this`leaks
      ensures RegsValid() && |regs| == |old(regs)|
      ensures faults >= old(faults) && leaks >= old(leaks)
      ensures forall u | 0 <= u < |regs| && u != t :: regs[u] == old(regs)[u]
      ensures !ok ==> regs == old(regs)
      ensures !ok && 0 <= slot < MAX_WATCHPOINTS ==> leaks > old(leaks) && faults > old(faults)
      ensures ok ==> 0 <= slot < MAX_WATCHPOINTS && faults == old(faults)
      ensures ok ==> !regs[t].EnabledSlot(slot)
      ensures ok && slot < hw ==> regs[t].wvr[slot] == old(regs)[t].wvr[slot]
                                  && regs[t].wcr[slot] == ClearEnable(old(regs)[t].wcr[slot])
      ensures 0 <= slot < MAX_WATCHPOINTS ==> SameExcept(old(regs)[t], regs[t], slot)
      ensures faults == old(faults) ==> leaks == old(leaks)
    {
      if slot < 0 || slot >= MAX_WATCHPOINTS { return false; }
      ok := *;
      if !ok { faults, leaks := faults + 1, leaks + 1; return; }
      var state := regs[t];
      ok := *;
      if !ok { faults, leaks := faults + 1, leaks + 1; return; }
      var wcr := ClearEnable(state.wcr[slot]);
      Store(t, slot, state.wvr[slot], wcr);
    }

    // arm_watchpoint_all_threads
    method ArmAllThreads(wp: Watchpoint) returns (ok: bool)
      requires RegsValid() && wp.slot < MAX_WATCHPOINTS
      modifies this`regs, this`faults, this`leaks, this`armedAt
      ensures RegsValid() && |regs| == |old(regs)|
      ensures faults == old(faults) ==> leaks == old(leaks)
      ensures faults >= old(faults) && leaks >= old(leaks)
      ensures armedAt == if ok then old(armedAt)[wp.slot := changes] else old(armedAt)
      ensures forall t | 0 <= t < |regs| :: SameExcept(old(regs)[t], regs[t], wp.slot)
      ensures forall t | Listed() <= t < |regs| :: regs[t] == old(regs)[t]
      ensures ok && Listed() > 0 ==> wp.slot < hw && Encodable(wp.addr, wp.size)
      ensures ok ==> forall t | 0 <= t < Listed() :: Armed(regs[t], wp)
      ensures !ok && leaks == old(leaks) ==>
                forall t | 0 <= t < Listed() :: regs[t] == old(regs)[t] || !regs[t].EnabledSlot(wp.slot)
      ensures !ok && wp.slot < hw && Encodable(wp.addr, wp.size) ==> faults > old(faults)
    {
      assert forall t | 0 <= t < |regs| :: SameExcept(regs[t], regs[t], wp.slot);
      hide RegsBounded;
      var n;
      ok, n := ThreadsList();
      if !ok { return; }
      var i := 0;
      while i < n
        invariant RegsValid() && |regs| == |old(regs)| && 0 <= i <= n == Listed()
        invariant faults == old(faults) ==> leaks == old(leaks)
        invariant faults >= old(faults) && leaks >= old(leaks)
        invariant forall t | 0 <= t < |regs| :: SameExcept(old(regs)[t], regs[t], wp.slot)
        invariant i > 0 ==> wp.slot < hw && Encodable(wp.addr, wp.size)
        invariant forall t | 0 <= t < i :: Armed(regs[t], wp)
        invariant forall t | i <= t < |regs| :: regs[t] == old(regs)[t]
        invariant armedAt == old(armedAt)
      {
        ok := ArmOrRollBack(i, wp);
        if !ok { return; }
        i := i + 1;
      }
      armedAt := armedAt[wp.slot := changes];
    }

    // One round of its loop: arm thread `i`, or disarm the slot on those before it.
    method ArmOrRollBack(i: nat, wp: Watchpoint) returns (ok: bool)
      requires RegsValid() && wp.slot < MAX_WATCHPOINTS && i < |regs|
      modifies this`regs, this`faults, this`leaks
      ensures RegsValid() && |regs| == |old(regs)|
      ensures faults == old(faults) ==> leaks == old(leaks)
      ensures faults >= old(faults) && leaks >= old(leaks)
      ensures forall t | 0 <= t < |regs| :: SameExcept(old(regs)[t], regs[t], wp.slot)
      ensures forall t | i < t < |regs| :: regs[t] == old(regs)[t]
      ensures ok ==> wp.slot < hw && Armed(regs[i], wp)
                     && forall t | 0 <= t < i :: regs[t] == old(regs)[t]
      ensures !ok && leaks == old(leaks) ==> regs[i] == old(regs)[i] && forall t | 0 <= t < i :: !regs[t].EnabledSlot(wp.slot)
      ensures !ok && wp.slot < hw && Encodable(wp.addr, wp.size) ==> faults > old(faults)
    {
      ok := Arm(i, wp.slot, wp.addr, wp.size, wp.kind);
      if !ok { DisarmThreads(i, wp.slot); }
    }

    method DisarmThreads(i: nat, slot: nat)
      requires RegsValid() && i <= |regs| && slot < MAX_WATCHPOINTS
      modifies this`regs, this`faults, this`leaks
      ensures RegsValid() && |regs| == |old(regs)|
      ensures faults >= old(faults) && leaks >= old(leaks)
      ensures forall t | 0 <= t < |regs| :: SameExcept(old(regs)[t], regs[t], slot)
      ensures forall t | i <= t < |regs| :: regs[t] == old(regs)[t]
      ensures forall t | 0 <= t < i :: regs[t] == old(regs)[t] || !regs[t].EnabledSlot(slot)
      ensures leaks == old(leaks) ==> forall t | 0 <= t < i :: !regs[t].EnabledSlot(slot)
      ensures faults == old(faults) ==> leaks == old(leaks)
    {
      for j := 0 to i
        invariant RegsValid() && |regs| == |old(regs)|
        invariant faults >= old(faults) && leaks >= old(leaks)
        invariant faults == old(faults) ==> leaks == old(leaks)
        invariant forall t | 0 <= t < |regs| :: SameExcept(old(regs)[t], regs[t], slot)
        invariant forall t | j <= t < |regs| :: regs[t] == old(regs)[t]
        invariant forall t | 0 <= t < j :: regs[t] == old(regs)[t] || !regs[t].EnabledSlot(slot)
        invariant leaks == old(leaks) ==> forall t | 0 <= t < j :: !regs[t].EnabledSlot(slot)
      {
        var ok := Disarm(j, slot);
      }
    }

    // disarm_watchpoint_all_threads
    method DisarmAllThreads(slot: nat)
      requires RegsValid() && slot < MAX_WATCHPOINTS
      modifies this`regs, this`faults, this`leaks
      ensures RegsValid() && |regs| == |old(regs)|
      ensures faults >= old(faults) && leaks >= old(leaks)
      ensures forall t | 0 <= t < |regs| :: SameExcept(old(regs)[t], regs[t], slot)
      ensures forall t | 0 <= t < |regs| :: regs[t] == old(regs)[t] || !regs[t].EnabledSlot(slot)
      ensures forall t | Listed() <= t < |regs| :: regs[t] == old(regs)[t]
      ensures leaks == old(leaks) ==> forall t | 0 <= t < Listed() :: !regs[t].EnabledSlot(slot)
      ensures faults == old(faults) ==> leaks == old(leaks)
    {
      var ok, n := ThreadsList();
      if !ok { leaks := leaks + 1; return; }
      DisarmThreads(n, slot);
    }

    // find_free_watch_slot
    method FindFreeSlot() returns (slot: int)
      requires RegsValid()
      ensures -1 <= slot < MAX_WATCHPOINTS
      ensures slot >= 0 ==> !Owned(points.contents, slot) && forall s: nat | s < slot :: Owned(points.contents, s)
      ensures slot < 0 <==> forall s: nat | s < MAX_WATCHPOINTS :: Owned(points.contents, s)
      ensures |points.contents| < MAX_WATCHPOINTS ==> slot >= 0
    {
      var used := new bool[MAX_WATCHPOINTS](_ => false);
      for i := 0 to points.count
        invariant forall s: nat | s < MAX_WATCHPOINTS ::
                    used[s] == exists k :: 0 <= k < i && Owns(points.contents[k], s)
      {
        var wp := points.Get(i);
        if wp.enabled && wp.slot < MAX_WATCHPOINTS { used[wp.slot] := true; }
      }
      if points.count < MAX_WATCHPOINTS { SomeSlotFree(points.contents); }
      for s := 0 to MAX_WATCHPOINTS
        invariant forall r: nat | r < s :: used[r]
        invariant forall r: nat | r < MAX_WATCHPOINTS :: used[r] == Owned(points.contents, r)
      {
        if !used[s] { return s; }
      }
      return -1;
    }

    /** The part of cmd_watch that follows the evaluation of its operand: find a
        slot, arm every thread, and only then enter the watchpoint. */
    method Add(addr: Addr, size: nat, kind: Kind) returns (ok: bool)
      requires Valid()
      modifies this`regs, this`faults, this`leaks, this`armedAt, this`accounted, this`clear, points, points.cells
      ensures Valid() && |regs| == |old(regs)|
      ensures faults == old(faults) ==> leaks == old(leaks)
      ensures faults >= old(faults) && leaks >= old(leaks)
      ensures ok ==> |old(points.contents)| < MAX_WATCHPOINTS && Added(old(points.contents), points.contents, addr, size, kind)
      ensures ok && Listed() > 0 ==> Encodable(addr, size)
      ensures !ok ==> points.contents == old(points.contents)
      ensures !ok && faults == old(faults) ==> |points.contents| >= MAX_WATCHPOINTS || !Encodable(addr, size) || NoSlotLeft()
      ensures accounted == (old(accounted) && leaks == old(leaks))
    {
      ok := Enter(addr, size, kind);
      accounted, clear := accounted && leaks == old(leaks), false;
    }

    method Enter(addr: Addr, size: nat, kind: Kind) returns (ok: bool)
      requires RegsValid()
      modifies this`regs, this`faults, this`leaks, this`armedAt, points, points.cells
      ensures RegsValid() && |regs| == |old(regs)|
      ensures faults == old(faults) ==> leaks == old(leaks)
      ensures faults >= old(faults) && leaks >= old(leaks)
      ensures ok ==> |old(points.contents)| < MAX_WATCHPOINTS && Added(old(points.contents), points.contents, addr, size, kind)
      ensures ok && Listed() > 0 ==> Encodable(addr, size)
      ensures !ok ==> points.contents == old(points.contents)
      ensures !ok && faults == old(faults) ==> |points.contents| >= MAX_WATCHPOINTS || !Encodable(addr, size) || NoSlotLeft()
      ensures old(Accounted()) && leaks == old(leaks) ==> Accounted()
    {
      if points.count >= MAX_WATCHPOINTS { return false; }
      var slot := FindFreeSlot();
      if slot < 0 { return false; }
      if size == 0 || size > 8 { return false; }
      ok := EnterAt(slot, addr, size, kind);
    }

    // From a free slot on.
    method EnterAt(slot: nat, addr: Addr, size: nat, kind: Kind) returns (ok: bool)
      requires RegsValid() && points.count < MAX_WATCHPOINTS && slot < MAX_WATCHPOINTS && !Owned(points.contents, slot)
      modifies this`regs, this`faults, this`leaks, this`armedAt, points, points.cells
      ensures RegsValid() && |regs| == |old(regs)|
      ensures faults == old(faults) ==> leaks == old(leaks)
      ensures faults >= old(faults) && leaks >= old(leaks)
      ensures ok ==> Added(old(points.contents), points.contents, addr, size, kind)
      ensures ok && Listed() > 0 ==> Encodable(addr, size)
      ensures !ok ==> points.contents == old(points.contents)
      ensures !ok && faults == old(faults) ==> slot >= hw || !Encodable(addr, size)
      ensures old(Accounted()) && leaks == old(leaks) ==> Accounted()
    {
      var wp := Watchpoint(addr, size, kind, false, slot, 0, false);
      ok := ArmAllThreads(wp);
      if !ok {
        if old(Accounted()) && leaks == old(leaks) {
          forall t | 0 <= t < |regs| ensures Stood(t, old(regs)[t], armedAt, points.contents) {
            assert old(ThreadAccounted(t));
          }
          RolledBack(slot, old(regs));
        }
        return;
      }
      wp := wp.(enabled := true);
      var value: int, haveValue: bool := *, *;
      if haveValue { wp := wp.(lastValue := value, hasLastValue := true); }
      ghost var table := points.contents;
      points.Push(wp);
      if old(Accounted()) {
        forall t | 0 <= t < |regs| ensures Stood(t, old(regs)[t], old(armedAt), table) {
          assert old(ThreadAccounted(t));
        }
        Entered(wp, old(regs), old(armedAt), table);
      }
    }

    // After a roll-back every listed thread is as before or has the slot disabled.
    lemma RolledBack(slot: nat, regs0: seq<DebugRegs>)
      requires RegsValid() && Live() && |regs0| == |regs| && slot < MAX_WATCHPOINTS && !Owned(points.contents, slot)
      requires forall t | 0 <= t < |regs| :: SameExcept(regs0[t], regs[t], slot)
      requires forall t | 0 <= t < |regs| :: regs[t] == regs0[t] || (t < MAX_THREADS && !regs[t].EnabledSlot(slot))
      requires forall t | 0 <= t < |regs| :: Stood(t, regs0[t], armedAt, points.contents)
      ensures Accounted()
    {
      forall t | 0 <= t < |regs| ensures ThreadAccounted(t) {
        assert Stood(t, regs0[t], armedAt, points.contents);
        if regs[t] != regs0[t] { FreeSlotChange(regs0[t], regs[t], points.contents, hw, SlotsSince(armedAt, since[t]), slot); }
      }
    }

    /** Thread `t` was accounted for with these registers, times and table. */
    ghost predicate Stood(t: nat, r: DebugRegs, armedAt0: seq<nat>, table: Table)
      requires TimesValid() && t < |since| && SlotsDistinct(table, hw) && |armedAt0| == MAX_WATCHPOINTS
      reads this`regs, this`since, this`armedAt, this`changes
    {
      if t < MAX_THREADS then RegsMatch(r, table, hw, SlotsSince(armedAt0, since[t]))
      else RegsClear(r)
    }

    lemma Entered(wp: Watchpoint, regs0: seq<DebugRegs>, armedAt0: seq<nat>, table: Table)
      requires RegsValid() && regs != [] && points.contents == table + [wp] && |regs0| == |regs| && |armedAt0| == MAX_WATCHPOINTS
      requires AllLive(table) && SlotsDistinct(table, hw) && wp.enabled && wp.slot < MAX_WATCHPOINTS && !Owned(table, wp.slot)
      requires wp.slot < hw && Encodable(wp.addr, wp.size)
      requires armedAt == armedAt0[wp.slot := changes]
      requires forall t | 0 <= t < |regs| :: SameExcept(regs0[t], regs[t], wp.slot)
      requires forall t | 0 <= t < |regs| :: if t < MAX_THREADS then Armed(regs[t], wp) else regs[t] == regs0[t]
      requires forall t | 0 <= t < |regs| :: Stood(t, regs0[t], armedAt0, table)
      ensures Accounted()
    {
      AppendedDistinct(table, hw, wp);
      forall t | 0 <= t < |regs| ensures ThreadAccounted(t) {
        assert Stood(t, regs0[t], armedAt0, table);
        if t < MAX_THREADS {
          var armed := SlotsSince(armedAt0, since[t]);
          AppendedMatches(regs0[t], regs[t], table, hw, armed, wp);
          assert SlotsSince(armedAt, since[t]) == armed + {wp.slot};
        }
      }
    }

    // delete_watchpoint_at, for an index in range
    method DeleteAt(index: nat, live: bool)
      requires Valid() && index < points.count
      modifies this`regs, this`faults, this`leaks, this`accounted, this`clear, points, points.cells
      ensures Valid() && |regs| == |old(regs)|
      ensures faults >= old(faults) && leaks >= old(leaks)
      ensures faults == old(faults) ==> leaks == old(leaks)
      ensures points.contents == RemoveAt(old(points.contents), index)
      ensures accounted == (old(accounted) && live && leaks == old(leaks))
      ensures !live ==> regs == old(regs)
    {
      var wp := points.Get(index);
      if live { DisarmAllThreads(wp.slot); }
      ghost var table := points.contents;
      points.Remove(index);
      clear, accounted := false, accounted && live && leaks == old(leaks);
      if accounted {
        RemovedDistinct(table, hw, index);
        forall t | 0 <= t < |regs| ensures ThreadAccounted(t) {
          assert old(ThreadAccounted(t));
          if t < MAX_THREADS { RemovedMatches(old(regs)[t], regs[t], table, hw, SlotsSince(armedAt, since[t]), index); }
        }
      }
    }

    /** The first loop of step_past_all_watchpoints. */
    method DisarmEnabled()
      requires Valid()
      modifies this`regs, this`faults, this`leaks, this`accounted, this`clear
      ensures Valid() && |regs| == |old(regs)|
      ensures faults >= old(faults) && leaks >= old(leaks)
      ensures faults == old(faults) ==> leaks == old(leaks)
      ensures clear == (old(accounted) && leaks == old(leaks))
    {
      DisarmOwned();
      accounted, clear := false, accounted && leaks == old(leaks);
    }

    method DisarmOwned()
      requires RegsValid()
      modifies this`regs, this`faults, this`leaks
      ensures RegsValid() && |regs| == |old(regs)|
      ensures faults >= old(faults) && leaks >= old(leaks)
      ensures faults == old(faults) ==> leaks == old(leaks)
      ensures old(Accounted()) && leaks == old(leaks) ==> AllClear()
    {
      for i := 0 to points.count
        invariant RegsValid() && |regs| == |old(regs)|
        invariant faults >= old(faults) && leaks >= old(leaks)
        invariant faults == old(faults) ==> leaks == old(leaks)
        invariant forall t | Listed() <= t < |regs| :: regs[t] == old(regs)[t]
        invariant forall t, s: nat | 0 <= t < Listed() && s < MAX_WATCHPOINTS && regs[t].EnabledSlot(s) :: old(regs)[t].EnabledSlot(s)
        invariant leaks == old(leaks) ==>
                    forall t, k | 0 <= t < Listed() && 0 <= k < i && points.contents[k].enabled :: !regs[t].EnabledSlot(points.contents[k].slot)
      {
        var wp := points.Get(i);
        if wp.enabled { DisarmAllThreads(wp.slot); }
      }
      if old(Accounted()) && leaks == old(leaks) {
        forall t | 0 <= t < |regs| ensures RegsClear(regs[t]) {
          assert old(ThreadAccounted(t));
          forall s: nat | t < MAX_THREADS && s < MAX_WATCHPOINTS ensures !regs[t].EnabledSlot(s) {
            assert Owned(points.contents, s) || !old(regs)[t].EnabledSlot(s);
          }
        }
      }
    }

    /** The last loop of step_past_all_watchpoints. */
    method RearmEnabled() returns (ok: bool)
      requires Valid()
      modifies this`regs, this`faults, this`leaks, this`armedAt, this`accounted, this`clear
      ensures Valid() && |regs| == |old(regs)|
      ensures faults == old(faults) ==> leaks == old(leaks)
      ensures faults >= old(faults) && leaks >= old(leaks)
      ensures accounted == (ok && old(clear) && AllLive(points.contents) && SlotsDistinct(points.contents, hw))
      ensures accounted ==> InStep()
      ensures !ok && SlotsDistinct(points.contents, hw) ==> faults > old(faults)
    {
      ok := ArmEnabled();
      accounted, clear := ok && clear && AllLive(points.contents) && SlotsDistinct(points.contents, hw), false;
    }

    method ArmEnabled() returns (ok: bool)
      requires RegsValid()
      modifies this`regs, this`faults, this`leaks, this`armedAt
      ensures RegsValid() && |regs| == |old(regs)|
      ensures faults == old(faults) ==> leaks == old(leaks)
      ensures faults >= old(faults) && leaks >= old(leaks)
      ensures ok && old(AllClear()) && AllLive(points.contents) && SlotsDistinct(points.contents, hw) ==> InStep() && Accounted()
      ensures !ok && SlotsDistinct(points.contents, hw) ==> faults > old(faults)
    {
      ghost var table := points.contents;
      ghost var good := old(AllClear()) && SlotsDistinct(table, hw);
      ok := true;
      for i := 0 to points.count
        invariant RegsValid() && |regs| == |old(regs)|
        invariant faults == old(faults) ==> leaks == old(leaks)
        invariant faults >= old(faults) && leaks >= old(leaks)
        invariant forall t | Listed() <= t < |regs| :: regs[t] == old(regs)[t]
        invariant good ==> SlotsDistinct(table[..i], hw)
        invariant good ==> forall t | 0 <= t < Listed() :: RegsMatch(regs[t], table[..i], hw, ALL_SLOTS)
        invariant good ==> forall k | 0 <= k < i && table[k].enabled :: armedAt[table[k].slot] == changes
      {
        var wp := points.Get(i);
        label L:
        if wp.enabled {
          ok := ArmAllThreads(wp);
          if !ok { return; }
        }
        if good { Rearmed(wp, i, old@L(regs), table); }
      }
      assert table[..points.count] == table;
      if good && AllLive(table) { RearmedAll(table); }
    }

    lemma Rearmed(wp: Watchpoint, i: nat, regs0: seq<DebugRegs>, table: Table)
      requires RegsValid() && i < |table| && table[i] == wp && SlotsDistinct(table, hw) && |regs0| == |regs|
      requires SlotsDistinct(table[..i], hw) && forall t | 0 <= t < Listed() :: RegsMatch(regs0[t], table[..i], hw, ALL_SLOTS)
      requires forall t | 0 <= t < Listed() ::
                 if wp.enabled then SameExcept(regs0[t], regs[t], wp.slot) && Armed(regs[t], wp) else regs[t] == regs0[t]
      ensures SlotsDistinct(table[..i + 1], hw)
      ensures forall t | 0 <= t < Listed() :: RegsMatch(regs[t], table[..i + 1], hw, ALL_SLOTS)
    {
      assert table[..i + 1] == table[..i] + [wp];
      PrefixDistinct(table, hw, i + 1);
      assert wp.enabled ==> !Owned(table[..i], wp.slot);
      forall t | 0 <= t < Listed() ensures RegsMatch(regs[t], table[..i + 1], hw, ALL_SLOTS) {
        if wp.enabled {
          AppendedMatches(regs0[t], regs[t], table[..i], hw, ALL_SLOTS, wp);
          assert ALL_SLOTS + {wp.slot} == ALL_SLOTS;
        } else {
          DisabledMatches(regs[t], table[..i], hw, ALL_SLOTS, wp);
        }
      }
    }

    lemma RearmedAll(table: Table)
      requires RegsValid() && regs != [] && table == points.contents && AllLive(table) && SlotsDistinct(table, hw)
      requires forall t | 0 <= t < Listed() :: RegsMatch(regs[t], table, hw, ALL_SLOTS)
      requires forall t | Listed() <= t < |regs| :: RegsClear(regs[t])
      requires forall k | 0 <= k < |table| :: armedAt[table[k].slot] == changes
      ensures InStep() && Accounted()
    {
      forall t | 0 <= t < |regs| ensures ThreadAccounted(t) {
        if t < MAX_THREADS { MatchesForIff(regs[t], table, hw, ALL_SLOTS, SlotsSince(armedAt, since[t])); }
      }
    }

    /** Between two stops threads may end, and new ones appear with no watchpoint armed. */
    method ThreadsChange()
      requires Valid()
      modifies this`regs, this`changes, this`since
      ensures Valid() && Aged()
    {
      changes := changes + 1;
      assert accounted ==> forall t | 0 <= t < |regs| :: old(ThreadAccounted(t)) ==> ThreadAccounted(t);
      var ends: nat := *;
      while ends > 0 && |regs| > 1
        invariant Valid() && Aged() && forall s | 0 <= s < |armedAt| :: armedAt[s] < changes
        decreases ends
      {
        var t: nat :| 0 < t < |regs|;
        ThreadEnds(t);
        ends := ends - 1;
      }
      var starts: nat := *;
      while starts > 0
        invariant Valid() && Aged() && forall s | 0 <= s < |armedAt| :: armedAt[s] < changes
        decreases starts
      {
        ThreadStarts();
        starts := starts - 1;
      }
    }

    // Those after it move up; one of them may come onto the list.
    method ThreadEnds(t: nat)
      requires Valid() && 0 < t < |regs| && forall s | 0 <= s < |armedAt| :: armedAt[s] < changes
      modifies this`regs, this`since
      ensures Valid() && Aged()
    {
      regs, since := RemoveAt(regs, t), RemoveAt(since, t);
      if |regs| >= MAX_THREADS && t < MAX_THREADS { since := since[MAX_THREADS - 1 := changes]; }
      forall u | 0 <= u < |regs|
        ensures regs[u] == old(regs)[if u < t then u else u + 1]
        ensures since[u] == if u == MAX_THREADS - 1 && t <= u then changes else old(since)[if u < t then u else u + 1]
      {
      }
      assert RegsValid();
      if accounted {
        forall u | 0 <= u < |regs| ensures ThreadAccounted(u) {
          assert old(ThreadAccounted(if u < t then u else u + 1));
          Unarmed(u);
        }
      }
    }

    // Nothing is armed on a thread that has just come onto the list.
    lemma Unarmed(u: nat)
      requires RegsValid() && u < |regs| && SlotsDistinct(points.contents, hw) && forall s | 0 <= s < |armedAt| :: armedAt[s] < changes
      ensures u < MAX_THREADS && since[u] == changes && RegsClear(regs[u]) ==> ThreadAccounted(u)
    {
      if RegsClear(regs[u]) {
        NewThreadMatchesIff(regs[u], points.contents, hw);
        assert since[u] == changes ==> SlotsSince(armedAt, since[u]) == {};
      }
    }

    method ThreadStarts()
      requires Valid() && forall s | 0 <= s < |armedAt| :: armedAt[s] < changes
      modifies this`regs, this`since
      ensures Valid() && Aged()
    {
      assert RegsClear(CLEAR_REGS) && forall s: nat | s < 16 :: !CLEAR_REGS.EnabledSlot(s);
      regs, since := regs + [CLEAR_REGS], since + [changes];
      if accounted {
        forall u | 0 <= u < |regs| ensures ThreadAccounted(u) {
          assert u < |old(regs)| ==> old(ThreadAccounted(u));
          Unarmed(u);
        }
      }
    }

    method DisableAll()
      requires Valid()
      modifies this`accounted, points`contents, points.cells
      ensures Valid() && |points.contents| == |old(points.contents)|
      ensures forall i | 0 <= i < |points.contents| :: points.contents[i] == old(points.contents)[i].(enabled := false)
    {
      accounted := false;
      for i := 0 to points.count
        invariant Valid() && !accounted && |points.contents| == |old(points.contents)|
        invariant forall k | 0 <= k < i :: points.contents[k] == old(points.contents)[k].(enabled := false)
        invariant forall k | i <= k < |points.contents| :: points.contents[k] == old(points.contents)[k]
      {
        points.Set(i, points.Get(i).(enabled := false));
      }
    }

    method Clear()
      requires Valid()
      modifies this`accounted, points, points.cells
      ensures Valid() && points.contents == []
    {
      accounted := false;
      points.Clear();
    }

    /** A new process has one thread, with no watchpoint armed. */
    method ProcessStarted()
      requires Valid() && points.contents == []
      modifies this`regs, this`since, this`accounted, this`clear
      ensures Valid() && |regs| == 1 && accounted
    {
      assert RegsClear(CLEAR_REGS) && forall s: nat | s < 16 :: !CLEAR_REGS.EnabledSlot(s);
      regs, since, accounted, clear := [CLEAR_REGS], [changes], true, true;
      assert SlotsDistinct(points.contents, hw);
      assert ThreadAccounted(0);
    }

    /** Remember a watched value; slots and encodings do not depend on it. */
    method RecordValue(i: nat, value: int)
      requires Valid() && i < points.count
      modifies points`contents, points.cells
      ensures Valid() && |points.contents| == |old(points.contents)|
      ensures points.contents == old(points.contents)[i := old(points.contents)[i].(lastValue := value, hasLastValue := true)]
      ensures old(InStep()) ==> InStep()
    {
      ghost var table := points.contents;
      var wp := points.Get(i).(lastValue := value, hasLastValue := true);
      points.Set(i, wp);
      if old(Live()) {
        assert SlotsDistinct(points.contents, hw);
        forall t, armed | 0 <= t < |regs| && RegsMatch(regs[t], table, hw, armed) ensures RegsMatch(regs[t], points.contents, hw, armed) {
          SameOwnersMatch(regs[t], table, points.contents, hw, armed);
        }
        forall t | 0 <= t < |regs| ensures accounted ==> ThreadAccounted(t) {
          assert accounted ==> old(ThreadAccounted(t));
        }
      }
    }
  }
}

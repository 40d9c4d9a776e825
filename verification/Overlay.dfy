/** Breakpoint entries and the text they patch, as values (src/breakpoint.c). */
module Overlay {
  import opened Common
  import opened Machine
  import opened Slots
  import opened WatchEncoding

  datatype Breakpoint = Breakpoint(addr: Addr, saved: Word, enabled: bool)

  const NO_BREAKPOINT := Breakpoint(0, 0, false)

  type Table = seq<Breakpoint>

  predicate MatchesPc(pc: Addr, bp: Breakpoint) {
    bp.enabled && bp.addr == pc
  }

  ghost predicate ArmedAt(table: Table, a: Addr) {
    exists i :: 0 <= i < |table| && MatchesPc(a, table[i])
  }

  ghost predicate DisabledAt(table: Table, a: Addr) {
    exists i :: 0 <= i < |table| && !table[i].enabled && table[i].addr == a
  }

  ghost predicate Listed(table: Table, a: Addr) {
    exists i :: 0 <= i < |table| && table[i].addr == a
  }

  ghost predicate Distinct(table: Table) {
    forall i, j :: 0 <= i < j < |table| ==> table[i].addr != table[j].addr
  }

  /** Each enabled entry saved the program's own word or, at an address patched
      twice, a trap. Holds of every table, duplicates included. */
  ghost predicate SavedSound(prog: Program, table: Table) {
    forall i | 0 <= i < |table| :: table[i].addr in prog.text && (table[i].enabled ==> SavedWordSound(prog, table[i]))
  }

  ghost predicate SavedWordSound(prog: Program, bp: Breakpoint) {
    bp.addr in prog.text && (bp.saved == prog.text[bp.addr] || bp.saved == TRAP)
  }

  /** The text is the program's own with `BRK` exactly at the enabled entries'
      addresses, and each enabled entry saved the original word. */
  ghost predicate IsOverlay(prog: Program, text: Text, table: Table) {
    Distinct(table) &&
    text.Keys == prog.text.Keys &&
    (forall a | a in text :: text[a] == if ArmedAt(table, a) then TRAP else prog.text[a]) &&
    (forall i | 0 <= i < |table| && table[i].enabled ::
      table[i].addr in prog.text && table[i].saved == prog.text[table[i].addr])
  }

  /** Disabled entries sit at `pc` only. */
  ghost predicate DisabledOnlyAt(table: Table, pc: Addr) {
    forall i | 0 <= i < |table| :: table[i].enabled || table[i].addr == pc
  }

  /** cdbg_bp_enable on a disabled entry of the table keeps the overlay. */
  lemma EnableKeepsOverlay(prog: Program, text: Text, table: Table, i: nat)
    requires IsOverlay(prog, text, table)
    requires i < |table| && !table[i].enabled && table[i].addr in text
    ensures var a := table[i].addr;
            IsOverlay(prog, text[a := TRAP], table[i := Breakpoint(a, text[a], true)])
  {
    var addr := table[i].addr;
    var bp := Breakpoint(addr, text[addr], true);
    var table' := table[i := bp];
    assert !ArmedAt(table, addr);
    assert MatchesPc(addr, table'[i]);
    forall a | a in text ensures a != addr ==> ArmedAt(table', a) == ArmedAt(table, a) {
      if a != addr && ArmedAt(table, a) {
        var j :| 0 <= j < |table| && MatchesPc(a, table[j]);
        assert table'[j] == table[j];
      }
      if a != addr && ArmedAt(table', a) {
        var j :| 0 <= j < |table'| && MatchesPc(a, table'[j]);
        assert table'[j] == table[j];
      }
    }
  }

  /** What a disabled entry saved does not matter. */
  lemma DisabledEntryKeepsOverlay(prog: Program, text: Text, table: Table, i: nat, bp: Breakpoint)
    requires IsOverlay(prog, text, table)
    requires i < |table| && !table[i].enabled && !bp.enabled && bp.addr == table[i].addr
    ensures IsOverlay(prog, text, table[i := bp])
  {
    forall a ensures ArmedAt(table[i := bp], a) == ArmedAt(table, a) {
      if ArmedAt(table, a) {
        var j :| 0 <= j < |table| && MatchesPc(a, table[j]);
        assert table[i := bp][j] == table[j];
      }
    }
  }

  /** cdbg_bp_disable on an enabled entry of the table keeps the overlay. */
  lemma DisableKeepsOverlay(prog: Program, text: Text, table: Table, i: nat)
    requires IsOverlay(prog, text, table)
    requires i < |table| && table[i].enabled
    ensures IsOverlay(prog, text[table[i].addr := table[i].saved], table[i := table[i].(enabled := false)])
  {
    var addr := table[i].addr;
    var table' := table[i := table[i].(enabled := false)];
    forall j | 0 <= j < |table'| ensures !MatchesPc(addr, table'[j]) {
      assert j != i ==> table'[j] == table[j];
    }
    assert !ArmedAt(table', addr);
    forall a | a in text && a != addr ensures ArmedAt(table', a) == ArmedAt(table, a) {
      if ArmedAt(table, a) {
        var j :| 0 <= j < |table| && MatchesPc(a, table[j]);
        assert table'[j] == table[j];
      }
      if ArmedAt(table', a) {
        var j :| 0 <= j < |table'| && MatchesPc(a, table'[j]);
        assert table'[j] == table[j];
      }
    }
  }

  /** A new breakpoint at an address no entry has keeps the overlay. */
  lemma AppendKeepsOverlay(prog: Program, text: Text, table: Table, addr: Addr)
    requires IsOverlay(prog, text, table)
    requires addr in text && !Listed(table, addr)
    ensures IsOverlay(prog, text[addr := TRAP], table + [Breakpoint(addr, text[addr], true)])
  {
    var table' := table + [Breakpoint(addr, text[addr], true)];
    assert MatchesPc(addr, table'[|table|]);
    assert !ArmedAt(table, addr);
    forall a | a in text && a != addr ensures ArmedAt(table', a) == ArmedAt(table, a) {
      if ArmedAt(table, a) {
        var j :| 0 <= j < |table| && MatchesPc(a, table[j]);
        assert table'[j] == table[j];
      }
    }
  }

  /** Dropping a disabled entry keeps the overlay. */
  lemma RemoveKeepsOverlay(prog: Program, text: Text, table: Table, i: nat)
    requires IsOverlay(prog, text, table)
    requires i < |table| && !table[i].enabled
    ensures IsOverlay(prog, text, RemoveAt(table, i))
  {
    var table' := RemoveAt(table, i);
    forall a ensures ArmedAt(table', a) == ArmedAt(table, a) {
      if ArmedAt(table, a) {
        var j :| 0 <= j < |table| && MatchesPc(a, table[j]);
        assert table[j] == table'[if j < i then j else j - 1];
      }
      if ArmedAt(table', a) {
        var j :| 0 <= j < |table'| && MatchesPc(a, table'[j]);
        assert table'[j] == table[if j < i then j else j + 1];
      }
    }
  }

  ghost predicate SameAddrs(table: Table, table': Table) {
    |table'| == |table| && forall i | 0 <= i < |table| :: table'[i].addr == table[i].addr
  }

  /** `table'` is `table` after re-enabling the entries that are not at `pc`. */
  ghost predicate Rearmed(table: Table, table': Table, pc: Addr) {
    |table'| == |table| && forall i | 0 <= i < |table| :: RearmedEntry(table[i], table'[i], pc)
  }

  predicate RearmedEntry(bp: Breakpoint, bp': Breakpoint, pc: Addr) {
    if bp.enabled || bp.addr == pc then bp' == bp else bp'.addr == bp.addr && bp'.enabled
  }

  ghost predicate NoneEnabled(table: Table) {
    forall i | 0 <= i < |table| :: !table[i].enabled
  }

  ghost predicate AllArmed(table: Table) {
    forall i | 0 <= i < |table| :: table[i].enabled
  }

  /** The native instructions number `lo` up to `hi` were none of those at the
      addresses the table lists. */
  ghost predicate NoneMissed(prog: Program, table: Table, lo: nat, hi: nat) {
    forall k: nat | lo <= k < hi :: AwayFrom(table, Native(prog, k))
  }

  ghost predicate AwayFrom(table: Table, o: Outcome) {
    o.Next? && !Listed(table, o.cpu.pc)
  }

  /** While every entry is armed, no run of the debuggee gets past one. */
  lemma ArmedRunMissesNone(prog: Program, text: Text, dr: DebugRegs, base: Text, table: Table, lo: nat, hi: nat)
    requires IsOverlay(prog, base, table) && AllArmed(table)
    requires forall a | a in base && base[a] == TRAP :: a in text && text[a] == TRAP
    requires RanUntrapped(prog, text, dr, lo, hi)
    ensures NoneMissed(prog, table, lo, hi)
  {
    forall k: nat | lo <= k < hi ensures AwayFrom(table, Native(prog, k)) {
      var o := Native(prog, k);
      assert UntrappedAt(prog, text, dr, o);
      forall i | 0 <= i < |table| ensures table[i].addr != o.cpu.pc {
        assert MatchesPc(table[i].addr, table[i]);
        assert base[table[i].addr] == TRAP;
      }
    }
  }

  lemma NoneMissedDependsOnAddrs(prog: Program, table: Table, table': Table, lo: nat, hi: nat)
    requires SameAddrs(table, table') && NoneMissed(prog, table, lo, hi)
    ensures NoneMissed(prog, table', lo, hi)
  {
    forall k: nat | lo <= k < hi ensures AwayFrom(table', Native(prog, k)) {
      assert AwayFrom(table, Native(prog, k));
      forall i | 0 <= i < |table'| ensures table'[i].addr != Native(prog, k).cpu.pc {
        assert table[i].addr == table'[i].addr;
      }
    }
  }

  /** The text with a planted temporary breakpoint taken out again. */
  ghost function WithoutTemp(text: Text, temp: Option<Breakpoint>): Text {
    if temp.None? then text else text[temp.value.addr := temp.value.saved]
  }

  /** The text is the program's own with `BRK` exactly at the enabled entries and
      at the temporary breakpoint; no disabled entry is at the latter. */
  ghost predicate IsExact(prog: Program, text: Text, table: Table, temp: Option<Breakpoint>) {
    IsOverlay(prog, WithoutTemp(text, temp), table) &&
    (temp.Some? ==> temp.value.addr in text && text[temp.value.addr] == TRAP && !DisabledAt(table, temp.value.addr))
  }

  lemma EnableKeepsExact(prog: Program, text: Text, table: Table, temp: Option<Breakpoint>, i: nat)
    requires IsExact(prog, text, table, temp)
    requires i < |table| && !table[i].enabled && table[i].addr in text
    ensures var a := table[i].addr;
            IsExact(prog, text[a := TRAP], table[i := Breakpoint(a, text[a], true)], temp)
  {
    var a := table[i].addr;
    var table' := table[i := Breakpoint(a, text[a], true)];
    assert DisabledAt(table, a);
    EnableKeepsOverlay(prog, WithoutTemp(text, temp), table, i);
    if temp.Some? {
      assert WithoutTemp(text[a := TRAP], temp) == WithoutTemp(text, temp)[a := TRAP];
      forall k | 0 <= k < |table'| ensures table'[k].enabled || table'[k].addr != temp.value.addr {
        assert k != i ==> table'[k] == table[k];
      }
    }
  }

  lemma DisabledEntryKeepsExact(prog: Program, text: Text, table: Table, temp: Option<Breakpoint>, i: nat, bp: Breakpoint)
    requires IsExact(prog, text, table, temp)
    requires i < |table| && !table[i].enabled && !bp.enabled && bp.addr == table[i].addr
    ensures IsExact(prog, text, table[i := bp], temp)
  {
    DisabledEntryKeepsOverlay(prog, WithoutTemp(text, temp), table, i, bp);
    var table' := table[i := bp];
    if temp.Some? {
      forall k | 0 <= k < |table'| ensures table'[k].enabled || table'[k].addr != temp.value.addr {
        assert k != i ==> table'[k] == table[k];
        assert k == i ==> DisabledAt(table, table[i].addr);
      }
    }
  }

  lemma ExactRunMissesNone(prog: Program, text: Text, dr: DebugRegs, table: Table, temp: Option<Breakpoint>, lo: nat, hi: nat)
    requires IsExact(prog, text, table, temp) && AllArmed(table)
    requires RanUntrapped(prog, text, dr, lo, hi)
    ensures NoneMissed(prog, table, lo, hi)
  {
    ArmedRunMissesNone(prog, text, dr, WithoutTemp(text, temp), table, lo, hi);
  }

  /** Re-arming after the step off a disabled breakpoint: everything is armed
      exactly when there was none or the step moved the pc. */
  lemma RearmedAfterStep(table: Table, table': Table, pc: Addr, pc': Addr)
    requires DisabledOnlyAt(table, pc) && Rearmed(table, table', pc')
    ensures DisabledOnlyAt(table', pc')
    ensures AllArmed(table') <==> !DisabledAt(table, pc) || pc' != pc
  {
    if DisabledAt(table, pc) && pc' == pc {
      var i :| 0 <= i < |table| && !table[i].enabled && table[i].addr == pc;
      assert RearmedEntry(table[i], table'[i], pc');
    }
    forall i | 0 <= i < |table'| ensures table'[i].enabled || table'[i].addr == pc' {
      assert RearmedEntry(table[i], table'[i], pc');
    }
    if !DisabledAt(table, pc) || pc' != pc {
      forall i | 0 <= i < |table'| ensures table'[i].enabled {
        assert RearmedEntry(table[i], table'[i], pc');
        assert table[i].enabled || table[i].addr == pc;
      }
    }
  }

  lemma RestoredAtDisabled(prog: Program, text: Text, table: Table, temp: Option<Breakpoint>, a: Addr)
    requires IsExact(prog, text, table, temp) && DisabledAt(table, a) && a in prog.text
    ensures a in text && text[a] == prog.text[a]
  {
    var i :| 0 <= i < |table| && !table[i].enabled && table[i].addr == a;
    forall j | 0 <= j < |table| ensures !MatchesPc(a, table[j]) {
      assert j != i && table[j].addr == a ==> false by {
        assert i < j || j <= i;
      }
    }
    assert !ArmedAt(table, a);
    assert temp.Some? ==> temp.value.addr != a;
  }

  /** Planting a temporary breakpoint, on top of an enabled entry or not. */
  lemma PlantKeepsExact(prog: Program, text: Text, table: Table, a: Addr)
    requires IsExact(prog, text, table, None) && a in text && !DisabledAt(table, a)
    ensures IsExact(prog, text[a := TRAP], table, Some(Breakpoint(a, text[a], true)))
  {
    assert text[a := TRAP][a := text[a]] == text;
  }

  /** Disarming the entry at an address leaves the original word there and no
      armed entry. */
  lemma HitRestores(prog: Program, text: Text, table: Table, i: nat)
    requires IsExact(prog, text, table, None) && i < |table| && table[i].enabled
    ensures var table' := table[i := table[i].(enabled := false)];
            DisabledAt(table', table[i].addr) && !ArmedAt(table', table[i].addr)
    ensures table[i].addr in text && table[i].saved == prog.text[table[i].addr]
  {
    var table' := table[i := table[i].(enabled := false)];
    assert !table'[i].enabled && table'[i].addr == table[i].addr;
    forall j | 0 <= j < |table'| ensures !MatchesPc(table[i].addr, table'[j]) {
      assert j != i ==> table'[j] == table[j] && table[j].addr != table[i].addr;
    }
  }

  lemma StoppedAgain(table: Table, table': Table, pc: Addr)
    requires Rearmed(table, table', pc)
    ensures DisabledOnlyAt(table', pc)
    ensures AllArmed(table) ==> AllArmed(table')
  {
    forall i | 0 <= i < |table'| ensures table'[i].enabled || table'[i].addr == pc {
      assert RearmedEntry(table[i], table'[i], pc);
    }
    forall i | 0 <= i < |table'| ensures AllArmed(table) ==> table'[i].enabled {
      assert RearmedEntry(table[i], table'[i], pc);
    }
  }

  lemma NoneMissedJoins(prog: Program, table: Table, table': Table, lo: nat, mid: nat, hi: nat)
    requires SameAddrs(table, table') && NoneMissed(prog, table, lo, mid) && NoneMissed(prog, table, mid, hi)
    ensures NoneMissed(prog, table', lo, hi)
  {
    forall k: nat | lo <= k < hi ensures AwayFrom(table, Native(prog, k)) {}
    NoneMissedDependsOnAddrs(prog, table, table', lo, hi);
  }

  /** How many native instructions a continue from this state, with these debug
      registers, runs before PT_CONTINUE: the one under a disarmed breakpoint there. */
  ghost function StepsOffAt(prog: Program, dr: DebugRegs, table: Table, c: Cpu): nat {
    if DisabledAt(table, c.pc) && UntrappedAt(prog, prog.text, dr, Next(c)) then 1 else 0
  }

  /** Continuing from this state after `n` instructions leaves no breakpoint disarmed:
      none is at the pc, or the instruction under it runs and moves the pc. */
  ghost predicate StepsAwayAt(prog: Program, dr: DebugRegs, table: Table, c: Cpu, n: nat) {
    DisabledAt(table, c.pc) ==>
      var o := Native(prog, n + StepsOffAt(prog, dr, table, c));
      o.Next? ==> o.cpu.pc != c.pc
  }

  /** At a disarmed breakpoint on an instruction, that is so exactly when the instruction
      touches nothing watched and does not keep the pc. */
  lemma StepsAwayIff(prog: Program, dr: DebugRegs, table: Table, c: Cpu, n: nat)
    requires DisabledAt(table, c.pc) && Fetchable(prog.text, c.pc) && Native(prog, n) == Next(c)
    ensures StepsAwayAt(prog, dr, table, c, n) <==>
            !Touched(prog, dr, c) && var o := prog.isa(prog.text[c.pc], c); o.Next? ==> o.cpu.pc != c.pc
  {
    assert Native(prog, n + 1) == StepNative(prog, c);
  }

  /** One step runs past nothing but the entry at the pc. */
  lemma StepPassesNone(prog: Program, table: Table, table': Table, pc: Addr, off: nat, n: nat, n': nat)
    requires DisabledOnlyAt(table, pc) && SameAddrs(table, table')
    requires if DisabledAt(table, pc) then n' <= n + off else off == 0
    requires AllArmed(table) ==> NoneMissed(prog, table, n, n')
    ensures NoneMissed(prog, table', n + off, n')
  {
    if !DisabledAt(table, pc) {
      assert AllArmed(table);
      NoneMissedDependsOnAddrs(prog, table, table', n, n');
    }
  }

  /** A program that branches to itself, stopped at the breakpoint hit there. */
  lemma SelfBranchStays(a: Addr, word: Word, dr: DebugRegs)
    requires word != TRAP
    ensures var prog := Program((w, c) => Next(c), (w, c) => {}, map[a := word], Cpu(a, map[]));
            var table := [Breakpoint(a, word, false)];
            IsExact(prog, prog.text, table, None) && DisabledOnlyAt(table, a) && DisabledAt(table, a)
            && prog.isa(word, prog.start) == Next(prog.start) && !StepsAwayAt(prog, dr, table, prog.start, 0)
  {
    var prog := Program((w, c) => Next(c), (w, c) => {}, map[a := word], Cpu(a, map[]));
    var table := [Breakpoint(a, word, false)];
    assert !table[0].enabled && table[0].addr == a;
    assert Native(prog, 0) == Next(prog.start);
    assert Native(prog, 1) == Next(prog.start);
    assert StepsOffAt(prog, dr, table, prog.start) == 1;
  }

  lemma RemoveKeepsExact(prog: Program, text: Text, table: Table, i: nat)
    requires IsExact(prog, text, table, None) && i < |table| && !table[i].enabled
    ensures IsExact(prog, text, RemoveAt(table, i), None)
  {
    RemoveKeepsOverlay(prog, text, table, i);
  }

  /** With no breakpoints the exact text is the program's own: this is what
      `del all` leaves. */
  lemma EmptyTableIsOriginal(prog: Program, text: Text)
    ensures IsExact(prog, text, [], None) <==> text == prog.text
  {
  }

  ghost predicate Among(table': Table, table: Table) {
    forall bp | bp in table' :: bp in table
  }

  lemma RemovedAreAmong(table: Table, i: nat, bp: Breakpoint)
    requires i < |table|
    ensures RemoveAt(table[i := bp], i) == RemoveAt(table, i) && Among(RemoveAt(table, i), table)
  {
  }

  lemma AmongKeeps(table': Table, table: Table, pc: Addr)
    requires Among(table', table)
    ensures NoneEnabled(table) ==> NoneEnabled(table')
    ensures DisabledOnlyAt(table, pc) ==> DisabledOnlyAt(table', pc)
  {
    forall i | 0 <= i < |table'| ensures table'[i] in table {
      assert table'[i] in table';
    }
  }

  // Breakpoints repeated at one address.

  /** What deleting `bp` writes. */
  function Restored(text: Text, bp: Breakpoint): Text {
    if bp.enabled then text[bp.addr := bp.saved] else text
  }

  /** Positions at which to delete the `n` entries of a table, one after another. */
  predicate IsOrder(order: seq<nat>, n: nat) {
    |order| == n && forall k | 0 <= k < n :: order[k] < n - k
  }

  /** The text after deleting every entry of the table in some order. */
  function Undone(text: Text, table: Table, order: seq<nat>): Text
    requires IsOrder(order, |table|)
    decreases |table|
  {
    if table == [] then text
    else Undone(Restored(text, table[order[0]]), RemoveAt(table, order[0]), order[1..])
  }

  /** Wherever no enabled entry is, the text is the program's, and so is what every
      enabled entry saved. */
  ghost predicate IsUndoable(prog: Program, text: Text, table: Table) {
    text.Keys == prog.text.Keys &&
    (forall a | a in text && text[a] != prog.text[a] :: ArmedAt(table, a)) &&
    (forall i | 0 <= i < |table| && table[i].enabled :: table[i].addr in text && table[i].saved == prog.text[table[i].addr])
  }

  lemma RestoredIsUndoable(prog: Program, text: Text, table: Table, i: nat)
    requires IsUndoable(prog, text, table) && i < |table|
    ensures IsUndoable(prog, Restored(text, table[i]), RemoveAt(table, i))
  {
    var table' := RemoveAt(table, i);
    var text' := Restored(text, table[i]);
    forall a | a in text' && text'[a] != prog.text[a] ensures ArmedAt(table', a) {
      assert text[a] != prog.text[a];
      var j :| 0 <= j < |table| && MatchesPc(a, table[j]);
      assert table[j] == table'[if j < i then j else j - 1];
    }
    forall k | 0 <= k < |table'| ensures table'[k] == table[if k < i then k else k + 1] {}
  }

  lemma {:induction false} UndoableIsUndone(prog: Program, text: Text, table: Table, order: seq<nat>)
    requires IsUndoable(prog, text, table) && IsOrder(order, |table|)
    ensures Undone(text, table, order) == prog.text
    decreases |table|
  {
    if table == [] {
      assert forall a | a in text :: text[a] == prog.text[a];
    } else {
      RestoredIsUndoable(prog, text, table, order[0]);
      UndoableIsUndone(prog, Restored(text, table[order[0]]), RemoveAt(table, order[0]), order[1..]);
    }
  }

  function FirstToLast(n: nat): (order: seq<nat>)
    ensures IsOrder(order, n)
  {
    seq(n, _ => 0)
  }

  /** Deleting first to last leaves what the last entry saved. */
  lemma {:induction false} LastWins(text: Text, table: Table)
    requires table != [] && table[|table| - 1].enabled
    ensures var last := table[|table| - 1];
            var text' := Undone(text, table, FirstToLast(|table|));
            last.addr in text' && text'[last.addr] == last.saved
    decreases |table|
  {
    var n := |table|;
    assert FirstToLast(n)[1..] == FirstToLast(n - 1);
    if n > 1 {
      assert RemoveAt(table, 0)[n - 2] == table[n - 1];
      LastWins(Restored(text, table[0]), RemoveAt(table, 0));
    } else {
      assert RemoveAt(table, 0) == [];
    }
  }

  /** After `break` at `addr`, deleting the breakpoints in every order restores the
      original text exactly when no enabled breakpoint was there before. */
  lemma RepeatIsUndoneIff(prog: Program, text: Text, table: Table, addr: Addr)
    requires IsOverlay(prog, text, table) && addr in text && prog.text[addr] != TRAP
    ensures var text', table' := text[addr := TRAP], table + [Breakpoint(addr, text[addr], true)];
            (forall order | IsOrder(order, |table'|) :: Undone(text', table', order) == prog.text) <==> !ArmedAt(table, addr)
  {
    var text', table' := text[addr := TRAP], table + [Breakpoint(addr, text[addr], true)];
    if ArmedAt(table, addr) {
      LastWins(text', table');
      assert IsOrder(FirstToLast(|table'|), |table'|);
    } else {
      assert MatchesPc(addr, table'[|table|]);
      forall a | a in text' && text'[a] != prog.text[a] ensures ArmedAt(table', a) {
        if a != addr {
          var j :| 0 <= j < |table| && MatchesPc(a, table[j]);
          assert table'[j] == table[j];
        }
      }
      forall order | IsOrder(order, |table'|) ensures Undone(text', table', order) == prog.text {
        UndoableIsUndone(prog, text', table', order);
      }
    }
  }

  function LastToFirst(n: nat): (order: seq<nat>)
    ensures IsOrder(order, n)
  {
    seq(n, k requires 0 <= k < n => n - 1 - k)
  }

  /** What the first of the enabled entries at `a` saved. */
  function FirstSaved(table: Table, a: Addr): Option<Word> {
    if table == [] then None
    else if MatchesPc(a, table[0]) then Some(table[0].saved)
    else FirstSaved(table[1..], a)
  }

  lemma {:induction false} FirstSavedFromLast(table: Table, a: Addr)
    requires table != []
    ensures var n := |table| - 1;
            FirstSaved(table, a) ==
            if FirstSaved(table[..n], a).Some? then FirstSaved(table[..n], a)
            else if MatchesPc(a, table[n]) then Some(table[n].saved) else None
  {
    var n := |table| - 1;
    if n > 0 {
      FirstSavedFromLast(table[1..], a);
      assert table[..n][1..] == table[1..][..n - 1];
      assert table[1..][n - 1] == table[n];
    }
  }

  lemma UndoneStep(text: Text, table: Table)
    requires table != []
    ensures var n := |table| - 1;
            Undone(text, table, LastToFirst(n + 1)) == Undone(Restored(text, table[n]), table[..n], LastToFirst(n))
  {
    var n := |table| - 1;
    assert RemoveAt(table, n) == table[..n];
    assert LastToFirst(n + 1)[1..] == LastToFirst(n);
  }

  /** Deleting last to first leaves at each address what the first enabled entry there
      saved, and the text as it is where none is. */
  lemma {:induction false} FirstWins(text: Text, table: Table, a: Addr)
    ensures var text' := Undone(text, table, LastToFirst(|table|));
            match FirstSaved(table, a)
            case Some(w) => a in text' && text'[a] == w
            case None => (a in text' <==> a in text) && (a in text ==> text'[a] == text[a])
    decreases |table|
  {
    if table != [] {
      var n := |table| - 1;
      UndoneStep(text, table);
      FirstSavedFromLast(table, a);
      FirstWins(Restored(text, table[n]), table[..n], a);
    }
  }

  /** The first enabled entry at `a` saved the original word or, where none is
      enabled, the text already has it. */
  predicate ComesBack(prog: Program, text: Text, table: Table, a: Addr)
    requires a in prog.text && a in text
  {
    match FirstSaved(table, a)
    case Some(w) => w == prog.text[a]
    case None => text[a] == prog.text[a]
  }

  /** `del all`, whatever was repeated, hit or re-armed before: the original text is
      back if and only if every word of it comes back. */
  lemma DelAllRestoresIff(prog: Program, text: Text, table: Table)
    requires text.Keys == prog.text.Keys && forall i | 0 <= i < |table| :: table[i].addr in text
    ensures Undone(text, table, LastToFirst(|table|)) == prog.text <==>
            forall a | a in prog.text :: ComesBack(prog, text, table, a)
  {
    var text' := Undone(text, table, LastToFirst(|table|));
    forall a: Addr ensures a in text' <==> a in prog.text {
      FirstWins(text, table, a);
      FirstSavedIsArmed(table, a);
    }
    forall a | a in prog.text ensures text'[a] == prog.text[a] <==> ComesBack(prog, text, table, a) {
      FirstWins(text, table, a);
    }
    assert text'.Keys == prog.text.Keys;
  }

  lemma {:induction false} FirstSavedIsArmed(table: Table, a: Addr)
    ensures FirstSaved(table, a).Some? <==> ArmedAt(table, a)
    ensures FirstSaved(table, a).Some? ==>
              exists i :: 0 <= i < |table| && MatchesPc(a, table[i]) && FirstSaved(table, a) == Some(table[i].saved)
  {
    if table != [] {
      FirstSavedIsArmed(table[1..], a);
      assert forall i | 0 <= i < |table[1..]| :: table[1..][i] == table[i + 1];
      assert forall i | 0 < i < |table| :: table[1..][i - 1] == table[i];
    }
  }

  lemma {:induction false} FirstSavedAt(table: Table, a: Addr, i: nat)
    requires i < |table| && MatchesPc(a, table[i]) && forall j | 0 <= j < i :: !MatchesPc(a, table[j])
    ensures FirstSaved(table, a) == Some(table[i].saved)
  {
    if i > 0 { FirstSavedAt(table[1..], a, i - 1); }
  }

  /** Right after `break`, at whatever address, `del all` restores the original text. */
  lemma RepeatThenDelAll(prog: Program, text: Text, table: Table, addr: Addr)
    requires IsOverlay(prog, text, table) && addr in text && forall i | 0 <= i < |table| :: table[i].addr in text
    ensures var text': Text := text[addr := TRAP];
            var table' := table + [Breakpoint(addr, text[addr], true)];
            Undone(text', table', LastToFirst(|table'|)) == prog.text
  {
    var bp := Breakpoint(addr, text[addr], true);
    var text': Text := text[addr := TRAP];
    var table' := table + [bp];
    assert table'[..|table|] == table;
    forall a | a in prog.text ensures ComesBack(prog, text', table', a) {
      FirstSavedFromLast(table', a);
      FirstSavedIsArmed(table, a);
    }
    assert text'.Keys == prog.text.Keys;
    DelAllRestoresIff(prog, text', table');
  }

  /** Nor is a breakpoint repeated where one was just hit a problem: it is hit before the
      debuggee moves on, both are re-armed in their order, and `del all` undoes them. */
  lemma RepeatWhereHitIsUndone(prog: Program, text: Text, table: Table, i: nat)
    requires IsOverlay(prog, text, table) && forall k | 0 <= k < |table| :: table[k].addr in text
    requires i < |table| && !table[i].enabled
    ensures var a := table[i].addr;
            var armed: Text := text[a := TRAP];
            var both := table[i := Breakpoint(a, text[a], true)] + [Breakpoint(a, armed[a], true)];
            Undone(armed, both, LastToFirst(|both|)) == prog.text
  {
    var a := table[i].addr;
    var armed: Text := text[a := TRAP];
    EnableKeepsOverlay(prog, text, table, i);
    RepeatThenDelAll(prog, armed, table[i := Breakpoint(a, text[a], true)], a);
    assert armed[a := TRAP] == armed;
  }

  /** But it is one that was repeated before the first of the two is hit: report_stop disarms the first entry at the pc and
      puts the original word back, the repeated one has saved the trap, and `del all`
      leaves it in the text. */
  lemma RepeatThenHitLeavesTrap(prog: Program, text: Text, table: Table, i: nat)
    requires IsOverlay(prog, text, table) && i < |table| && table[i].enabled
    requires table[i].addr in text && prog.text[table[i].addr] != TRAP
    ensures var a := table[i].addr;
            var again := table + [Breakpoint(a, text[a], true)];
            var text': Text := text[a := TRAP][a := table[i].saved];
            var hit := again[i := again[i].(enabled := false)];
            (forall j | 0 <= j < i :: !MatchesPc(a, again[j])) && MatchesPc(a, again[i])
            && text'[a] == prog.text[a] && Undone(text', hit, LastToFirst(|hit|)) != prog.text
  {
    var a, n := table[i].addr, |table|;
    var again := table + [Breakpoint(a, text[a], true)];
    var text': Text := text[a := TRAP][a := table[i].saved];
    var hit := again[i := again[i].(enabled := false)];
    assert ArmedAt(table, a) && text[a] == TRAP;
    forall j | 0 <= j < n ensures !MatchesPc(a, hit[j]) && (j < i ==> !MatchesPc(a, again[j])) {
      assert j != i ==> hit[j] == table[j] == again[j] && table[j].addr != a;
    }
    FirstSavedAt(hit, a, n);
    FirstWins(text', hit, a);
  }
}

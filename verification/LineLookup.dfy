/** The lookups over a loaded line table in src/lineno.c: linear scans that keep
    a best candidate. An entry pointer is a position in the table. */
module LineLookup {
  import opened Common

  datatype Entry = Entry(address: Addr, line: nat, file: string)

  datatype Lines = Lines(entries: seq<Entry>, slide: Addr) {
    // cdbg_lineno_runtime_addr of entry `i`
    function Runtime(i: nat): Addr
      requires i < |entries|
    {
      (entries[i].address + slide) % TWO_64
    }
  }

  /** The first of the entries with the greatest runtime address not above `pc`. */
  ghost predicate IsAtOrBelow(ln: Lines, pc: Addr, r: Option<nat>) {
    match r
    case None => forall i | 0 <= i < |ln.entries| :: ln.Runtime(i) > pc
    case Some(b) =>
      b < |ln.entries| && ln.Runtime(b) <= pc &&
      forall i | 0 <= i < |ln.entries| && ln.Runtime(i) <= pc ::
        ln.Runtime(i) < ln.Runtime(b) || (ln.Runtime(i) == ln.Runtime(b) && b <= i)
  }

  /** The slide moves an image as a whole: unless an address wraps, what is found at
      `pc + s` under slide `s` is what is found at `pc` without one. */
  lemma SlideMoves(entries: seq<Entry>, s: Addr, pc: Addr, r: Option<nat>)
    requires pc + s < TWO_64 && forall i | 0 <= i < |entries| :: entries[i].address + s < TWO_64
    ensures IsAtOrBelow(Lines(entries, s), pc + s, r) <==> IsAtOrBelow(Lines(entries, 0), pc, r)
  {
    var moved, still := Lines(entries, s), Lines(entries, 0);
    forall i | 0 <= i < |entries| ensures moved.Runtime(i) == still.Runtime(i) + s {
      assert entries[i].address + s < TWO_64;
    }
  }

  /** And so is the line that follows. */
  lemma SlideMovesNext(entries: seq<Entry>, s: Addr, pc: Addr, at: Option<nat>, next: Option<nat>)
    requires pc + s < TWO_64 && (forall i | 0 <= i < |entries| :: entries[i].address + s < TWO_64)
    requires at.Some? ==> at.value < |entries|
    ensures IsNextLine(Lines(entries, s), pc + s, at, next) <==> IsNextLine(Lines(entries, 0), pc, at, next)
  {
    if at.Some? {
      var moved, still := Lines(entries, s), Lines(entries, 0);
      forall i | 0 <= i < |entries| { FollowsMoves(entries, s, pc, at.value, i); }
      if IsNextLine(moved, pc + s, at, next) { SameFollowers(moved, pc + s, still, pc, at.value, next); }
      if IsNextLine(still, pc, at, next) { SameFollowers(still, pc, moved, pc + s, at.value, next); }
    }
  }

  lemma SameFollowers(ln: Lines, pc: Addr, ln': Lines, pc': Addr, c: nat, next: Option<nat>)
    requires ln'.entries == ln.entries && c < |ln.entries| && IsNextLine(ln, pc, Some(c), next)
    requires forall i | 0 <= i < |ln.entries| :: Follows(ln, pc, c, i) <==> Follows(ln', pc', c, i)
    ensures IsNextLine(ln', pc', Some(c), next)
  {
    forall i | 0 <= i < |ln.entries| && Follows(ln', pc', c, i) ensures Follows(ln, pc, c, i) {}
  }

  lemma FollowsMoves(entries: seq<Entry>, s: Addr, pc: Addr, c: nat, i: nat)
    requires c < |entries| && i < |entries| && pc + s < TWO_64 && entries[i].address + s < TWO_64
    ensures Follows(Lines(entries, s), pc + s, c, i) <==> Follows(Lines(entries, 0), pc, c, i)
  {
  }

  // cdbg_lineno_lookup_pc
  method LookupPc(ln: Lines, pc: Addr) returns (best: Option<nat>)
    ensures IsAtOrBelow(ln, pc, best)
  {
    best := None;
    for i := 0 to |ln.entries|
      invariant best.None? ==> forall k | 0 <= k < i :: ln.Runtime(k) > pc
      invariant best.Some? ==> best.value < i && ln.Runtime(best.value) <= pc
      invariant best.Some? ==> forall k | 0 <= k < i && ln.Runtime(k) <= pc ::
                  ln.Runtime(k) < ln.Runtime(best.value) || (ln.Runtime(k) == ln.Runtime(best.value) && best.value <= k)
    {
      var addr := ln.Runtime(i);
      if addr <= pc {
        if best.None? || addr > ln.Runtime(best.value) { best := Some(i); }
      }
    }
  }

  /** lineno_entry_at_pc, whatever its narrowing loop does, is the entry at or below
      the pc, if that has a line and the pc is at most 128 bytes (in 64-bit
      arithmetic) past it. */
  method EntryAtPc(ln: Lines, pc: Addr) returns (r: Option<nat>)
    ensures forall at: Option<nat> :: IsAtOrBelow(ln, pc, at) ==>
              r == if at.Some? && ln.entries[at.value].line != 0 && pc <= (ln.Runtime(at.value) + 128) % TWO_64 then at else None
  {
    r := LookupPc(ln, pc);
    OneAtOrBelow(ln, pc, r);
    if r.None? || ln.entries[r.value].line == 0 { return None; }

    var start := ln.Runtime(r.value);
    var limit := (start + 128) % TWO_64;
    var max: Addr := limit;
    for i := 0 to |ln.entries|
      invariant max <= limit && (pc <= limit ==> pc <= max)
    {
      var addr := ln.Runtime(i);
      if addr > start && addr < max { max := addr - 1; }
    }
    if pc > max { r := None; }
  }

  lemma OneAtOrBelow(ln: Lines, pc: Addr, r: Option<nat>)
    requires IsAtOrBelow(ln, pc, r)
    ensures forall at: Option<nat> :: IsAtOrBelow(ln, pc, at) ==> at == r
  {
    forall at: Option<nat> | IsAtOrBelow(ln, pc, at) ensures at == r {
      if at.Some? { assert ln.Runtime(at.value) <= pc; }
      if r.Some? { assert ln.Runtime(r.value) <= pc; }
    }
  }

  /** An entry in the last 128 bytes of the address space is never found. */
  lemma WindowWraps(ln: Lines, pc: Addr, b: nat)
    requires b < |ln.entries| && ln.Runtime(b) <= pc
    ensures pc <= (ln.Runtime(b) + 128) % TWO_64 <==> ln.Runtime(b) + 128 < TWO_64 && pc - ln.Runtime(b) <= 128
  {
  }

  predicate Contains(s: string, t: string) {
    exists i | 0 <= i <= |s| - |t| :: OccursAt(s, t, i)
  }

  predicate OccursAt(s: string, t: string, i: nat)
    requires i + |t| <= |s|
  {
    s[i..i + |t|] == t
  }

  /** What follows the last slash, or everything. */
  function BaseName(s: string): string {
    if s == "" || s[|s| - 1] == '/' then "" else BaseName(s[..|s| - 1]) + [s[|s| - 1]]
  }

  predicate FileMatches(file: string, filter: string) {
    filter == "" || Contains(file, filter) || BaseName(file) == filter
  }

  /** A filter matches exactly the paths it occurs in, whole paths and trailing parts
      of them included: the comparison with the base name never decides. */
  lemma MatchesIff(file: string, filter: string)
    ensures FileMatches(file, filter) <==> Contains(file, filter)
  {
    BaseNameIsSuffix(file);
    if filter == "" { assert OccursAt(file, filter, 0); }
    if BaseName(file) == filter { assert OccursAt(file, filter, |file| - |filter|); }
  }

  lemma {:induction false} BaseNameIsSuffix(s: string)
    ensures |BaseName(s)| <= |s| && s[|s| - |BaseName(s)|..] == BaseName(s)
  {
    if s != "" && s[|s| - 1] != '/' {
      var t := s[..|s| - 1];
      BaseNameIsSuffix(t);
      assert s[|s| - |BaseName(s)|..] == t[|t| - |BaseName(t)|..] + [s[|s| - 1]];
    }
  }

  lemma SuffixMatches(directory: string, name: string)
    ensures FileMatches(directory + name, name)
  {
    assert OccursAt(directory + name, name, |directory|);
  }

  lemma MatchesItself(file: string)
    ensures FileMatches(file, file)
  {
    assert OccursAt(file, file, 0);
  }

  predicate OnLine(e: Entry, filter: string, line: nat) {
    e.line == line && FileMatches(e.file, filter)
  }

  /** The first of the entries of a line with the least link address. */
  ghost predicate IsLineEntry(ln: Lines, filter: string, line: nat, r: Option<nat>) {
    match r
    case None => forall i | 0 <= i < |ln.entries| :: !OnLine(ln.entries[i], filter, line)
    case Some(m) =>
      m < |ln.entries| && OnLine(ln.entries[m], filter, line) &&
      forall i | 0 <= i < |ln.entries| && OnLine(ln.entries[i], filter, line) ::
        ln.entries[m].address < ln.entries[i].address || (ln.entries[m].address == ln.entries[i].address && m <= i)
  }

  // cdbg_lineno_lookup_line
  method LookupLine(ln: Lines, filter: string, line: nat) returns (best: Option<nat>)
    ensures IsLineEntry(ln, filter, line, best)
  {
    best := None;
    for i := 0 to |ln.entries|
      invariant best.None? ==> forall k | 0 <= k < i :: !OnLine(ln.entries[k], filter, line)
      invariant best.Some? ==> best.value < i && OnLine(ln.entries[best.value], filter, line)
      invariant best.Some? ==> forall k | 0 <= k < i && OnLine(ln.entries[k], filter, line) ::
                  ln.entries[best.value].address < ln.entries[k].address
                  || (ln.entries[best.value].address == ln.entries[k].address && best.value <= k)
    {
      var entry := ln.entries[i];
      if entry.line == line && FileMatches(entry.file, filter) {
        if best.None? || entry.address < ln.entries[best.value].address { best := Some(i); }
      }
    }
  }

  ghost predicate OneFile(ln: Lines, line: nat) {
    forall i, j | 0 <= i < |ln.entries| && 0 <= j < |ln.entries| && ln.entries[i].line == line && ln.entries[j].line == line ::
      ln.entries[i].file == ln.entries[j].file
  }

  /** cdbg_lineno_lookup_line_unique finds an entry exactly when the line occurs in
      one file only, and then the one any file at all would give. */
  method LookupLineUnique(ln: Lines, line: nat) returns (best: Option<nat>)
    ensures if OneFile(ln, line) then IsLineEntry(ln, "", line, best) else best == None
  {
    best := None;
    for i := 0 to |ln.entries|
      invariant best.None? ==> forall k | 0 <= k < i :: ln.entries[k].line != line
      invariant best.Some? ==> best.value < i && ln.entries[best.value].line == line
      invariant best.Some? ==> forall k | 0 <= k < i && ln.entries[k].line == line ::
                  ln.entries[k].file == ln.entries[best.value].file
                  && (ln.entries[best.value].address < ln.entries[k].address
                      || (ln.entries[best.value].address == ln.entries[k].address && best.value <= k))
    {
      var entry := ln.entries[i];
      if entry.line == line {
        if best.None? {
          best := Some(i);
        } else if entry.file != ln.entries[best.value].file {
          assert !OneFile(ln, line);
          return None;
        } else if entry.address < ln.entries[best.value].address {
          best := Some(i);
        }
      }
    }
  }

  /** What the unique lookup returns is what looking the line up in that entry's
      own file returns. */
  lemma UniqueAgrees(ln: Lines, line: nat, m: nat, r: Option<nat>)
    requires OneFile(ln, line) && IsLineEntry(ln, "", line, Some(m))
    requires IsLineEntry(ln, ln.entries[m].file, line, r)
    ensures r == Some(m)
  {
    var file := ln.entries[m].file;
    MatchesItself(file);
    forall i | 0 <= i < |ln.entries| ensures OnLine(ln.entries[i], file, line) <==> OnLine(ln.entries[i], "", line) {
      if ln.entries[i].line == line {
        assert ln.entries[i].file == file;
      }
    }
    assert OnLine(ln.entries[m], file, line);
  }

  predicate Follows(ln: Lines, pc: Addr, current: nat, i: nat)
    requires current < |ln.entries| && i < |ln.entries|
  {
    ln.Runtime(i) > pc && ln.entries[i].file == ln.entries[current].file && ln.entries[i].line != ln.entries[current].line
  }

  /** Given the entry `at` or below the pc: the first of the later entries of the
      same file and another line with the least link address. */
  ghost predicate IsNextLine(ln: Lines, pc: Addr, at: Option<nat>, next: Option<nat>)
    requires at.Some? ==> at.value < |ln.entries|
  {
    if at.None? then next.None?
    else if next.None? then forall i | 0 <= i < |ln.entries| :: !Follows(ln, pc, at.value, i)
    else
      next.value < |ln.entries| && Follows(ln, pc, at.value, next.value) &&
      forall i | 0 <= i < |ln.entries| && Follows(ln, pc, at.value, i) ::
        ln.entries[next.value].address < ln.entries[i].address
        || (ln.entries[next.value].address == ln.entries[i].address && next.value <= i)
  }

  // cdbg_lineno_lookup_next_line_after_pc
  method LookupNextLine(ln: Lines, pc: Addr) returns (next: Option<nat>)
    ensures forall at: Option<nat> :: IsAtOrBelow(ln, pc, at) ==> IsNextLine(ln, pc, at, next)
  {
    next := None;
    var current := LookupPc(ln, pc);
    OneAtOrBelow(ln, pc, current);
    if current.None? { return None; }
    var c := current.value;
    for i := 0 to |ln.entries|
      invariant next.None? ==> forall k | 0 <= k < i :: !Follows(ln, pc, c, k)
      invariant next.Some? ==> next.value < i && Follows(ln, pc, c, next.value)
      invariant next.Some? ==> forall k | 0 <= k < i && Follows(ln, pc, c, k) ::
                  ln.entries[next.value].address < ln.entries[k].address
                  || (ln.entries[next.value].address == ln.entries[k].address && next.value <= k)
    {
      var entry := ln.entries[i];
      if ln.Runtime(i) > pc && entry.file == ln.entries[c].file && entry.line != ln.entries[c].line {
        if next.None? || entry.address < ln.entries[next.value].address { next := Some(i); }
      }
    }
  }
}

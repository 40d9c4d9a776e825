/** `del <n> [n...]` and `delwatch <n> [n...]` on positions: collecting the
    numbers without repeats, sorting them, and what deleting them one at a time
    comes to (cmd_del and cmd_delwatch in src/debugger.c). */
module Deletion {
  import opened Slots
  import opened Common
  import opened Machine
  import opened Overlay

  /** The elements whose positions are not in `dead`, in order. */
  function Keep<T>(s: seq<T>, dead: set<nat>): (r: seq<T>)
    ensures |r| <= |s|
  {
    if s == [] then [] else
      var n := |s| - 1;
      Keep(s[..n], dead) + if n in dead then [] else [s[n]]
  }

  lemma {:induction false} KeepAll<T>(s: seq<T>, dead: set<nat>)
    requires forall d | d in dead :: d >= |s|
    ensures Keep(s, dead) == s
  {
    if s != [] { KeepAll(s[..|s| - 1], dead); }
  }

  lemma {:induction false} KeepSelects<T>(s: seq<T>, dead: set<nat>)
    ensures forall x | x in Keep(s, dead) :: x in s
  {
    if s != [] { KeepSelects(s[..|s| - 1], dead); }
  }

  /** Nothing below the least deleted position moves. */
  lemma {:induction false} KeepPrefix<T>(s: seq<T>, dead: set<nat>, d: nat)
    requires d < |s| && forall e | e in dead :: e > d
    ensures |Keep(s, dead)| > d && Keep(s, dead)[..d + 1] == s[..d + 1]
  {
    var n := |s| - 1;
    if d == n {
      KeepAll(s, dead);
    } else {
      KeepPrefix(s[..n], dead, d);
      var kept := Keep(s[..n], dead);
      assert Keep(s, dead) == kept + if n in dead then [] else [s[n]];
      assert Keep(s, dead)[..d + 1] == kept[..d + 1];
      assert s[..n][..d + 1] == s[..d + 1];
    }
  }

  lemma {:induction false} KeepHas<T>(s: seq<T>, dead: set<nat>, x: T)
    ensures x in Keep(s, dead) <==> exists i: nat :: i < |s| && i !in dead && s[i] == x
  {
    if s != [] {
      var n := |s| - 1;
      KeepHas(s[..n], dead, x);
      assert Keep(s, dead) == Keep(s[..n], dead) + if n in dead then [] else [s[n]];
      assert forall i: nat | i < n :: s[..n][i] == s[i];
      if x in Keep(s, dead) && x !in Keep(s[..n], dead) {
        assert n !in dead && s[n] == x;
      }
    }
  }

  /** One of the entries numbered `dead` is enabled at `a`. */
  ghost predicate Disarmed(table: Table, dead: set<nat>, a: Addr) {
    exists d: nat :: d in dead && d < |table| && MatchesPc(a, table[d])
  }

  /** `text'` is `text` with the program's own words back at the enabled addresses
      among the deleted entries, and nowhere else. */
  ghost predicate RestoredAt(prog: Program, text: Text, text': Text, table: Table, dead: set<nat>) {
    text'.Keys == text.Keys &&
    forall a | a in text && a in prog.text :: text'[a] == if Disarmed(table, dead, a) then prog.text[a] else text[a]
  }

  lemma ArmedIfKept(table: Table, dead: set<nat>, a: Addr)
    ensures ArmedAt(Keep(table, dead), a) <==> exists i: nat :: i < |table| && i !in dead && MatchesPc(a, table[i])
  {
    var kept := Keep(table, dead);
    if ArmedAt(kept, a) {
      var j :| 0 <= j < |kept| && MatchesPc(a, kept[j]);
      KeepHas(table, dead, kept[j]);
    }
    if i: nat :| i < |table| && i !in dead && MatchesPc(a, table[i]) {
      KeepHas(table, dead, table[i]);
      var j :| 0 <= j < |kept| && kept[j] == table[i];
      assert MatchesPc(a, kept[j]);
    }
  }

  /** Going from the overlay of a table to that of the entries kept of it restores
      exactly the words under the enabled entries deleted. */
  lemma DeletionRestores(prog: Program, text: Text, text': Text, table: Table, dead: set<nat>)
    requires IsOverlay(prog, text, table) && IsOverlay(prog, text', Keep(table, dead))
    ensures RestoredAt(prog, text, text', table, dead)
  {
    forall a | a in text && a in prog.text
      ensures text'[a] == if Disarmed(table, dead, a) then prog.text[a] else text[a]
    {
      ArmedIfKept(table, dead, a);
      assert forall i, j :: 0 <= i < |table| && 0 <= j < |table| && MatchesPc(a, table[i]) && MatchesPc(a, table[j]) ==> i == j;
    }
  }

  lemma RemoveFromFront<T>(front: seq<T>, back: seq<T>, d: nat)
    requires d < |front|
    ensures RemoveAt(front + back, d) == RemoveAt(front, d) + back
  {
  }

  /** Shifting out a position below all those deleted so far is deleting it from
      the original. */
  lemma {:induction false} KeepOneMore<T>(s: seq<T>, dead: set<nat>, d: nat)
    requires d < |s| && forall e | e in dead :: e > d
    ensures d < |Keep(s, dead)| && RemoveAt(Keep(s, dead), d) == Keep(s, dead + {d})
  {
    var n := |s| - 1;
    KeepPrefix(s, dead, d);
    if d == n {
      KeepAll(s, dead);
      KeepAll(s[..n], dead + {d});
    } else {
      KeepOneMore(s[..n], dead, d);
      var kept := Keep(s[..n], dead);
      assert n in dead <==> n in dead + {d};
      var last := if n in dead then [] else [s[n]];
      RemoveFromFront(kept, last, d);
      calc {
        RemoveAt(Keep(s, dead), d);
        RemoveAt(kept + last, d);
        RemoveAt(kept, d) + last;
        Keep(s[..n], dead + {d}) + last;
        Keep(s, dead + {d});
      }
    }
  }

  predicate DistinctNats(s: seq<nat>) {
    forall i, j :: 0 <= i < j < |s| ==> s[i] != s[j]
  }

  function Members(s: seq<nat>): set<nat> {
    set x | x in s
  }

  lemma {:induction false} DistinctBelow(s: seq<nat>, bound: nat)
    requires DistinctNats(s) && forall x | x in s :: x < bound
    ensures |s| <= bound
  {
    DistinctCardinality(s);
    BelowCardinality(Members(s), bound);
  }

  lemma {:induction false} DistinctCardinality(s: seq<nat>)
    requires DistinctNats(s)
    ensures |Members(s)| == |s|
  {
    if s != [] {
      var n := |s| - 1;
      DistinctCardinality(s[..n]);
      assert s == s[..n] + [s[n]];
      assert Members(s) == Members(s[..n]) + {s[n]};
    }
  }

  lemma {:induction false} BelowCardinality(m: set<nat>, bound: nat)
    requires forall x | x in m :: x < bound
    ensures |m| <= bound
  {
    if bound > 0 {
      BelowCardinality(m - {bound - 1}, bound - 1);
      if bound - 1 in m { assert m == (m - {bound - 1}) + {bound - 1}; }
      else { assert m - {bound - 1} == m; }
    } else {
      assert m == {};
    }
  }

  datatype Parsed = Number(value: nat) | NotANumber

  /** Every token is a number below `count`. */
  predicate Accepted(tokens: seq<Parsed>, count: nat) {
    forall i | 0 <= i < |tokens| :: tokens[i].Number? && tokens[i].value < count
  }

  function Numbers(tokens: seq<Parsed>): set<nat> {
    set t | t in tokens && t.Number? :: t.value
  }

  /** The token loop. `capacity` is the size of the array: it is never overrun,
      for any number of repeats, as long as `count` is at most that. */
  method Collect(tokens: seq<Parsed>, count: nat, capacity: nat) returns (ok: bool, indices: array<nat>, n: nat)
    requires count <= capacity
    ensures fresh(indices) && n <= indices.Length
    ensures ok <==> Accepted(tokens, count)
    ensures ok ==> DistinctNats(indices[..n]) && Members(indices[..n]) == Numbers(tokens)
    ensures forall x | x in indices[..n] :: x < count
  {
    indices := new nat[capacity](_ => 0);
    n := 0;
    for k := 0 to |tokens|
      invariant n <= count
      invariant indices.Length == capacity && DistinctNats(indices[..n])
      invariant forall x | x in indices[..n] :: x < count
      invariant Accepted(tokens[..k], count)
      invariant Members(indices[..n]) == Numbers(tokens[..k])
    {
      assert tokens[k] in tokens;
      if tokens[k].NotANumber? || tokens[k].value >= count {
        assert !Accepted(tokens, count);
        return false, indices, n;
      }
      var number := tokens[k].value;
      assert tokens[..k + 1] == tokens[..k] + [tokens[k]];
      assert Numbers(tokens[..k + 1]) == Numbers(tokens[..k]) + {number};
      var duplicate := false;
      var i := 0;
      while i < n && !duplicate
        invariant 0 <= i <= n
        invariant duplicate ==> number in indices[..n]
        invariant !duplicate ==> number !in indices[..i]
      {
        if indices[i] == number { duplicate := true; }
        i := i + 1;
      }
      if duplicate {
        assert number in Members(indices[..n]);
        assert Members(indices[..n]) + {number} == Members(indices[..n]);
      } else {
        assert indices[..i] == indices[..n];
        DistinctBelow(indices[..n] + [number], count);
        ghost var before := indices[..n];
        indices[n] := number;
        n := n + 1;
        assert indices[..n] == before + [number];
        assert Members(indices[..n]) == Members(before) + {number};
      }
    }
    assert tokens[..|tokens|] == tokens;
    ok := true;
  }

  predicate Descending(s: seq<nat>) {
    forall i, j :: 0 <= i < j < |s| ==> s[i] > s[j]
  }

  lemma SwapKeeps(s: seq<nat>, i: nat, j: nat)
    requires i < j < |s|
    ensures var s' := s[i := s[j]][j := s[i]];
            Members(s') == Members(s) && (DistinctNats(s) ==> DistinctNats(s'))
  {
    var s' := s[i := s[j]][j := s[i]];
    forall x | x in s ensures x in s' {
      var k :| 0 <= k < |s| && s[k] == x;
      assert s'[if k == i then j else if k == j then i else k] == x;
    }
  }

  /** The exchange sort: largest first, and the same numbers. */
  method SortDescending(a: array<nat>, n: nat)
    requires n <= a.Length && DistinctNats(a[..n])
    modifies a
    ensures Descending(a[..n]) && Members(a[..n]) == old(Members(a[..n]))
  {
    for i := 0 to n
      invariant DistinctNats(a[..n]) && Members(a[..n]) == old(Members(a[..n]))
      invariant forall k, l :: 0 <= k < i && k < l < n ==> a[k] > a[l]
    {
      for j := i + 1 to n
        invariant DistinctNats(a[..n]) && Members(a[..n]) == old(Members(a[..n]))
        invariant forall k, l :: 0 <= k < i && k < l < n ==> a[k] > a[l]
        invariant forall l :: i < l < j ==> a[i] > a[l]
      {
        assert a[..n][j] != a[..n][i];
        if a[j] > a[i] {
          SwapKeeps(a[..n], i, j);
          ghost var s := a[..n];
          a[i], a[j] := a[j], a[i];
          assert a[..n] == s[i := s[j]][j := s[i]];
        }
      }
    }
  }
}

/** The array-and-count pairs of `cdbg_t` (include/debugger.h): a fixed-size
    buffer whose first `count` cells are in use. */
module Slots {
  function RemoveAt<T>(s: seq<T>, i: nat): (r: seq<T>)
    requires i < |s|
  {
    s[..i] + s[i + 1..]
  }

  class Slots<T> {
    const cells: array<T>
    const zero: T
    var count: nat
    ghost var contents: seq<T>

    ghost predicate Valid()
      reads this, cells
    {
      count <= cells.Length && contents == cells[..count]
    }

    constructor (capacity: nat, zero: T)
      ensures Valid() && fresh(cells) && cells.Length == capacity && contents == []
    {
      this.zero := zero;
      cells := new T[capacity](_ => zero);
      count, contents := 0, [];
    }

    function Get(i: nat): (t: T)
      requires Valid() && i < count
      reads this, cells
      ensures t == contents[i]
    {
      cells[i]
    }

    method Set(i: nat, t: T)
      requires Valid() && i < count
      modifies this`contents, cells
      ensures Valid() && contents == old(contents)[i := t]
    {
      cells[i] := t;
      contents := contents[i := t];
    }

    method Push(t: T)
      requires Valid() && count < cells.Length
      modifies this, cells
      ensures Valid() && contents == old(contents) + [t]
    {
      cells[count] := t;
      count, contents := count + 1, contents + [t];
    }

    /** Shift the cells after `i` down by one and zero the one that falls free. */
    method Remove(i: nat)
      requires Valid() && i < count
      modifies this, cells
      ensures Valid() && contents == RemoveAt(old(contents), i)
    {
      var n := count;
      for k := i + 1 to n
        invariant count == n && contents == old(contents) && n <= cells.Length
        invariant cells[..i] == old(contents)[..i]
        invariant forall j | i <= j < k - 1 :: cells[j] == old(contents)[j + 1]
        invariant forall j | k <= j < n :: cells[j] == old(contents)[j]
      {
        cells[k - 1] := cells[k];
      }
      count := n - 1;
      contents := cells[..count];
      cells[count] := zero;
      assert contents == RemoveAt(old(contents), i);
    }

    method Clear()
      requires Valid()
      modifies this, cells
      ensures Valid() && contents == []
      ensures forall i | 0 <= i < cells.Length :: cells[i] == zero
    {
      count, contents := 0, [];
      forall i | 0 <= i < cells.Length { cells[i] := zero; }
    }
  }
}

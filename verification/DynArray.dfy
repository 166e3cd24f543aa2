/** The growing array under the printer's buffer and the document's list of unlinked nodes. */
module DynArray {

  /** What `SwapRemove` leaves: the last element in the place of the removed one. */
  function Removed<T>(s: seq<T>, i: nat): (r: seq<T>)
    requires i < |s|
    ensures |r| == |s| - 1
  {
    s[i := s[|s| - 1]][..|s| - 1]
  }

  /** One occurrence goes and no other changes. */
  lemma RemovedTakesOne<T>(s: seq<T>, i: nat)
    requires i < |s|
    ensures multiset(Removed(s, i)) == multiset(s) - multiset{s[i]}
  {
    var last := |s| - 1;
    assert s == s[..last] + [s[last]];
    if i < last {
      assert s[..last] == s[..i] + [s[i]] + s[i + 1..last];
      assert Removed(s, i) == s[..i] + [s[last]] + s[i + 1..last];
    } else {
      assert Removed(s, i) == s[..last];
    }
  }

  class Vector<T(0)> {
    const initialSize: nat
    var mem: array<T>
    var size: nat

    ghost predicate Valid()
      reads this
    {
      size <= mem.Length && initialSize <= mem.Length
    }

    ghost function Contents(): seq<T>
      requires Valid()
      reads this, mem
    {
      mem[..size]
    }

    constructor (initialSize: nat)
      ensures Valid() && Contents() == [] && fresh(mem)
    {
      this.initialSize := initialSize;
      mem := new T[initialSize];
      size := 0;
    }

    /** Room for `cap` elements, in a new array of twice the size if the old one is too small. */
    method EnsureCapacity(cap: nat)
      requires Valid() && cap > 0
      modifies this`mem
      ensures Valid() && cap <= mem.Length && Contents() == old(Contents())
      ensures if cap > old(mem.Length) then fresh(mem) && mem.Length == 2 * cap else mem == old(mem)
    {
      if cap > mem.Length {
        var newMem := new T[cap * 2];
        for i := 0 to size
          invariant mem == old(mem) && newMem[..i] == mem[..i]
        {
          newMem[i] := mem[i];
        }
        mem := newMem;
      }
    }

    method Push(t: T)
      requires Valid()
      modifies this`mem, this`size, mem
      ensures Valid() && (mem == old(mem) || fresh(mem)) && Contents() == old(Contents()) + [t]
    {
      EnsureCapacity(size + 1);
      mem[size] := t;
      size := size + 1;
    }

    /** `count` places at the end, for the caller to fill from index `at` on. */
    method PushArr(count: nat) returns (at: nat)
      requires Valid() && size + count > 0
      modifies this`mem, this`size
      ensures Valid() && (mem == old(mem) || fresh(mem))
      ensures at == old(size) && size == at + count && Contents()[..at] == old(Contents())
    {
      EnsureCapacity(size + count);
      at := size;
      size := size + count;
    }

    method Pop() returns (t: T)
      requires Valid() && size > 0
      modifies this`size
      ensures Valid() && old(Contents()) == Contents() + [t]
    {
      size := size - 1;
      t := mem[size];
    }

    method PopArr(count: nat)
      requires Valid() && size >= count
      modifies this`size
      ensures Valid() && Contents() == old(Contents()[..size - count])
    {
      size := size - count;
    }

    method SwapRemove(i: nat)
      requires Valid() && i < size
      modifies this`size, mem
      ensures Valid() && Contents() == Removed(old(Contents()), i)
    {
      mem[i] := mem[size - 1];
      size := size - 1;
    }
  }
}

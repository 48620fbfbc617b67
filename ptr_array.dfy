/**
 * The older pointer array of dynamic/array.c, the predecessor of
 * src/dynArray.c: an array of pointers that creates itself on first use,
 * grows by doubling, and hands its entries to a callback on clear.
 *
 * As in the DynArray module, the caller's `T**` is an object: `live` is
 * false while it is NULL, and `entries` is the buffer, whose length is the
 * capacity. The pointers themselves are values of type T; NULL is what
 * calloc leaves in a fresh slot.
 */
module PtrArray {

  /** DYNAMIC_ARRAY_INITIAL_SIZE. */
  const INITIAL_CAPACITY: nat := 2

  /**
   * The capacity daMakeRoom's loop settles on: starting from a nonzero c,
   * double until it holds `needed` entries.
   */
  function Doubled(c: nat, needed: nat): (r: nat)
    requires c > 0
    ensures needed <= r && c <= r
    ensures c >= needed ==> r == c
    ensures c < needed ==> r < 2 * needed
    decreases needed - c
  {
    if needed <= c then c else Doubled(2 * c, needed)
  }

  /** Doubling a power-of-two multiple of INITIAL_CAPACITY keeps it one. */
  ghost predicate PowerOfTwoMultiple(c: nat)
    decreases c
  {
    c == INITIAL_CAPACITY || (c > INITIAL_CAPACITY && c % 2 == 0 && PowerOfTwoMultiple(c / 2))
  }

  lemma {:induction false} DoubledKeepsPowers(c: nat, needed: nat)
    requires c > 0 && PowerOfTwoMultiple(c)
    ensures PowerOfTwoMultiple(Doubled(c, needed))
    decreases needed - c
  {
    if needed > c {
      assert (2 * c) / 2 == c;
      DoubledKeepsPowers(2 * c, needed);
    }
  }

  /** One callback call: the userData pointer and the entry handed over. */
  datatype Call<T, D> = Call(userData: D, entry: T)

  /** The calls daClear makes, in index order, for the entries s. */
  function Calls<T, D>(userData: D, s: seq<T>): (r: seq<Call<T, D>>)
    ensures |r| == |s|
    ensures forall i :: 0 <= i < |s| ==> r[i] == Call(userData, s[i])
  {
    seq(|s|, i requires 0 <= i < |s| => Call(userData, s[i]))
  }

  /** Clearing a + b makes a's calls, then b's: what lets daClear's loop extend the log one entry at a time. */
  lemma CallsAppend<T, D>(userData: D, a: seq<T>, b: seq<T>)
    ensures Calls(userData, a + b) == Calls(userData, a) + Calls(userData, b)
  {
  }

  class PtrArray<T, D> {
    /** NULL, as calloc leaves it in a fresh slot. */
    const nil: T
    /** False while the caller's pointer is NULL. */
    var live: bool
    var entries: array<T>
    var size: nat
    var capacity: nat
    /** Every call made to a destroy callback so far, in call order. */
    ghost var calls: seq<Call<T, D>>

    ghost predicate Valid()
      reads this
    {
      entries.Length == capacity && size <= capacity &&
      (live ==> PowerOfTwoMultiple(capacity)) &&
      (!live ==> size == 0 && capacity == 0)
    }

    /** The entries [0, size). */
    ghost function Contents(): seq<T>
      reads this, entries
      requires Valid()
    {
      entries[..size]
    }

    /** A NULL array pointer. */
    constructor (nil: T)
      ensures Valid() && !live && this.nil == nil && calls == [] && fresh(entries)
    {
      this.nil := nil;
      live := false;
      entries := new T[0](_ => nil);
      size, capacity := 0, 0;
      calls := [];
    }

    /**
     * daChangeCapacity: a fresh buffer of exactly newCapacity slots holding
     * the first min(size, newCapacity) entries, the rest NULL.
     */
    method ChangeCapacity(newCapacity: nat)
      requires Valid() && PowerOfTwoMultiple(newCapacity)
      modifies this
      ensures Valid() && live && capacity == newCapacity && fresh(entries)
      ensures size == if old(size) < newCapacity then old(size) else newCapacity
      ensures Contents() == old(Contents())[..size]
      ensures entries[size..] == seq(newCapacity - size, _ => nil)
      ensures calls == old(calls)
    {
      var n := nil;
      var newEntries := new T[newCapacity](_ => n);
      var copyCount := 0;
      if live {
        copyCount := if size < newCapacity then size else newCapacity;
        forall i | 0 <= i < copyCount {
          newEntries[i] := entries[i];
        }
      }
      entries, capacity, size, live := newEntries, newCapacity, copyCount, true;
    }

    /** daGet: the array, created empty with INITIAL_CAPACITY when the pointer is NULL. */
    method Get()
      requires Valid()
      modifies this
      ensures Valid() && live
      ensures capacity == if old(live) then old(capacity) else INITIAL_CAPACITY
      ensures Contents() == old(Contents()) && size == old(size)
      ensures if old(live) then entries == old(entries) else fresh(entries)
      ensures calls == old(calls)
    {
      if !live {
        ChangeCapacity(INITIAL_CAPACITY);
      }
    }

    /** daMakeRoom: double the capacity until it holds size + incomingCount entries. */
    method MakeRoom(incomingCount: nat)
      requires Valid()
      modifies this
      ensures Valid() && live
      ensures capacity == Doubled(if old(live) then old(capacity) else INITIAL_CAPACITY, old(size) + incomingCount)
      ensures Contents() == old(Contents()) && size == old(size)
      ensures entries == old(entries) || fresh(entries)
      ensures old(live) && old(capacity) >= old(size) + incomingCount ==> entries == old(entries)
      ensures calls == old(calls)
    {
      Get();
      var capacityNeeded := size + incomingCount;
      var newCapacity := capacity;
      while newCapacity < capacityNeeded
        invariant newCapacity > 0 && PowerOfTwoMultiple(newCapacity)
        invariant Doubled(newCapacity, capacityNeeded) == Doubled(capacity, capacityNeeded)
        decreases capacityNeeded - newCapacity
      {
        assert (newCapacity * 2) / 2 == newCapacity;
        newCapacity := newCapacity * 2;
      }
      if newCapacity != capacity {
        ChangeCapacity(newCapacity);
      }
    }

    /** daCreate: make sure the array exists. */
    method Create()
      requires Valid()
      modifies this
      ensures Valid() && live
      ensures capacity == if old(live) then old(capacity) else INITIAL_CAPACITY
      ensures Contents() == old(Contents()) && calls == old(calls)
      ensures entries == old(entries) || fresh(entries)
    {
      Get();
    }

    /**
     * daClear: hand every entry, in index order, to the callback together
     * with userData (when there is a callback). The size is NOT reset.
     */
    method Clear(withCallback: bool, userData: D)
      requires Valid()
      modifies this
      ensures Valid() && live
      ensures Contents() == old(Contents()) && size == old(size)
      ensures capacity == if old(live) then old(capacity) else INITIAL_CAPACITY
      ensures calls == old(calls) + if withCallback then Calls(userData, Contents()) else []
    {
      Get();
      if withCallback {
        var i := 0;
        while i < size
          invariant Valid() && live && i <= size
          invariant Contents() == old(Contents()) && size == old(size)
          invariant capacity == if old(live) then old(capacity) else INITIAL_CAPACITY
          invariant calls == old(calls) + Calls(userData, entries[..i])
        {
          calls := calls + [Call(userData, entries[i])];
          assert entries[..i + 1] == entries[..i] + [entries[i]];
          CallsAppend(userData, entries[..i], [entries[i]]);
          i := i + 1;
        }
        assert entries[..size] == Contents();
      }
    }

    /** daSize: the size, creating the array when the pointer is NULL. */
    method Size() returns (n: nat)
      requires Valid()
      modifies this
      ensures Valid() && live && n == size && n == |Contents()|
      ensures Contents() == old(Contents()) && size == old(size) && calls == old(calls)
      ensures capacity == if old(live) then old(capacity) else INITIAL_CAPACITY
    {
      Get();
      n := size;
    }

    /** daPush: store entry at index size, grow the size by one, return the index. */
    method Push(entry: T) returns (index: nat)
      requires Valid()
      modifies this, entries
      ensures Valid() && live
      ensures index == old(size) && size == old(size) + 1
      ensures Contents() == old(Contents()) + [entry]
      ensures capacity == Doubled(if old(live) then old(capacity) else INITIAL_CAPACITY, old(size) + 1)
      ensures calls == old(calls)
      ensures entries == old(entries) || fresh(entries)
    {
      MakeRoom(1);
      entries[size] := entry;
      size := size + 1;
      index := size - 1;
    }
  }

  /**
   * The scenario of tests/main.c: create an array and push five objects;
   * entry i is then the i-th object pushed, and the capacity has doubled
   * from 2 to 8.
   */
  method PushFive<T, D>(nil: T, a: T, b: T, c: T, d: T, e: T) returns (p: PtrArray<T, D>)
    ensures p.Valid() && p.Contents() == [a, b, c, d, e] && p.capacity == 8
    ensures p.calls == []
  {
    p := new PtrArray(nil);
    p.Create();
    var i0 := p.Push(a);
    var i1 := p.Push(b);
    var i2 := p.Push(c);
    var i3 := p.Push(d);
    var i4 := p.Push(e);
    assert [i0, i1, i2, i3, i4] == [0, 1, 2, 3, 4];
  }
}

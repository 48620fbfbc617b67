/**
 * The growable array of src/dynArray.c.
 *
 * In C the array is a `T*` whose size/capacity header sits just before the
 * element buffer; a NULL pointer is an array that does not exist yet and is
 * created lazily by the operations that need one. Here the caller's pointer
 * is an object of class DynArray: `live` is false while the pointer is NULL,
 * and `data` is the element buffer, whose length is the capacity.
 */
module DynArray {

  /** DYNAMIC_ARRAY_INITIAL_SIZE: the capacity of a lazily created array. */
  const INITIAL_CAPACITY: nat := 2

  function Min(a: nat, b: nat): nat { if a < b then a else b }

  function Pow2(k: nat): (r: nat)
    ensures r >= 1
  {
    if k == 0 then 1 else 2 * Pow2(k - 1)
  }

  /**
   * The capacity daMakeRoom settles on: starting from `c`, double until the
   * result holds `needed` elements. A zero capacity is first raised to
   * INITIAL_CAPACITY (see the Findings in README: the C loop never leaves 0).
   */
  function Grown(c: nat, needed: nat): (r: nat)
    ensures needed <= r && c <= r
    ensures c >= needed ==> r == c
    ensures 0 < c < needed ==> r < 2 * needed
    ensures c == 0 < needed ==> r == INITIAL_CAPACITY || r < 2 * needed
    decreases needed - c
  {
    if needed <= c then c
    else if c == 0 then Grown(INITIAL_CAPACITY, needed)
    else Grown(2 * c, needed)
  }

  /** Growing a nonzero capacity only ever multiplies it by a power of two. */
  lemma {:induction false} GrownIsDoubling(c: nat, needed: nat) returns (k: nat)
    requires c > 0
    ensures Grown(c, needed) == c * Pow2(k)
    decreases needed - c
  {
    if needed <= c {
      k := 0;
    } else {
      var j := GrownIsDoubling(2 * c, needed);
      k := j + 1;
      calc {
        Grown(c, needed);
        Grown(2 * c, needed);
        2 * c * Pow2(j);
        c * (2 * Pow2(j));
        c * Pow2(k);
      }
    }
  }

  /** The value of newCapacity after `k` turns of the doubling loop as it is written in C. */
  function GrowAsWritten(c: nat, k: nat): (r: nat)
    ensures r == c * Pow2(k)
  {
    if k == 0 then c else 2 * GrowAsWritten(c, k - 1)
  }

  /**
   * As written, daMakeRoom on an array of capacity 0 never leaves its loop:
   * after any number of doublings the capacity is still below what is needed.
   */
  lemma {:induction false} GrowAsWrittenStuckAtZero(needed: nat, k: nat)
    requires needed > 0
    ensures GrowAsWritten(0, k) == 0 < needed
  {
    if k > 0 {
      GrowAsWrittenStuckAtZero(needed, k - 1);
    }
  }

  /** daSquash's result: the elements of `s` that are not all-zero, in their original order. */
  function Squashed<T(==)>(s: seq<T>, zero: T): (r: seq<T>)
    ensures |r| <= |s|
    ensures forall x :: x in r ==> x in s && x != zero
  {
    if s == [] then []
    else (if s[0] != zero then [s[0]] else []) + Squashed(s[1..], zero)
  }

  lemma {:induction false} SquashedAppend<T>(a: seq<T>, b: seq<T>, zero: T)
    ensures Squashed(a + b, zero) == Squashed(a, zero) + Squashed(b, zero)
  {
    if a == [] {
      assert a + b == b;
    } else {
      assert (a + b)[1..] == a[1..] + b;
      SquashedAppend(a[1..], b, zero);
    }
  }

  /** Squashing keeps every nonzero element exactly as often as it occurs, and drops every zero. */
  lemma {:induction false} SquashedCounts<T>(s: seq<T>, zero: T, x: T)
    ensures multiset(Squashed(s, zero))[x] == if x == zero then 0 else multiset(s)[x]
  {
    if s != [] {
      assert s == [s[0]] + s[1..];
      SquashedCounts(s[1..], zero, x);
    }
  }

  /** Squashing twice is squashing once. */
  lemma {:induction false} SquashedIdempotent<T>(s: seq<T>, zero: T)
    ensures Squashed(Squashed(s, zero), zero) == Squashed(s, zero)
  {
    if s != [] {
      SquashedIdempotent(s[1..], zero);
      var head := if s[0] != zero then [s[0]] else [];
      SquashedAppend(head, Squashed(s[1..], zero), zero);
      assert Squashed(head, zero) == head by {
        if s[0] != zero { assert head[1..] == []; }
      }
    }
  }

  class DynArray<T(==)> {
    /** The all-zero element: what calloc and memset leave in a slot. */
    const zero: T
    /** False while the caller's pointer is NULL. */
    var live: bool
    /** The element buffer; its length is the capacity. */
    var data: array<T>
    var size: nat
    var capacity: nat
    /** Every element handed to a destructor callback so far, in call order. */
    ghost var destroyed: seq<T>

    ghost predicate Valid()
      reads this
    {
      data.Length == capacity && size <= capacity &&
      (!live ==> size == 0 && capacity == 0)
    }

    /** The elements [0, size) of the buffer. */
    ghost function Contents(): seq<T>
      reads this, data
      requires Valid()
    {
      data[..size]
    }

    /** The capacity an operation that creates the array on demand starts from. */
    ghost function StartCapacity(): nat
      reads this
    {
      if live then capacity else INITIAL_CAPACITY
    }

    /** A NULL array pointer. */
    constructor (zero: T)
      ensures Valid() && !live && this.zero == zero && destroyed == [] && fresh(data)
    {
      this.zero := zero;
      live := false;
      data := new T[0](_ => zero);
      size, capacity := 0, 0;
      destroyed := [];
    }

    /**
     * daChangeCapacity: reallocate to exactly newCapacity slots, keeping the
     * first min(size, newCapacity) elements; an unchanged capacity keeps the
     * buffer as it is.
     */
    method ChangeCapacity(newCapacity: nat)
      requires Valid()
      modifies this
      ensures Valid() && live && capacity == newCapacity
      ensures size == Min(old(size), newCapacity)
      ensures Contents() == old(Contents())[..size]
      ensures if old(live) && newCapacity == old(capacity) then data == old(data) else fresh(data)
      ensures destroyed == old(destroyed)
    {
      if live && newCapacity == capacity {
        return;
      }
      var z := zero;
      var newData := new T[newCapacity](_ => z);
      var copyCount := 0;
      if live {
        copyCount := Min(size, newCapacity);
        forall i | 0 <= i < copyCount {
          newData[i] := data[i];
        }
      }
      data, capacity, size, live := newData, newCapacity, copyCount, true;
    }

    /** daGet: find the array, creating an empty one of INITIAL_CAPACITY when asked to. */
    method Get(autoCreate: bool) returns (found: bool)
      requires Valid()
      modifies this
      ensures Valid() && found == live && (autoCreate ==> live)
      ensures capacity == if old(live) || !autoCreate then old(capacity) else INITIAL_CAPACITY
      ensures Contents() == old(Contents()) && size == old(size)
      ensures if old(live) || !autoCreate then data == old(data) else fresh(data)
      ensures destroyed == old(destroyed)
    {
      if !live && autoCreate {
        ChangeCapacity(INITIAL_CAPACITY);
      }
      found := live;
    }

    /**
     * daChangeSize: set the size, raising the capacity to exactly newSize when
     * it is too small and zero-filling the slots [old size, newSize).
     * Elements beyond the new size must already have been destroyed.
     */
    method ChangeSize(newSize: nat)
      requires Valid()
      modifies this, data
      ensures Valid() && live && size == newSize
      ensures capacity == if newSize > old(StartCapacity()) then newSize else old(StartCapacity())
      ensures Contents() == if newSize <= old(size) then old(Contents())[..newSize]
                            else old(Contents()) + seq(newSize - old(size), _ => zero)
      ensures data == old(data) || fresh(data)
      ensures destroyed == old(destroyed)
    {
      var _ := Get(true);
      if size == newSize {
        return;
      }
      if newSize > capacity {
        ChangeCapacity(newSize);
      }
      if newSize > size {
        forall i | size <= i < newSize {
          data[i] := zero;
        }
      }
      size := newSize;
    }

    /** daMakeRoom: make the capacity at least size + incomingCount by doubling. */
    method MakeRoom(incomingCount: nat)
      requires Valid()
      modifies this
      ensures Valid() && live
      ensures capacity == Grown(old(StartCapacity()), old(size) + incomingCount)
      ensures Contents() == old(Contents()) && size == old(size)
      ensures data == old(data) || fresh(data)
      ensures old(live) && old(capacity) >= old(size) + incomingCount ==> data == old(data)
      ensures destroyed == old(destroyed)
    {
      var _ := Get(true);
      var capacityNeeded := size + incomingCount;
      var newCapacity := capacity;
      while newCapacity < capacityNeeded
        invariant Grown(newCapacity, capacityNeeded) == Grown(capacity, capacityNeeded)
        decreases capacityNeeded - newCapacity
      {
        newCapacity := if newCapacity == 0 then INITIAL_CAPACITY else newCapacity * 2;
      }
      if newCapacity != capacity {
        ChangeCapacity(newCapacity);
      }
    }

    /** daClearRange: hand the elements [start, end) to the destructor, if there is one. */
    method ClearRange(start: nat, end: nat, withDestructor: bool)
      requires Valid() && end <= size
      modifies this`destroyed
      ensures destroyed == old(destroyed) + if withDestructor && start < end then data[start..end] else []
    {
      if withDestructor && start < end {
        var i := start;
        while i < end
          invariant Valid() && start <= i <= end
          invariant destroyed == old(destroyed) + data[start..i]
        {
          assert data[start..i + 1] == data[start..i] + [data[i]];
          destroyed := destroyed + [data[i]];
          i := i + 1;
        }
      }
    }

    /** daClear: destroy every element and set the size to 0; the capacity stays. */
    method Clear(withDestructor: bool)
      requires Valid()
      modifies this
      ensures Valid() && live == old(live) && capacity == old(capacity) && data == old(data)
      ensures Contents() == []
      ensures destroyed == old(destroyed) + if withDestructor then old(Contents()) else []
    {
      if live {
        ClearRange(0, size, withDestructor);
        size := 0;
      }
    }

    /**
     * daShift ("pop front"): false on an empty or NULL array, which is left
     * alone. `prior` is what the caller's element holds before the call; the
     * element is only written on success.
     */
    method Shift(prior: T) returns (ok: bool, x: T)
      requires Valid()
      modifies this, data
      ensures Valid() && live == old(live) && capacity == old(capacity) && data == old(data)
      ensures ok == (old(live) && old(size) > 0)
      ensures ok ==> x == old(Contents())[0] && Contents() == old(Contents())[1..]
      ensures !ok ==> Contents() == old(Contents()) && x == prior
      ensures destroyed == old(destroyed)
    {
      if live && size > 0 {
        x := data[0];
        size := size - 1;
        forall i | 0 <= i < size {
          data[i] := data[i + 1];
        }
        ok := true;
      } else {
        ok, x := false, prior;
      }
    }

    /** daUnshiftContents: put x in front of the existing elements. */
    method Unshift(x: T)
      requires Valid()
      modifies this, data
      ensures Valid() && live
      ensures Contents() == [x] + old(Contents())
      ensures capacity == Grown(old(StartCapacity()), old(size) + 1)
      ensures data == old(data) || fresh(data)
      ensures destroyed == old(destroyed)
    {
      MakeRoom(1);
      if size > 0 {
        forall i | 1 <= i <= size {
          data[i] := data[i - 1];
        }
      }
      data[0] := x;
      size := size + 1;
    }

    /** daPushContents: append x and return the index it was stored at. */
    method Push(x: T) returns (index: nat)
      requires Valid()
      modifies this, data
      ensures Valid() && live
      ensures index == old(size) && Contents() == old(Contents()) + [x]
      ensures capacity == Grown(old(StartCapacity()), old(size) + 1)
      ensures data == old(data) || fresh(data)
      ensures destroyed == old(destroyed)
    {
      MakeRoom(1);
      data[size] := x;
      size := size + 1;
      index := size - 1;
    }

    /**
     * daPop: false on an empty or NULL array, which is left alone. `prior` is
     * what the caller's element holds before the call; the element is only
     * written on success.
     */
    method Pop(prior: T) returns (ok: bool, x: T)
      requires Valid()
      modifies this
      ensures Valid() && live == old(live) && capacity == old(capacity) && data == old(data)
      ensures ok == (old(live) && old(size) > 0)
      ensures ok ==> x == old(Contents())[old(size) - 1] && Contents() == old(Contents())[..old(size) - 1]
      ensures !ok ==> Contents() == old(Contents()) && x == prior
      ensures destroyed == old(destroyed)
    {
      if live && size > 0 {
        size := size - 1;
        x := data[size];
        ok := true;
      } else {
        ok, x := false, prior;
      }
    }

    /**
     * daInsertContents: for 0 <= index < size put x at index, shifting the
     * rest up; any other index (and an empty array) appends instead.
     */
    method Insert(index: int, x: T)
      requires Valid()
      modifies this, data
      ensures Valid() && live
      ensures Contents() == if 0 <= index < old(size) then old(Contents())[..index] + [x] + old(Contents())[index..]
                            else old(Contents()) + [x]
      ensures capacity == Grown(old(StartCapacity()), old(size) + 1)
      ensures data == old(data) || fresh(data)
      ensures destroyed == old(destroyed)
    {
      MakeRoom(1);
      if index < 0 || size == 0 || index >= size {
        var _ := Push(x);
      } else {
        ghost var s := data[..size];
        forall i | index + 1 <= i <= size {
          data[i] := data[i - 1];
        }
        data[index] := x;
        size := size + 1;
        assert data[..size] == s[..index] + [x] + s[index..] by {
          forall i | 0 <= i < size
            ensures data[i] == (s[..index] + [x] + s[index..])[i]
          {
          }
        }
      }
    }

    /**
     * daErase: remove the element at index, keeping the order of the rest; an
     * index outside [0, size) changes nothing. (The C memmove moves one
     * element too many; see MoveAsWritten and the Findings in README.)
     */
    method Erase(index: int)
      requires Valid()
      modifies this, data
      ensures Valid() && live == old(live) && capacity == old(capacity) && data == old(data)
      ensures Contents() == if 0 <= index < old(size) then old(Contents())[..index] + old(Contents())[index + 1..]
                            else old(Contents())
      ensures destroyed == old(destroyed)
    {
      if !live {
        return;
      }
      if index < 0 || size == 0 || index >= size {
        return;
      }
      forall i | index <= i < size - 1 {
        data[i] := data[i + 1];
      }
      size := size - 1;
    }

    /**
     * daSetSize: destroy the elements [newSize, size) when shrinking, then
     * change the size (raising the capacity to exactly newSize if needed and
     * zero-filling new slots).
     */
    method SetSize(newSize: nat, withDestructor: bool)
      requires Valid()
      modifies this, data
      ensures Valid() && live && size == newSize
      ensures capacity == if newSize > old(StartCapacity()) then newSize else old(StartCapacity())
      ensures Contents() == if newSize <= old(size) then old(Contents())[..newSize]
                            else old(Contents()) + seq(newSize - old(size), _ => zero)
      ensures destroyed == old(destroyed) + if withDestructor && newSize < old(size) then old(Contents())[newSize..] else []
      ensures data == old(data) || fresh(data)
    {
      var _ := Get(true);
      ClearRange(newSize, size, withDestructor);
      ChangeSize(newSize);
    }

    /** daSize: the number of elements; 0 for a NULL array. */
    method Size() returns (n: nat)
      requires Valid()
      ensures n == |Contents()|
      ensures !live ==> n == 0
    {
      n := if live then size else 0;
    }

    /**
     * daSetCapacity: destroy the elements [newCapacity, size), then reallocate
     * to exactly newCapacity slots; the size becomes min(size, newCapacity).
     */
    method SetCapacity(newCapacity: nat, withDestructor: bool)
      requires Valid()
      modifies this
      ensures Valid() && live && capacity == newCapacity
      ensures size == Min(old(size), newCapacity) && Contents() == old(Contents())[..size]
      ensures destroyed == old(destroyed) + if withDestructor && newCapacity < old(size) then old(Contents())[newCapacity..] else []
      ensures data == old(data) || fresh(data)
    {
      var _ := Get(true);
      ClearRange(newCapacity, size, withDestructor);
      ChangeCapacity(newCapacity);
    }

    /** daCapacity: the number of slots; 0 for a NULL array. */
    method Capacity() returns (n: nat)
      requires Valid()
      ensures n == capacity && n >= |Contents()|
      ensures !live ==> n == 0
    {
      n := if live then capacity else 0;
    }

    /** daSquash: drop every all-zero element, keeping the others in order. */
    method Squash()
      requires Valid()
      modifies this, data
      ensures Valid() && live == old(live) && capacity == old(capacity) && data == old(data)
      ensures Contents() == Squashed(old(Contents()), zero)
      ensures destroyed == old(destroyed)
    {
      if live {
        ghost var s := data[..size];
        var head := 0;
        var tail := 0;
        while tail < size
          invariant Valid() && size == |s| && live && data == old(data) && destroyed == old(destroyed)
          invariant 0 <= head <= tail <= size
          invariant data[..head] == Squashed(s[..tail], zero)
          invariant forall i :: tail <= i < size ==> data[i] == s[i]
        {
          assert s[..tail + 1] == s[..tail] + [s[tail]];
          SquashedAppend(s[..tail], [s[tail]], zero);
          assert Squashed([s[tail]], zero) == if s[tail] != zero then [s[tail]] else [];
          if data[tail] != zero {
            data[head] := data[tail];
            head := head + 1;
          }
          tail := tail + 1;
        }
        assert s[..tail] == s;
        size := head;
      }
    }
  }

  /**
   * The buffer effect of daErase's memmove as written: it moves size - index
   * elements starting at index + 1, so it reads slot `size`, one past the live
   * data. None when that read falls outside the buffer.
   */
  function MoveAsWritten<T>(buffer: seq<T>, size: nat, index: nat): (r: Option<seq<T>>)
    requires index < size <= |buffer|
    ensures r.Some? <==> size < |buffer|
    ensures r.Some? ==> |r.value| == |buffer| && r.value[..size - 1] == buffer[..index] + buffer[index + 1..size]
  {
    if size + 1 > |buffer| then None
    else
      var moved := buffer[..index] + buffer[index + 1..size + 1] + buffer[size..];
      assert moved[..size - 1] == buffer[..index] + buffer[index + 1..size];
      Some(moved)
  }

  datatype Option<T> = None | Some(value: T)

  /** A full array of two elements (what two pushes onto a NULL array give): erasing index 0 reads past the buffer. */
  lemma EraseOnFullArrayReadsPastBuffer(a: int, b: int)
    ensures MoveAsWritten([a, b], 2, 0) == None
  {
  }
}

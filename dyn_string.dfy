/**
 * The byte string builder of src/dynString.c.
 *
 * In C the string is a `char*` whose length/capacity header sits just before
 * a buffer of capacity + 1 bytes; a NULL pointer is a string that does not
 * exist yet. Here the caller's pointer is an object of class DynString:
 * `live` is false while the pointer is NULL, and `buffer` always has
 * capacity + 1 bytes, the last of them room for the NUL terminator.
 */
module DynString {

  newtype byte = x: int | 0 <= x < 256

  /** The byte memset writes when dsSetLength lengthens a string. */
  const SPACE: byte := 32

  function Min(a: nat, b: nat): nat { if a < b then a else b }

  /** strlen: the number of bytes before the first NUL, or |s| when there is none. */
  function Strlen(s: seq<byte>): (n: nat)
    ensures n <= |s|
    ensures forall i :: 0 <= i < n ==> s[i] != 0
    ensures n < |s| ==> s[n] == 0
  {
    if s == [] || s[0] == 0 then 0 else 1 + Strlen(s[1..])
  }

  /** The C string a NUL-terminated buffer spells. */
  function CString(s: seq<byte>): (r: seq<byte>)
    ensures 0 !in r && r <= s
  {
    s[..Strlen(s)]
  }

  /** A buffer holding t followed by a NUL spells exactly t when t holds no NUL. */
  lemma {:induction false} CStringOfTerminated(t: seq<byte>, rest: seq<byte>)
    requires 0 !in t
    ensures CString(t + [0] + rest) == t
  {
    if t != [] {
      assert (t + [0] + rest)[1..] == t[1..] + [0] + rest;
      CStringOfTerminated(t[1..], rest);
    }
  }

  /**
   * strcmp as an ordering: the sign of the first difference between the two
   * byte strings, compared as unsigned bytes, a proper prefix coming first.
   */
  function StrCmp(a: seq<byte>, b: seq<byte>): (r: int)
    ensures -1 <= r <= 1
  {
    if a == [] && b == [] then 0
    else if a == [] then -1
    else if b == [] then 1
    else if a[0] < b[0] then -1
    else if a[0] > b[0] then 1
    else StrCmp(a[1..], b[1..])
  }

  /** Two strings compare equal exactly when they are equal. */
  lemma {:induction false} StrCmpZeroIff(a: seq<byte>, b: seq<byte>)
    ensures StrCmp(a, b) == 0 <==> a == b
  {
    if a != [] && b != [] && a[0] == b[0] {
      StrCmpZeroIff(a[1..], b[1..]);
      if a[1..] == b[1..] {
        assert a == [a[0]] + a[1..] && b == [b[0]] + b[1..];
      }
    }
  }

  /** Swapping the operands flips the sign. */
  lemma {:induction false} StrCmpAntisymmetric(a: seq<byte>, b: seq<byte>)
    ensures StrCmp(b, a) == -StrCmp(a, b)
  {
    if a != [] && b != [] && a[0] == b[0] {
      StrCmpAntisymmetric(a[1..], b[1..]);
    }
  }

  /** The ordering is transitive. */
  lemma {:induction false} StrCmpTransitive(a: seq<byte>, b: seq<byte>, c: seq<byte>)
    requires StrCmp(a, b) < 0 && StrCmp(b, c) < 0
    ensures StrCmp(a, c) < 0
  {
    if a != [] && b != [] && c != [] && a[0] == b[0] && b[0] == c[0] {
      StrCmpTransitive(a[1..], b[1..], c[1..]);
    }
  }

  /** The content dsSetLength leaves: cut to n bytes, or padded with spaces up to n. */
  function Resized(s: seq<byte>, n: nat): (r: seq<byte>)
    ensures |r| == n
    ensures forall i :: 0 <= i < Min(|s|, n) ==> r[i] == s[i]
    ensures forall i :: |s| <= i < n ==> r[i] == SPACE
  {
    if n <= |s| then s[..n] else s + seq(n - |s|, _ => SPACE)
  }

  /** Resizing to the current length is the identity; resizing again to a shorter length is one cut. */
  lemma ResizedTwice(s: seq<byte>, m: nat, n: nat)
    requires n <= m
    ensures Resized(s, |s|) == s
    ensures Resized(Resized(s, m), n) == Resized(s, n)
  {
    var r := Resized(Resized(s, m), n);
    assert forall i :: 0 <= i < n ==> r[i] == Resized(s, n)[i];
  }

  class DynString {
    /** False while the caller's pointer is NULL. */
    var live: bool
    /** capacity + 1 bytes: the text, a NUL, and whatever calloc or earlier writes left after it. */
    var buffer: array<byte>
    var length: nat
    var capacity: nat

    /** The header and buffer agree, without the terminator. */
    ghost predicate Formed()
      reads this
    {
      buffer.Length == capacity + 1 && length <= capacity &&
      (!live ==> length == 0 && capacity == 0)
    }

    /** Formed, and NUL-terminated at `length`. */
    ghost predicate Valid()
      reads this, buffer
    {
      Formed() && buffer[length] == 0
    }

    /** The bytes [0, length) of the buffer. */
    ghost function Contents(): seq<byte>
      reads this, buffer
      requires Formed()
    {
      buffer[..length]
    }

    /** The C string the caller's pointer spells: "" for a NULL pointer. */
    function Text(): (r: seq<byte>)
      reads this, buffer
      requires Valid()
      ensures r <= Contents() && 0 !in r
      ensures 0 !in Contents() ==> r == Contents()
    {
      if live then CString(buffer[..]) else []
    }

    /** A NULL string pointer. */
    constructor ()
      ensures Valid() && !live && fresh(buffer)
    {
      live := false;
      buffer := new byte[1](_ => 0);
      length, capacity := 0, 0;
    }

    /**
     * dsChangeCapacity: reallocate to exactly newCapacity (+1) bytes, copying
     * the first min(length, newCapacity) bytes and the byte after them; an
     * unchanged capacity keeps the buffer as it is. On a cut the copied byte
     * after the text is a text byte, so only a cut-free call is NUL-terminated.
     */
    method ChangeCapacity(newCapacity: nat)
      requires Valid()
      modifies this
      ensures Formed() && live && capacity == newCapacity
      ensures length == Min(old(length), newCapacity)
      ensures Contents() == old(Contents())[..length]
      ensures old(live) ==> buffer[length] == old(buffer[..])[length]
      ensures old(length) <= newCapacity ==> Valid()
      ensures if old(live) && newCapacity == old(capacity) then buffer == old(buffer) else fresh(buffer)
    {
      if live && newCapacity == capacity {
        return;
      }
      var newBuffer := new byte[newCapacity + 1](_ => 0);
      var copyCount := 0;
      if live {
        copyCount := Min(length, newCapacity);
        // memcpy of copyCount + 1 bytes: the text and the byte after it.
        forall i | 0 <= i < copyCount + 1 {
          newBuffer[i] := buffer[i];
        }
      }
      buffer, capacity, length, live := newBuffer, newCapacity, copyCount, true;
    }

    /** dsGet: find the string, creating an empty one of capacity 0 when asked to. */
    method Get(autoCreate: bool) returns (found: bool)
      requires Valid()
      modifies this
      ensures Valid() && found == live && (autoCreate ==> live)
      ensures old(live) || !autoCreate ==> capacity == old(capacity) && buffer == old(buffer)
      ensures !old(live) && autoCreate ==> capacity == 0 && fresh(buffer)
      ensures Contents() == old(Contents()) && length == old(length)
    {
      if !live && autoCreate {
        ChangeCapacity(0);
      }
      found := live;
    }

    /**
     * dsMakeRoom: make room for len bytes, or for len more bytes when
     * appending; the capacity becomes exactly what is needed when it was
     * smaller, and is otherwise unchanged.
     */
    method MakeRoom(len: nat, append: bool)
      requires Valid()
      modifies this
      ensures Valid() && live
      ensures capacity == if old(RoomNeeded(len, append)) > old(capacity) then old(RoomNeeded(len, append)) else old(capacity)
      ensures Contents() == old(Contents()) && length == old(length)
      ensures buffer == old(buffer) || fresh(buffer)
    {
      var currCapacity := Capacity();
      var capacityNeeded := len;
      if append {
        var currLength := Length();
        capacityNeeded := capacityNeeded + currLength;
      }
      if capacityNeeded > currCapacity {
        ChangeCapacity(capacityNeeded);
      } else {
        var _ := Get(true);
      }
    }

    /** The capacity dsMakeRoom asks for. */
    ghost function RoomNeeded(len: nat, append: bool): nat
      reads this
    {
      if append then len + length else len
    }

    /** dsClear: the empty string, created when there is none; the capacity is kept. */
    method Clear()
      requires Valid()
      modifies this, buffer
      ensures Valid() && live && length == 0 && Contents() == []
      ensures capacity == if old(live) then old(capacity) else 0
      ensures buffer == old(buffer) || fresh(buffer)
    {
      var _ := Get(true);
      buffer[0] := 0;
      length := 0;
    }

    /** dsCopyLen: the content becomes the first len bytes of text. */
    method CopyLen(text: seq<byte>, len: nat)
      requires Valid() && len <= |text|
      modifies this, buffer
      ensures Valid() && live && Contents() == text[..len] && length == len
      ensures capacity == if len > old(capacity) then len else old(capacity)
    {
      MakeRoom(len, false);
      forall i | 0 <= i < len {
        buffer[i] := text[i];
      }
      length := len;
      buffer[length] := 0;
    }

    /** dsCopy: copy the C string text. */
    method Copy(text: seq<byte>)
      requires Valid()
      modifies this, buffer
      ensures Valid() && live && Contents() == CString(text) && Text() == CString(text)
    {
      CopyLen(text, Strlen(text));
    }

    /** dsConcatLen: append the first len bytes of text. */
    method ConcatLen(text: seq<byte>, len: nat)
      requires Valid() && len <= |text|
      modifies this, buffer
      ensures Valid() && live && Contents() == old(Contents()) + text[..len]
      ensures length == old(length) + len
      ensures capacity == if old(length) + len > old(capacity) then old(length) + len else old(capacity)
    {
      MakeRoom(len, true);
      forall i | 0 <= i < len {
        buffer[length + i] := text[i];
      }
      length := length + len;
      buffer[length] := 0;
    }

    /** dsConcat: append the C string text. */
    method Concat(text: seq<byte>)
      requires Valid()
      modifies this, buffer
      ensures Valid() && live && Contents() == old(Contents()) + CString(text)
    {
      ConcatLen(text, Strlen(text));
    }

    /**
     * dsSetLength: cut the content to newLength bytes or pad it with spaces up
     * to it, raising the capacity to exactly newLength when it is smaller. A
     * length equal to the current one (0 for a NULL string) changes nothing,
     * and does not create the string.
     */
    method SetLength(newLength: nat)
      requires Valid()
      modifies this, buffer
      ensures Valid() && length == newLength
      ensures Contents() == Resized(old(Contents()), newLength)
      ensures newLength == old(length) ==> live == old(live) && capacity == old(capacity) && buffer == old(buffer)
      ensures newLength != old(length) ==> live
      ensures capacity == if newLength > old(capacity) then newLength else old(capacity)
    {
      var currLength := Length();
      if currLength == newLength {
        return;
      }
      var currCapacity := Capacity();
      if newLength > currCapacity {
        ChangeCapacity(newLength);
      } else {
        var _ := Get(true);
      }
      if newLength > length {
        forall i | length <= i < newLength {
          buffer[i] := SPACE;
        }
      }
      length := newLength;
      buffer[length] := 0;
    }

    /** dsCalcLength: set the length to the strlen of the buffer; a NULL string stays NULL. */
    method CalcLength()
      requires Valid()
      modifies this, buffer
      ensures Valid() && live == old(live)
      ensures Contents() == old(Text()) && Text() == old(Text())
      ensures capacity == old(capacity)
    {
      if live {
        var n := Strlen(buffer[..]);
        assert n <= length by {
          assert buffer[..][length] == 0;
        }
        ghost var before := Contents();
        SetLength(n);
        assert Contents() == before[..n];
        assert buffer[..] == Contents() + [0] + buffer[n + 1..];
        CStringOfTerminated(Contents(), buffer[n + 1..]);
      }
    }

    /**
     * dsSetCapacity: reallocate to exactly newCapacity, keeping the first
     * min(length, newCapacity) bytes, and NUL-terminate.
     */
    method SetCapacity(newCapacity: nat)
      requires Valid()
      modifies this, buffer
      ensures Valid() && live && capacity == newCapacity
      ensures length == Min(old(length), newCapacity)
      ensures Contents() == old(Contents())[..length]
      ensures fresh(buffer) || buffer == old(buffer)
    {
      ChangeCapacity(newCapacity);
      buffer[length] := 0;
    }

    /** dsCmp: strcmp of the two strings, a NULL string counting as "". */
    method Cmp(other: DynString) returns (r: int)
      requires Valid() && other.Valid()
      ensures r == StrCmp(Text(), other.Text())
      ensures r == 0 <==> Text() == other.Text()
    {
      var s1: seq<byte> := [];
      var s2: seq<byte> := [];
      if live {
        s1 := CString(buffer[..]);
      }
      if other.live {
        s2 := CString(other.buffer[..]);
      }
      r := StrCmp(s1, s2);
      StrCmpZeroIff(s1, s2);
    }

    /** dsLength: the length, 0 for a NULL string, which is not created. */
    method Length() returns (n: nat)
      requires Valid()
      ensures n == |Contents()| && n == length
      ensures !live ==> n == 0
    {
      n := if live then length else 0;
    }

    /** dsCapacity: the capacity, 0 for a NULL string, which is not created. */
    method Capacity() returns (n: nat)
      requires Valid()
      ensures n == capacity && n >= |Contents()|
      ensures !live ==> n == 0
    {
      n := if live then capacity else 0;
    }
  }
}

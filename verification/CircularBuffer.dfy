/** The ring buffer: a fixed array written round and round, standing for a bounded sequence. */
module CircularBuffer {
  import opened Basics

  // ----- the sequence it stands for

  /** The last `n` elements of `s`, or all of them if there are fewer. */
  function LastOf<T>(s: seq<T>, n: nat): (r: seq<T>)
    ensures |r| == if |s| <= n then |s| else n
  {
    if |s| <= n then s else s[|s| - n..]
  }

  lemma LastOfAt<T>(s: seq<T>, n: nat, i: nat)
    requires i < n && i < |s|
    ensures LastOf(s, n)[|LastOf(s, n)| - 1 - i] == s[|s| - 1 - i]
  {
  }

  /** A bounded sequence after one more element: the oldest one is dropped if it was full. */
  function Appended<T>(s: seq<T>, cap: nat, x: T): seq<T> {
    LastOf(s + [x], cap)
  }

  function AppendedAll<T>(s: seq<T>, cap: nat, xs: seq<T>): seq<T>
    decreases |xs|
  {
    if xs == [] then s else Appended(AppendedAll(s, cap, xs[..|xs| - 1]), cap, xs[|xs| - 1])
  }

  /** Pushing any elements leaves the last ones pushed, in order, as many as there is room for. */
  lemma {:induction false} PushesKeepLast<T>(cap: nat, xs: seq<T>)
    ensures AppendedAll([], cap, xs) == LastOf(xs, cap)
    decreases |xs|
  {
    if xs != [] {
      var front, x := xs[..|xs| - 1], xs[|xs| - 1];
      PushesKeepLast(cap, front);
      assert front + [x] == xs;
      assert LastOf(LastOf(front, cap) + [x], cap) == LastOf(xs, cap);
    }
  }

  function Reversed<T>(s: seq<T>): (r: seq<T>)
    ensures |r| == |s| && forall i :: 0 <= i < |s| ==> r[i] == s[|s| - 1 - i]
  {
    if s == [] then [] else Reversed(s[1..]) + [s[0]]
  }

  // ----- the array

  /** Where the `i`-th element after `start` is, in an array of `n`. */
  function Wrapped(start: nat, i: nat, n: nat): (k: nat)
    requires start < n && i <= n
    ensures k < n
  {
    if start + i < n then start + i else start + i - n
  }

  lemma {:induction false} WrapsRound(start: nat, i: nat, n: nat)
    requires start < n && i <= n
    ensures (start + i) % n == Wrapped(start, i, n)
  {
    if start + i < n {
      SmallMod(start + i, n);
    } else {
      OneRound(start + i - n, n);
    }
  }

  lemma OneRound(i: nat, n: nat)
    requires i < n
    ensures (i + n) % n == i
  {
  }

  lemma SmallMod(i: nat, n: nat)
    requires i < n
    ensures i % n == i
  {
  }

  class Ring<T(0)> {
    var buff: array<T>
    var head: nat
    var tail: nat
    var size: nat
    const maxSize: nat

    ghost predicate Valid()
      reads this
    {
      && maxSize == buff.Length && size <= maxSize
      && if maxSize == 0 then head == tail == 0 else tail < maxSize && head == Wrapped(tail, size, maxSize)
    }

    /** The elements, oldest first. */
    ghost function Contents(): (s: seq<T>)
      requires Valid()
      reads this, buff
      ensures |s| == size && forall i :: 0 <= i < size ==> s[i] == buff[Wrapped(tail, i, maxSize)]
    {
      seq(size, i requires 0 <= i < size reads this, buff requires Valid() => buff[Wrapped(tail, i, maxSize)])
    }

    constructor (capacity: nat)
      ensures Valid() && Contents() == [] && maxSize == capacity && fresh(buff)
    {
      buff := new T[capacity];
      maxSize := capacity;
      head, tail, size := 0, 0, 0;
    }

    predicate Full()
      reads this
    {
      size == maxSize
    }

    predicate IsEmpty()
      reads this
    {
      size == 0
    }

    /** Overwrites the slot at the head, and moves on; a full buffer loses its oldest element.  A
        buffer without capacity has no slot. */
    method PushBack(x: T)
      requires Valid() && 0 < maxSize
      modifies this`head, this`tail, this`size, buff
      ensures Valid() && Contents() == Appended(old(Contents()), maxSize, x)
    {
      ghost var was := Contents();
      buff[head] := x;
      Increment();
      assert Contents() == Appended(was, maxSize, x);
    }

    /** Moves the head on by one, and the tail with it if the buffer is full. */
    method Increment()
      requires Valid() && 0 < maxSize
      modifies this`head, this`tail, this`size
      ensures Valid() && size == (if old(Full()) then old(size) else old(size) + 1)
      ensures tail == if old(Full()) then Wrapped(old(tail), 1, maxSize) else old(tail)
    {
      WrapsRound(tail, 1, maxSize);
      WrapsRound(head, 1, maxSize);
      if Full() {
        tail := (tail + 1) % maxSize;
      } else {
        size := size + 1;
      }
      head := (head + 1) % maxSize;
    }

    /** Drops the oldest element; an empty buffer is left alone and reported. */
    method PopFront() returns (ok: bool)
      requires Valid()
      modifies this`tail, this`size
      ensures Valid() && ok == (old(Contents()) != [])
      ensures Contents() == if ok then old(Contents())[1..] else []
    {
      if IsEmpty() {
        return false;
      }
      ghost var was := Contents();
      WrapsRound(tail, 1, maxSize);
      size := size - 1;
      tail := (tail + 1) % maxSize;
      assert Contents() == was[1..];
      return true;
    }

    method Clear()
      requires Valid()
      modifies this`head, this`tail, this`size
      ensures Valid() && Contents() == []
    {
      head, tail, size := 0, 0, 0;
    }

    method Front() returns (r: Option<T>)
      requires Valid()
      ensures r == if Contents() == [] then None else Some(Contents()[0])
    {
      if IsEmpty() {
        return None;
      }
      return Some(buff[tail]);
    }

    method Back() returns (r: Option<T>)
      requires Valid()
      ensures r == if Contents() == [] then None else Some(Contents()[|Contents()| - 1])
    {
      if IsEmpty() {
        return None;
      }
      return Some(if head == 0 then buff[maxSize - 1] else buff[head - 1]);
    }

    /** Where the element at an index is kept, if the index is in range. */
    method Locate(index: nat) returns (r: Option<nat>)
      requires Valid()
      ensures r == if index < size then Some(Wrapped(tail, index, maxSize)) else None
    {
      if index >= size {
        return None;
      }
      WrapsRound(tail, index, maxSize);
      return Some((index + tail) % maxSize);
    }

    method At(index: nat) returns (r: Option<T>)
      requires Valid()
      ensures r == if index < |Contents()| then Some(Contents()[index]) else None
    {
      var k := Locate(index);
      return if k.Some? then Some(buff[k.value]) else None;
    }

    /** Assigns through a reference to the element at an index. */
    method SetAt(index: nat, x: T) returns (ok: bool)
      requires Valid()
      modifies buff
      ensures Valid() && ok == (index < |old(Contents())|)
      ensures Contents() == if ok then old(Contents())[index := x] else old(Contents())
    {
      var k := Locate(index);
      ok := k.Some?;
      if ok {
        buff[k.value] := x;
      }
    }
  }

  // ----- iterators

  /** A place in a traversal, forward or reverse. */
  class Cursor<T(0)> {
    const ring: Ring<T>
    const reverse: bool
    var index: nat

    /** At the first element of the traversal, or behind the last one. */
    constructor (ring: Ring<T>, reverse: bool, atEnd: bool)
      ensures this.ring == ring && this.reverse == reverse && index == if atEnd then ring.size else 0
    {
      this.ring, this.reverse := ring, reverse;
      index := if atEnd then ring.size else 0;
    }

    /** The element there is at this place; behind the last one there is none. */
    method Current() returns (r: Option<T>)
      requires ring.Valid()
      ensures r == if ring.size <= index then None
        else Some(if reverse then Reversed(ring.Contents())[index] else ring.Contents()[index])
    {
      if ring.size <= index {
        r := None;
      } else if reverse {
        r := ring.At(ring.size - index - 1);
      } else {
        r := ring.At(index);
      }
    }

    method Advance()
      modifies this
      ensures index == old(index) + 1
    {
      index := index + 1;
    }
  }

  /** A traversal from begin to end (or from rbegin to rend) meets the elements in order (or in reverse). */
  method Traverse<T(0)>(ring: Ring<T>, reverse: bool) returns (s: seq<T>)
    requires ring.Valid()
    ensures s == if reverse then Reversed(ring.Contents()) else ring.Contents()
  {
    hide Ring.Contents, Wrapped, Reversed;
    var it := new Cursor<T>(ring, reverse, false);
    var end := new Cursor<T>(ring, reverse, true);
    ghost var all := if reverse then Reversed(ring.Contents()) else ring.Contents();
    s := [];
    while it.index != end.index
      invariant it.ring == ring && it.reverse == reverse && end.index == ring.size
      invariant 0 <= it.index <= ring.size && s == all[..it.index]
      invariant fresh(it) && fresh(end)
      decreases ring.size - it.index
    {
      var x := it.Current();
      assert all[..it.index + 1] == all[..it.index] + [all[it.index]];
      s := s + [x.value];
      it.Advance();
    }
  }
}

/**
 * A LIFO stack backed by a growable slice. The slice is its contents, the
 * last element the top; its capacity is the room reserved for it, which
 * only an append to a full slice enlarges.
 */
module Stack {

  class Stack<T> {
    /** The slice's elements, bottom first. */
    var elems: seq<T>
    /** The slice's capacity. */
    var capacity: nat
    /** The value Pop and Peek hand back when there is nothing to hand back. */
    const zero: T

    ghost predicate Valid()
      reads this
    {
      |elems| <= capacity
    }

    /** An empty slice with room for `capacity` elements. */
    constructor (zero: T, capacity: nat)
      ensures Valid() && elems == [] && this.capacity == capacity && this.zero == zero
    {
      this.zero := zero;
      this.elems := [];
      this.capacity := capacity;
    }

    /** The number of elements; never above the capacity. */
    method Len() returns (n: int)
      requires Valid()
      ensures n == |elems| && 0 <= n <= capacity
    {
      n := |elems|;
    }

    /** The capacity; never below the number of elements. */
    method Cap() returns (c: int)
      requires Valid()
      ensures c == capacity && |elems| <= c
    {
      c := capacity;
    }

    /**
     * The top element and true, or the zero value and false on an empty
     * stack; nothing changes.
     */
    method Peek() returns (t: T, ok: bool)
      ensures ok <==> |elems| > 0
      ensures ok ==> t == elems[|elems| - 1]
      ensures !ok ==> t == zero
    {
      if |elems| == 0 {
        return zero, false;
      }
      return elems[|elems| - 1], true;
    }

    /**
     * Removes and returns the top element with true; on an empty stack returns
     * the zero value and false and changes nothing. Shrinking the slice keeps
     * its capacity.
     */
    method Pop() returns (t: T, ok: bool)
      requires Valid()
      modifies this
      ensures Valid() && capacity == old(capacity)
      ensures ok <==> |old(elems)| > 0
      ensures ok ==> t == old(elems)[|old(elems)| - 1] && elems == old(elems)[..|old(elems)| - 1]
      ensures !ok ==> t == zero && elems == old(elems) == []
    {
      if |elems| == 0 {
        return zero, false;
      }
      t := elems[|elems| - 1];
      elems := elems[..|elems| - 1];
      ok := true;
    }

    /**
     * Appends t on top. A full slice is reallocated with at least one more
     * slot (twice the old capacity here); otherwise the capacity stays.
     */
    method Push(t: T)
      requires Valid()
      modifies this
      ensures Valid() && elems == old(elems) + [t]
      ensures |old(elems)| < old(capacity) ==> capacity == old(capacity)
      ensures |old(elems)| == old(capacity) ==> capacity > old(capacity)
    {
      if |elems| == capacity {
        capacity := if capacity == 0 then 1 else 2 * capacity;
      }
      elems := elems + [t];
    }
  }

  /** The capacity New reserves for its (at most one) argument: none or a negative one is 0. */
  function InitialCapacity(args: seq<int>): (c: nat)
    requires |args| <= 1
    ensures |args| == 0 ==> c == 0
    ensures |args| == 1 && args[0] < 0 ==> c == 0
    ensures |args| == 1 && args[0] >= 0 ==> c == args[0]
  {
    if |args| == 1 && args[0] > 0 then args[0] else 0
  }

  /**
   * An empty stack whose capacity is the optional argument (negative counts
   * as 0, none as 0); more than one argument is refused, giving null.
   */
  method New<T>(zero: T, args: seq<int>) returns (s: Stack?<T>)
    ensures |args| > 1 <==> s == null
    ensures s != null ==> fresh(s) && s.Valid() && s.elems == [] && s.zero == zero
    ensures s != null ==> s.capacity == InitialCapacity(args)
  {
    if |args| > 1 {
      return null;
    }
    s := new Stack(zero, InitialCapacity(args));
  }

  /** A push undone by a pop: the pushed value comes back and the contents are as before. */
  method PushPop<T>(s: Stack<T>, x: T) returns (t: T, ok: bool)
    requires s.Valid()
    modifies s
    ensures s.Valid() && ok && t == x && s.elems == old(s.elems)
  {
    s.Push(x);
    t, ok := s.Pop();
  }

  /**
   * Last in, first out: on a fresh stack, pushing 1, 2, 3 and popping three
   * times yields 3, 2, 1, and a further pop finds the stack empty.
   */
  method PushThreePopThree() returns (a: int, b: int, c: int, n: int, last: bool)
    ensures a == 3 && b == 2 && c == 1 && n == 0 && !last
  {
    var s := New(0, []);
    s.Push(1);
    s.Push(2);
    s.Push(3);
    assert s.elems == [1, 2, 3];
    var ok;
    a, ok := s.Pop();
    assert s.elems == [1, 2];
    b, ok := s.Pop();
    assert s.elems == [1];
    c, ok := s.Pop();
    n := s.Len();
    var d;
    d, last := s.Pop();
  }
}

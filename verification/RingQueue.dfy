/** A queue in a circular array that doubles when it is full. */
module RingQueue {

  /** The slot of element i of a queue that starts at pointer. */
  function Slot(pointer: int, i: int, capacity: int): (k: int)
    requires 0 <= pointer < capacity && 0 <= i < capacity
    ensures 0 <= k < capacity && k == (pointer + i) % capacity
  {
    SlotCases(pointer + i, capacity);
    if pointer + i < capacity then pointer + i else pointer + i - capacity
  }

  lemma SlotCases(x: int, capacity: int)
    requires 0 <= x < 2 * capacity
    ensures x % capacity == if x < capacity then x else x - capacity
  {
    if x >= capacity { assert x == 1 * capacity + (x - capacity); }
  }

  class Queue<T(0)> {
    var data: array<T>
    var pointer: int
    var len: int
    var capacity: int

    ghost predicate Valid()
      reads this
    {
      0 <= pointer < capacity == data.Length && 0 <= len <= capacity
    }

    /** The elements, the next one to be popped first. */
    ghost function Contents(): (s: seq<T>)
      requires Valid()
      reads this, data
    {
      seq(len, i requires 0 <= i < len && Valid() reads this, data => data[Slot(pointer, i, capacity)])
    }

    constructor (size: int)
      requires 0 < size
      ensures Valid() && Contents() == [] && fresh(data)
    {
      capacity := size;
      len := 0;
      pointer := 0;
      data := new T[size];
    }

    method Pop() returns (x: T)
      requires Valid() && len > 0
      modifies this
      ensures Valid() && data == old(data)
      ensures old(Contents()) == [x] + Contents()
    {
      ghost var s := Contents();
      x := data[pointer];
      len := len - 1;
      SlotCases(pointer + 1, capacity);
      pointer := (pointer + 1) % capacity;
      assert s == [x] + Contents();
    }

    method SimplePush(x: T)
      requires Valid() && len < capacity
      modifies this, data
      ensures Valid() && data == old(data) && Contents() == old(Contents()) + [x]
    {
      ghost var s := Contents();
      SlotCases(pointer + len, capacity);
      data[(pointer + len) % capacity] := x;
      len := len + 1;
      assert Contents() == s + [x];
    }

    /** A full queue moves to an array of twice the size: the part from pointer on goes to its end. */
    method Resize()
      requires Valid() && len == capacity
      modifies this
      ensures Valid() && capacity == 2 * old(capacity) && len == old(len) && fresh(data)
      ensures Contents() == old(Contents())
    {
      ghost var s := Contents();
      var oldCap, oldP := capacity, pointer;
      var newCap := 2 * oldCap;
      var newP := newCap - oldCap + oldP;
      var bigger := new T[newCap];
      forall i | 0 <= i < oldCap { bigger[i] := data[i]; }
      forall i | 0 <= i < oldCap - oldP { bigger[newP + i] := data[oldP + i]; }
      data := bigger;
      capacity := newCap;
      pointer := newP;
      assert Contents() == s;
    }

    method Push(x: T)
      requires Valid()
      modifies this, data
      ensures Valid() && (data == old(data) || fresh(data)) && Contents() == old(Contents()) + [x]
    {
      if len == capacity {
        Resize();
      }
      SimplePush(x);
    }

    predicate IsEmpty()
      requires Valid()
      reads this, data
      ensures IsEmpty() <==> Contents() == []
    {
      len == 0
    }
  }
}

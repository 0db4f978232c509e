/** The growing ring buffer of `kernel/kstd/queue.hpp`, as far as the disk cache uses it. */
module RingQueue {

  /** The remainder of a number below twice the modulus. */
  function Wrap(x: int, m: int): int { if x < m then x else x - m }

  lemma ModWrap(x: int, m: int)
    requires 0 <= x < 2 * m
    ensures x % m == Wrap(x, m)
  {
    if x < m {
      ModUnique(x, m, 0, x);
    } else {
      ModUnique(x, m, 1, x - m);
    }
  }

  lemma ModUnique(x: int, m: int, q: int, r: int)
    requires m > 0 && x == q * m + r && 0 <= r < m
    ensures x % m == r
  {
    var k := x / m - q;
    assert x == m * (x / m) + x % m;
    assert k * m == r - x % m by {
      assert (x / m) * m - q * m == k * m;
    }
    MulAtLeast(k, m);
  }

  lemma MulAtLeast(k: int, m: int)
    requires m > 0
    ensures (k > 0 ==> k * m >= m) && (k < 0 ==> k * m <= -m)
  {
  }

  /** The buffer and the indices into it. */
  datatype Ring = Ring(storage: seq<int>, size: nat, front: nat, back: nat)
  {
    /** The i-th slot from the front, around the end of the buffer. */
    function Slot(i: nat): int
      requires front < |storage| && i < |storage|
    {
      storage[Wrap(front + i, |storage|)]
    }

    /** The elements stand in consecutive slots from the front to the back. */
    predicate Ok() {
      && size <= |storage| && (size == 0 ==> front == 0 && back == 0)
      && (size > 0 ==> front < |storage| && back == Wrap(front + size - 1, |storage|))
    }

    /** The elements, front first. */
    function Elements(): seq<int>
      requires Ok()
    {
      if size == 0 then [] else seq(size, i requires 0 <= i < size => Slot(i))
    }

    /** Where the scan of `contains` stops: reduced by the size, although slots are numbered by the capacity. */
    function Stop(): nat
      requires Ok() && size > 0
    {
      (back + 1) % size
    }

    /** How many slots the scan looks at, from the front on and around the end of the buffer. */
    function ScanLength(): nat
      requires Ok() && size > 0
    {
      if Stop() > front then Stop() - front else |storage| - front + Stop()
    }

    /** Some scanned slot, vacated or not, holds the value. */
    ghost predicate Finds(v: int)
      requires Ok()
    {
      size > 0 && exists k: nat :: k < ScanLength() && k < |storage| && Slot(k) == v
    }

    /** The scan takes a value in a vacated slot for an element. */
    ghost predicate Misled(v: int)
      requires Ok()
    {
      Finds(v) && v !in Elements()
    }
  }

  /** The scan never stops short of the back of the queue, but may run on over vacated slots. */
  lemma ScanCovers(r: Ring)
    requires r.Ok() && r.size > 0
    ensures r.size <= r.ScanLength() <= |r.storage|
    ensures r.ScanLength() == r.size <==>
              || r.front + r.size > |r.storage| || r.size == |r.storage|
              || (r.front + r.size == |r.storage| && r.front % r.size == 0)
  {
    if r.front + r.size > |r.storage| {
      ModWrap(r.back + 1, r.size);
    } else if r.front < r.size {
      ModUnique(r.back + 1, r.size, 1, r.front);
      ModUnique(r.front, r.size, 0, r.front);
    } else {
      ModUnique(r.back + 1, r.size, r.front / r.size + 1, r.front % r.size);
    }
  }

  /** An element is always found, and nothing else is if the queue is empty or the scan covers just the elements. */
  lemma FindsElements(r: Ring, v: int)
    requires r.Ok()
    ensures v in r.Elements() ==> r.Finds(v)
    ensures r.size == 0 || r.ScanLength() == r.size ==> !r.Misled(v)
  {
    if r.size > 0 {
      ScanCovers(r);
      if v in r.Elements() {
        var k: nat :| k < r.size && r.Elements()[k] == v;
        assert r.Slot(k) == v;
      }
      if r.ScanLength() == r.size && r.Finds(v) {
        var k: nat :| k < r.ScanLength() && k < |r.storage| && r.Slot(k) == v;
        assert r.Elements()[k] == v;
      }
    }
  }

  /** `push_back`: into the slot after the back, or at the end of a larger buffer whose other slots are zero. */
  function Pushed(r: Ring, v: int): Ring
    requires r.Ok()
  {
    if r.size == |r.storage| then
      var capacity := if r.size == 0 then 1 else 2 * r.size;
      Ring(r.Elements() + [v] + seq(capacity - r.size - 1, _ => 0), r.size + 1, 0, r.size)
    else
      var back := if r.size == 0 then 0 else Wrap(r.back + 1, |r.storage|);
      Ring(r.storage[back := v], r.size + 1, r.front, back)
  }

  lemma PushedElements(r: Ring, v: int)
    requires r.Ok()
    ensures Pushed(r, v).Ok() && Pushed(r, v).Elements() == r.Elements() + [v]
  {
    var q := Pushed(r, v);
    PushedSlot(r, v, 0);
    hide Pushed, Ring.Ok, Ring.Slot;
    ElementsSize(r);
    ElementsSize(q);
    forall i: nat | i <= r.size ensures q.Elements()[i] == (r.Elements() + [v])[i] {
      PushedSlot(r, v, i);
      ElementsAt(q, i);
      if i < r.size {
        ElementsAt(r, i);
      }
    }
  }

  lemma ElementsSize(r: Ring)
    requires r.Ok()
    ensures |r.Elements()| == r.size
  {
  }

  lemma ElementsAt(r: Ring, i: nat)
    requires r.Ok() && i < r.size
    ensures r.front < |r.storage| && i < |r.storage| && |r.Elements()| == r.size && r.Elements()[i] == r.Slot(i)
  {
  }

  lemma PushedSlot(r: Ring, v: int, i: nat)
    requires r.Ok() && i <= r.size
    ensures var q := Pushed(r, v);
            && q.Ok() && q.size == r.size + 1 && q.front < |q.storage| && i < |q.storage|
            && (i == r.size ==> q.Slot(i) == v)
            && (i < r.size ==> r.front < |r.storage| && q.Slot(i) == r.Slot(i))
  {
    hide Ring.Elements;
    ElementsSize(r);
    if i < r.size {
      ElementsAt(r, i);
    }
  }

  class Queue {
    var storage: seq<int>
    var capacity: nat
    var size: nat
    var front: nat
    var back: nat

    ghost function Value(): Ring
      reads this
    {
      Ring(storage, size, front, back)
    }

    ghost predicate Valid()
      reads this
    {
      |storage| == capacity && Value().Ok()
    }

    ghost function Contents(): seq<int>
      requires Valid()
      reads this
    {
      Value().Elements()
    }

    constructor ()
      ensures Valid() && Value() == Ring([], 0, 0, 0)
    {
      storage, capacity, size, front, back := [], 0, 0, 0, 0;
    }

    /** `realloc` to a larger buffer: the elements move to its start, the rest is zero. */
    method Grow(newCapacity: nat)
      requires Valid() && newCapacity > capacity && size == capacity
      modifies this
      ensures Valid() && capacity == newCapacity && size == old(size)
      ensures front == 0 && storage == old(Contents()) + seq(newCapacity - size, _ => 0)
    {
      if capacity == 0 {
        capacity := newCapacity;
        storage := seq(newCapacity, i => 0);
        return;
      }
      var tmp := seq(newCapacity, i => 0);
      var i := 0;
      while i < size
        invariant unchanged(this) && i <= size && |tmp| == newCapacity
        invariant forall j: nat :: j < |tmp| ==> tmp[j] == if j < i then Contents()[j] else 0
      {
        ModWrap(front + i, capacity);
        assert Value().Slot(i) == Contents()[i];
        tmp := tmp[i := storage[(front + i) % capacity]];
        i := i + 1;
      }
      storage, capacity, front, back := tmp, newCapacity, 0, size - 1;
    }

    /** `push_back`. */
    method PushBack(v: int)
      requires Valid()
      modifies this
      ensures Valid() && Value() == Pushed(old(Value()), v) && Contents() == old(Contents()) + [v]
    {
      PushedElements(Value(), v);
      ghost var full, elements := size == capacity, Contents();
      if size == capacity {
        Grow(if capacity != 0 then capacity * 2 else 1);
      }
      if size == 0 {
        front, back := 0, 0;
      } else {
        ModWrap(back + 1, capacity);
        back := (back + 1) % capacity;
      }
      assert full ==> back == |elements|;
      storage := storage[back := v];
      size := size + 1;
      assert full ==> storage == elements + [v] + seq(capacity - size, _ => 0);
    }

    /** `pop_front`. */
    method PopFront() returns (v: int)
      requires Valid() && size > 0
      modifies this
      ensures Valid() && v == old(Contents())[0] && Contents() == old(Contents())[1..]
      ensures storage == old(storage) && size == old(size) - 1
      ensures front == if size == 0 then 0 else Wrap(old(front) + 1, capacity)
    {
      ghost var r := Value();
      assert r.Elements()[0] == r.Slot(0);
      v := storage[front];
      size := size - 1;
      if size == 0 {
        front, back := 0, 0;
      } else {
        ModWrap(front + 1, capacity);
        front := (front + 1) % capacity;
      }
      forall i: nat | i < size ensures Contents()[i] == r.Elements()[1..][i] {
        assert Value().Slot(i) == r.Slot(i + 1);
      }
    }

    /** `contains`: true exactly when some scanned slot, vacated or not, holds the value. */
    method Contains(v: int) returns (b: bool)
      requires Valid()
      ensures b <==> Value().Finds(v)
      ensures v in Contents() ==> b
      ensures size > 0 && Value().ScanLength() == size ==> (b <==> v in Contents())
    {
      FindsElements(Value(), v);
      if size == 0 {
        return false;
      }
      ghost var r := Value();
      ScanCovers(r);
      var i := front;
      ghost var n := 0;
      while true
        invariant n < r.ScanLength() && i == Wrap(front + n, capacity)
        invariant forall k: nat :: k < n ==> r.Slot(k) != v
        decreases r.ScanLength() - n
      {
        assert storage[i] == r.Slot(n);
        if storage[i] == v {
          return true;
        }
        ModWrap(i + 1, capacity);
        i := (i + 1) % capacity;
        n := n + 1;
        if i == (back + 1) % size {
          break;
        }
      }
      assert n == r.ScanLength();
      return false;
    }
  }

  /** Pushing 5, 6, 7 and popping once. */
  method PushThreePopOne() returns (q: Queue)
    ensures fresh(q) && q.Valid() && q.Contents() == [6, 7] && q.storage == [5, 6, 7, 0] && q.front == 1
  {
    q := new Queue();
    q.PushBack(5);
    assert q.Contents() == [5] && q.capacity == 1;
    q.PushBack(6);
    assert q.Contents() == [5, 6] && q.capacity == 2;
    q.PushBack(7);
    assert q.Contents() == [5, 6, 7] && q.storage == [5, 6, 7, 0];
    var popped := q.PopFront();
  }

  /** In the queue that is left, `contains` finds the 5, and a 0 that was never pushed. */
  method StaleValues() returns (q: Queue, five: bool, zero: bool)
    ensures fresh(q) && q.Valid() && q.Contents() == [6, 7] && five && zero
  {
    q := PushThreePopOne();
    assert q.capacity == 4 && q.Value().Stop() == 1 && q.Value().ScanLength() == 4;
    five := q.Contains(5);
    assert q.Value().Slot(3) == 5;
    zero := q.Contains(0);
    assert q.Value().Slot(2) == 0;
  }
}

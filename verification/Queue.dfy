/** sys/lib/queue.c: a ring of pointers that behaves as a bounded sequence. */
module Queue {
  import opened Bits
  import opened Wrappers

  /** Where the `k`-th element of a ring of `size` slots lies when the first is at `head`. */
  function Slot(head: nat, k: nat, size: nat): (i: nat)
    requires head < size && k <= size
    ensures i == if head + k < size then head + k else head + k - size
    ensures i < size
  {
    WrapsOnce(head + k, size);
    (head + k) % size
  }

  lemma WrapsOnce(a: nat, n: nat)
    requires a < 2 * n
    ensures a % n == if a < n then a else a - n
  {
    Divided(a, n, if a < n then 0 else 1, if a < n then a else a - n);
  }

  class Ring<T(0)> {
    const data: array<T>
    const size: nat
    var elem: nat
    var head: nat
    var tail: nat

    ghost var contents: seq<T>  // oldest first

    ghost predicate Valid()
      reads this, data
    {
      && data.Length == size && |contents| == elem
      && (if size == 0 then elem == head == tail == 0
          else elem < size && head < size && tail == Slot(head, elem, size))
      && forall k :: 0 <= k < elem ==> contents[k] == data[Slot(head, k, size)]
    }

    /** How many elements fit: one slot always stays unused. */
    ghost function Capacity(): nat {
      if size == 0 then 0 else size - 1
    }

    constructor (n: nat)
      ensures Valid() && contents == [] && Capacity() == n && fresh(data)
    {
      size := n + 1;
      data := new T[n + 1];
      elem, head, tail := 0, 0, 0;
      contents := [];
    }

    method Count() returns (n: nat)
      requires Valid()
      ensures n == |contents|
    {
      n := elem;
    }

    /** Appends `x`, or refuses and changes nothing when the ring is full. */
    method AddTail(x: T) returns (failed: bool)
      requires Valid()
      modifies this, data
      ensures Valid() && failed == (old(|contents|) == Capacity())
      ensures contents == if failed then old(contents) else old(contents) + [x]
    {
      if size == 0 { return true; }
      WrapsOnce(tail + 1, size);
      var next := (tail + 1) % size;
      if next == head { return true; }
      data[tail] := x;
      tail := next;
      elem := elem + 1;
      contents := contents + [x];
      return false;
    }

    /** Takes the oldest element. */
    method RemHead() returns (r: Option<T>)
      requires Valid()
      modifies this
      ensures Valid()
      ensures old(contents) == [] ==> r == None && contents == []
      ensures old(contents) != [] ==> r == Some(old(contents)[0]) && contents == old(contents)[1..]
    {
      if size == 0 || head == tail { return None; }
      r := Some(data[head]);
      WrapsOnce(head + 1, size);
      head := (head + 1) % size;
      elem := elem - 1;
      contents := contents[1..];
    }

    method Get(k: nat) returns (r: Option<T>)
      requires Valid()
      ensures r == if k < |contents| then Some(contents[k]) else None
    {
      if size == 0 || elem <= k || head == tail { return None; }
      return Some(data[Slot(head, k, size)]);
    }

    method Set(k: nat, x: T) returns (failed: bool)
      requires Valid()
      modifies data, this`contents
      ensures Valid() && failed == (|old(contents)| <= k)
      ensures contents == if failed then old(contents) else old(contents)[k := x]
    {
      if size == 0 || elem <= k || head == tail { return true; }
      data[Slot(head, k, size)] := x;
      contents := contents[k := x];
      return false;
    }

    method Swap(k1: nat, k2: nat) returns (failed: bool)
      requires Valid()
      modifies data, this`contents
      ensures Valid() && failed == (|old(contents)| <= k1 || |old(contents)| <= k2)
      ensures contents == if failed then old(contents)
                            else old(contents)[k1 := old(contents)[k2]][k2 := old(contents)[k1]]
    {
      if size == 0 || elem <= k1 || elem <= k2 || head == tail { return true; }
      var t := data[Slot(head, k1, size)];
      data[Slot(head, k1, size)] := data[Slot(head, k2, size)];
      data[Slot(head, k2, size)] := t;
      contents := contents[k1 := contents[k2]][k2 := contents[k1]];
      return false;
    }

    /** The scheduler's step through the ring: the head becomes the tail. */
    method Rotate() returns (x: Option<T>, failed: bool)
      requires Valid() && contents != []
      modifies this, data
      ensures Valid() && !failed && x == Some(old(contents)[0])
      ensures contents == old(contents)[1..] + [old(contents)[0]]
    {
      x := RemHead();
      failed := AddTail(x.value);
    }
  }
}

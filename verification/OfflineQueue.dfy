/** The ring of `iiot_core.c`: records in a fixed array, addressed modulo the capacity. */
module OfflineQueue {
  import opened MachineWords
  import opened Options
  import Fifo

  const CAPACITY_MAX: nat := 32

  /** The array index of the element `offset` places after the head. */
  function Slot(head: nat, offset: nat, capacity: nat): (slot: nat)
    requires head < capacity && offset <= capacity
    ensures slot == if head + offset < capacity then head + offset else head + offset - capacity
  {
    WrapsOnce(head + offset, capacity);
    (head + offset) % capacity
  }

  lemma WrapsOnce(x: nat, n: nat)
    requires x < 2 * n
    ensures x % n == if x < n then x else x - n
  {
    var quotient := x / n;
    assert x == quotient * n + x % n;
    if quotient >= 2 {
      AtLeastTwice(quotient, n);
      assert false;
    }
  }

  lemma AtLeastTwice(a: nat, n: nat)
    requires a >= 2
    ensures a * n >= 2 * n
  {
    assert a * n == 2 * n + (a - 2) * n;
  }

  /** What the ring holds: its live records oldest first, and where they start. */
  datatype Ring<T> = Ring(capacity: nat, head: nat, live: seq<T>, dropped: UInt32) {
    predicate Valid() {
      1 <= capacity <= CAPACITY_MAX && head < capacity && |live| <= capacity
    }

    function Full(): bool { |live| == capacity }

    /** The index the next record goes to: the oldest record's when the ring is full. */
    function NextSlot(): nat
      requires Valid()
    {
      if Full() then head else Slot(head, |live|, capacity)
    }

    function Push(item: T): (r: Ring<T>)
      requires Valid()
      ensures r.Valid() && r.capacity == capacity
    {
      if Full() then Ring(capacity, Slot(head, 1, capacity), live[1..] + [item], ToUInt32(dropped + 1))
      else Ring(capacity, head, live + [item], dropped)
    }

    function Pop(): (r: Ring<T>)
      requires Valid()
      ensures r.Valid() && r.capacity == capacity
    {
      if live == [] then this else Ring(capacity, Slot(head, 1, capacity), live[1..], dropped)
    }
  }

  function Initial<T>(capacity: nat): (r: Ring<T>)
    ensures r.Valid()
  {
    Ring(if capacity == 0 || capacity > CAPACITY_MAX then CAPACITY_MAX else capacity, 0, [], 0)
  }

  /** The ring is the bounded queue `q`, its counter taken modulo 2^32. */
  ghost predicate Refines<T>(r: Ring<T>, q: Fifo.Queue<T>) {
    r.Valid() && r.live == q.items && r.dropped == q.dropped % TWO_32
  }

  function Apply<T>(r: Ring<T>, op: Fifo.Op<T>): Ring<T>
    requires r.Valid()
  {
    match op
    case DoPush(item) => r.Push(item)
    case DoPop => r.Pop()
  }

  function Run<T>(r: Ring<T>, ops: seq<Fifo.Op<T>>): (s: Ring<T>)
    requires r.Valid()
    ensures s.Valid() && s.capacity == r.capacity
  {
    if ops == [] then r else Apply(Run(r, ops[..|ops| - 1]), ops[|ops| - 1])
  }

  lemma PushRefines<T>(r: Ring<T>, q: Fifo.Queue<T>, item: T)
    requires Refines(r, q)
    ensures Refines(r.Push(item), Fifo.Push(q, r.capacity, item))
  {
  }

  lemma PopRefines<T>(r: Ring<T>, q: Fifo.Queue<T>)
    requires Refines(r, q)
    ensures Refines(r.Pop(), Fifo.Pop(q))
  {
  }

  /** Over every operation sequence the ring is the bounded drop-oldest queue. */
  lemma {:induction false} RunRefines<T>(r: Ring<T>, q: Fifo.Queue<T>, ops: seq<Fifo.Op<T>>)
    requires Refines(r, q)
    ensures Refines(Run(r, ops), Fifo.Run(q, r.capacity, ops))
  {
    if ops != [] {
      RunRefines(r, q, ops[..|ops| - 1]);
      var ring, queue := Run(r, ops[..|ops| - 1]), Fifo.Run(q, r.capacity, ops[..|ops| - 1]);
      hide Refines, Ring.Push, Ring.Pop, Fifo.Push, Fifo.Pop;
      match ops[|ops| - 1] {
        case DoPush(item) => PushRefines(ring, queue, item);
        case DoPop => PopRefines(ring, queue);
      }
    }
  }

  class Buffer<T(0)> {
    const records: array<T>
    var dropped: UInt32
    var head: nat
    var count: nat
    var capacity: nat

    ghost predicate Valid()
      reads this
    {
      && records.Length == CAPACITY_MAX
      && 1 <= capacity <= CAPACITY_MAX && head < capacity && count <= capacity
    }

    ghost function Value(): (r: Ring<T>)
      reads this, records
      requires Valid()
      ensures r.Valid()
    {
      Ring(capacity, head,
           seq(count, i requires 0 <= i < count && Valid() reads this, records => records[Slot(head, i, capacity)]),
           dropped)
    }

    constructor ()
      ensures Valid() && fresh(records) && Value() == Initial(0)
    {
      records := new T[CAPACITY_MAX];
      dropped, head, count, capacity := 0, 0, 0, CAPACITY_MAX;
    }

    method Init(capacity': nat)
      requires records.Length == CAPACITY_MAX
      modifies this
      ensures Valid() && Value() == Initial(capacity')
      ensures capacity == if 1 <= capacity' <= 32 then capacity' else 32
    {
      dropped, head, count := 0, 0, 0;
      capacity := if capacity' == 0 || capacity' > CAPACITY_MAX then CAPACITY_MAX else capacity';
    }

    method Push(item: T) returns (kept: bool)
      requires Valid()
      modifies this, records
      ensures Valid() && Value() == old(Value()).Push(item)
      ensures kept == !old(Value()).Full()
    {
      hide Slot;
      ghost var before := Value();
      kept := true;
      if count == capacity {
        head := Slot(head, 1, capacity);
        count := count - 1;
        dropped := (dropped + 1) % TWO_32;
        kept := false;
        assert Value().live == before.live[1..];
      }
      ghost var room := Value().live;
      var tail := Slot(head, count, capacity);
      records[tail] := item;
      count := count + 1;
      assert Value().live == room + [item];
    }

    method Peek() returns (item: Option<T>)
      requires Valid()
      ensures item == if Value().live == [] then None else Some(Value().live[0])
    {
      if count == 0 {
        return None;
      }
      item := Some(records[head]);
    }

    method Pop() returns (item: Option<T>)
      requires Valid()
      modifies this
      ensures Valid() && Value() == old(Value()).Pop()
      ensures item == if old(Value()).live == [] then None else Some(old(Value()).live[0])
    {
      hide Slot;
      ghost var before := Value();
      item := Peek();
      if item.Some? {
        head := Slot(head, 1, capacity);
        count := count - 1;
      }
      assert Value().live == before.Pop().live;
    }
  }
}

/** The bounded queue that drops its oldest element, as the offline store is documented to behave. */
module Fifo {

  /** The contents, oldest first, with the number of elements dropped so far. */
  datatype Queue<T> = Queue(items: seq<T>, dropped: nat)

  function Push<T>(q: Queue<T>, capacity: nat, item: T): Queue<T>
    requires capacity > 0
  {
    if |q.items| >= capacity then Queue(q.items[1..] + [item], q.dropped + 1)
    else Queue(q.items + [item], q.dropped)
  }

  function Pop<T>(q: Queue<T>): Queue<T> {
    if q.items == [] then q else Queue(q.items[1..], q.dropped)
  }

  datatype Op<T> = DoPush(item: T) | DoPop

  function Apply<T>(q: Queue<T>, capacity: nat, op: Op<T>): Queue<T>
    requires capacity > 0
  {
    match op
    case DoPush(item) => Push(q, capacity, item)
    case DoPop => Pop(q)
  }

  function Run<T>(q: Queue<T>, capacity: nat, ops: seq<Op<T>>): Queue<T>
    requires capacity > 0
  {
    if ops == [] then q
    else Apply(Run(q, capacity, ops[..|ops| - 1]), capacity, ops[|ops| - 1])
  }

  /** The pushed elements in push order. */
  function Pushed<T>(ops: seq<Op<T>>): seq<T> {
    if ops == [] then []
    else Pushed(ops[..|ops| - 1]) + (if ops[|ops| - 1].DoPush? then [ops[|ops| - 1].item] else [])
  }

  /** The number of pops that found an element. */
  function Popped<T>(q: Queue<T>, capacity: nat, ops: seq<Op<T>>): nat
    requires capacity > 0
  {
    if ops == [] then 0
    else
      Popped(q, capacity, ops[..|ops| - 1]) +
      if ops[|ops| - 1].DoPop? && Run(q, capacity, ops[..|ops| - 1]).items != [] then 1 else 0
  }

  /** `q` holds the last of `pushed`, and accounts for all of them. */
  ghost predicate Latest<T>(q: Queue<T>, capacity: nat, pushed: seq<T>, popped: nat) {
    && |q.items| <= capacity && |pushed| == popped + q.dropped + |q.items|
    && q.items == pushed[|pushed| - |q.items|..]
  }

  lemma PushKeepsLatest<T>(q: Queue<T>, capacity: nat, pushed: seq<T>, popped: nat, item: T)
    requires capacity > 0 && Latest(q, capacity, pushed, popped)
    ensures Latest(Push(q, capacity, item), capacity, pushed + [item], popped)
  {
    var n, k := |q.items|, |pushed| - |q.items|;
    assert (pushed + [item])[k..] == q.items + [item];
    if n >= capacity {
      assert (pushed + [item])[k + 1..] == (q.items + [item])[1..] == q.items[1..] + [item];
    }
  }

  lemma PopKeepsLatest<T>(q: Queue<T>, capacity: nat, pushed: seq<T>, popped: nat)
    requires Latest(q, capacity, pushed, popped)
    ensures Latest(Pop(q), capacity, pushed, popped + if q.items == [] then 0 else 1)
  {
    if q.items != [] {
      assert q.items[1..] == pushed[|pushed| - |q.items| + 1..];
    }
  }

  lemma RunSnoc<T>(capacity: nat, ops: seq<Op<T>>)
    requires capacity > 0 && ops != []
    ensures var n, q := |ops| - 1, Run(Queue([], 0), capacity, ops[..|ops| - 1]);
            && Run(Queue([], 0), capacity, ops) == Apply(q, capacity, ops[n])
            && Pushed(ops) == Pushed(ops[..n]) + (if ops[n].DoPush? then [ops[n].item] else [])
            && Popped(Queue([], 0), capacity, ops) ==
               Popped(Queue([], 0), capacity, ops[..n]) + if ops[n].DoPop? && q.items != [] then 1 else 0
  {
    hide Apply;
  }

  /**
   * After any run the contents are the last pushes, in push order; nothing is
   * lost except the counted drops and the pops; the bound is never exceeded.
   */
  lemma {:induction false} RunKeepsLatest<T>(capacity: nat, ops: seq<Op<T>>)
    requires capacity > 0
    ensures Latest(Run(Queue([], 0), capacity, ops), capacity, Pushed(ops), Popped(Queue([], 0), capacity, ops))
  {
    if ops == [] {
      assert Pushed(ops) == [];
    } else {
      var n := |ops| - 1;
      RunKeepsLatest(capacity, ops[..n]);
      RunSnoc(capacity, ops);
      hide Run, Pushed, Popped, Latest, Push, Pop;
      var q, pushed := Run(Queue([], 0), capacity, ops[..n]), Pushed(ops[..n]);
      var popped := Popped(Queue([], 0), capacity, ops[..n]);
      match ops[n] {
        case DoPush(item) => PushKeepsLatest(q, capacity, pushed, popped, item);
        case DoPop =>
          PopKeepsLatest(q, capacity, pushed, popped);
          assert pushed + [] == pushed;
      }
    }
  }

  lemma {:induction false} RunAppend<T>(q: Queue<T>, capacity: nat, a: seq<Op<T>>, b: seq<Op<T>>)
    requires capacity > 0
    ensures Run(q, capacity, a + b) == Run(Run(q, capacity, a), capacity, b)
  {
    if b == [] {
      assert a + b == a;
    } else {
      assert (a + b)[..|a + b| - 1] == a + b[..|b| - 1];
      RunAppend(q, capacity, a, b[..|b| - 1]);
    }
  }
}

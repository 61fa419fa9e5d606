/**
 * The communication task replays the offline queue in three critical sections,
 * peek, publish and pop, between which the aggregation task may push.
 */
module ReplayLoop {
  import opened Fifo

  // ----- pushes between a peek and its pop

  function PushAll<T>(q: Queue<T>, capacity: nat, items: seq<T>): Queue<T>
    requires capacity > 0
  {
    if items == [] then q else Push(PushAll(q, capacity, items[..|items| - 1]), capacity, items[|items| - 1])
  }

  /** How many elements `extra` pushes drop from a queue of `held`. */
  function Overflow(held: nat, extra: nat, capacity: nat): nat {
    if held + extra > capacity then held + extra - capacity else 0
  }

  lemma {:induction false} PushAllKeepsLatest<T>(q: Queue<T>, capacity: nat, items: seq<T>)
    requires capacity > 0 && |q.items| <= capacity
    ensures var k := Overflow(|q.items|, |items|, capacity);
            PushAll(q, capacity, items) == Queue((q.items + items)[k..], q.dropped + k)
  {
    if items == [] {
      assert (q.items + items)[0..] == q.items;
    } else {
      var before, last := items[..|items| - 1], items[|items| - 1];
      PushAllKeepsLatest(q, capacity, before);
      assert items == before + [last];
      var k := Overflow(|q.items|, |before|, capacity);
      assert (q.items + items)[k..] == (q.items + before)[k..] + [last];
      assert (q.items + items)[k..][1..] == (q.items + items)[k + 1..];
    }
  }

  /**
   * If the queue held `q` at the peek and `items` were pushed before the pop, the
   * pop takes element k of q ++ items, k the number of elements dropped meanwhile.
   * Records being distinct, that is the peeked one exactly when nothing was dropped.
   */
  lemma PopTakes<T>(q: Queue<T>, capacity: nat, items: seq<T>)
    requires 0 < |q.items| <= capacity
    ensures var k := Overflow(|q.items|, |items|, capacity);
            var after := PushAll(q, capacity, items);
            && k < |q.items + items| && after.items != [] && after.items[0] == (q.items + items)[k]
            && Pop(after).items == (q.items + items)[k + 1..]
            && (Distinct(q.items + items) ==> (after.items[0] == q.items[0] <==> after.dropped == q.dropped))
  {
    PushAllKeepsLatest(q, capacity, items);
    var k := Overflow(|q.items|, |items|, capacity);
    assert (q.items + items)[k..][1..] == (q.items + items)[k + 1..];
    assert (q.items + items)[0] == q.items[0];
  }

  ghost predicate Distinct<T>(s: seq<T>) {
    forall i, j | 0 <= i < j < |s| :: s[i] != s[j]
  }

  // ----- the interleaved tasks

  datatype Phase<T> = Idle | Peeked(record: T) | Published(record: T)

  /**
   * `accepted`, `dropped` and `popped` record what left the queue, and how; `raced` tells that a drop came
   * between peek and pop.
   */
  datatype State<T> = State(queue: Queue<T>, phase: Phase<T>, raced: bool,
                            pushed: seq<T>, accepted: seq<T>, dropped: seq<T>, popped: seq<T>)

  datatype Action<T> = Enqueue(item: T) | PeekOldest | Publish(accepted: bool) | PopOldest | Restart

  /** A step that is not enabled leaves the state alone. */
  function Step<T>(s: State<T>, capacity: nat, action: Action<T>): State<T>
    requires capacity > 0
  {
    match action
    case Enqueue(item) =>
      var full := |s.queue.items| >= capacity;
      s.(queue := Push(s.queue, capacity, item), pushed := s.pushed + [item],
         dropped := if full then s.dropped + [(s.queue.items + [item])[0]] else s.dropped,
         raced := s.raced || (full && !s.phase.Idle?))
    case PeekOldest =>
      if s.phase.Idle? && s.queue.items != [] then s.(phase := Peeked(s.queue.items[0]), raced := false) else s
    case Publish(accepted) =>
      if !s.phase.Peeked? then s
      else if accepted then s.(phase := Published(s.phase.record), accepted := s.accepted + [s.phase.record])
      else s.(phase := Idle)
    case PopOldest =>
      if !s.phase.Published? then s
      else if s.queue.items == [] then s.(phase := Idle)
      else s.(queue := Pop(s.queue), phase := Idle, popped := s.popped + [s.queue.items[0]])
    case Restart => s.(phase := Idle)
  }

  function Run<T>(capacity: nat, actions: seq<Action<T>>): State<T>
    requires capacity > 0
  {
    if actions == [] then State(Queue([], 0), Idle, false, [], [], [], [])
    else Step(Run(capacity, actions[..|actions| - 1]), capacity, actions[|actions| - 1])
  }

  /** No pop of the run follows a drop since its peek. */
  ghost predicate Unraced<T>(capacity: nat, actions: seq<Action<T>>)
    requires capacity > 0
  {
    actions == [] ||
    (Unraced(capacity, actions[..|actions| - 1]) &&
     var s := Run(capacity, actions[..|actions| - 1]);
     actions[|actions| - 1].PopOldest? && s.phase.Published? ==> !s.raced)
  }

  ghost predicate Accounted<T>(s: State<T>, capacity: nat) {
    && |s.queue.items| <= capacity && s.queue.dropped == |s.dropped|
    && multiset(s.pushed) == multiset(s.queue.items) + multiset(s.dropped) + multiset(s.popped)
    && (s.phase.Published? ==> s.phase.record in s.accepted)
    && (!s.phase.Idle? && !s.raced ==> s.queue.items != [] && s.queue.items[0] == s.phase.record)
  }

  /** Record for record, everything pushed is held, counted as dropped, or popped, whatever the interleaving. */
  lemma {:induction false} RunAccounts<T>(capacity: nat, actions: seq<Action<T>>)
    requires capacity > 0
    ensures Accounted(Run(capacity, actions), capacity)
  {
    if actions != [] {
      RunAccounts(capacity, actions[..|actions| - 1]);
      StepAccounts(Run(capacity, actions[..|actions| - 1]), capacity, actions[|actions| - 1]);
    }
  }

  lemma StepAccounts<T>(s: State<T>, capacity: nat, action: Action<T>)
    requires capacity > 0 && Accounted(s, capacity)
    ensures Accounted(Step(s, capacity, action), capacity)
  {
    match action {
      case Enqueue(item) => EnqueueAccounts(s, capacity, item);
      case PopOldest => PopAccounts(s, capacity);
      case _ =>
    }
  }

  lemma PopAccounts<T>(s: State<T>, capacity: nat)
    requires capacity > 0 && Accounted(s, capacity)
    ensures Accounted(Step(s, capacity, PopOldest), capacity)
  {
    if s.phase.Published? && s.queue.items != [] {
      SplitFirst(s.queue.items);
    }
  }

  lemma SplitFirst<T>(items: seq<T>)
    requires items != []
    ensures multiset(items) == multiset{items[0]} + multiset(items[1..])
  {
    assert items == [items[0]] + items[1..];
  }

  lemma EnqueueAccounts<T>(s: State<T>, capacity: nat, item: T)
    requires capacity > 0 && Accounted(s, capacity)
    ensures Accounted(Step(s, capacity, Enqueue(item)), capacity)
  {
    var items, after := s.queue.items, Step(s, capacity, Enqueue(item));
    if |items| >= capacity {
      SplitFirst(items);
      assert after.queue.items == items[1..] + [item] && after.dropped == s.dropped + [items[0]];
    } else {
      assert after.queue.items == items + [item] && after.dropped == s.dropped;
    }
  }

  /** Without such a race every popped record was taken by the publish call first. */
  lemma {:induction false} UnracedPopsWereAccepted<T>(capacity: nat, actions: seq<Action<T>>)
    requires capacity > 0 && Unraced(capacity, actions)
    ensures forall x | x in Run(capacity, actions).popped :: x in Run(capacity, actions).accepted
  {
    if actions != [] {
      UnracedPopsWereAccepted(capacity, actions[..|actions| - 1]);
      RunAccounts(capacity, actions[..|actions| - 1]);
    }
  }

  /** At least once: without a race every pushed record is held, was accepted, or is in the dropped count. */
  lemma AtLeastOnce<T>(capacity: nat, actions: seq<Action<T>>)
    requires capacity > 0 && Unraced(capacity, actions)
    ensures var s := Run(capacity, actions);
            forall x | x in s.pushed :: x in s.queue.items || x in s.accepted || x in s.dropped
    ensures Run(capacity, actions).queue.dropped == |Run(capacity, actions).dropped|
  {
    RunAccounts(capacity, actions);
    UnracedPopsWereAccepted(capacity, actions);
    var s := Run(capacity, actions);
    forall x | x in s.pushed
      ensures x in s.queue.items || x in s.accepted || x in s.dropped
    {
      assert x in multiset(s.pushed);
      assert x in multiset(s.queue.items) || x in multiset(s.dropped) || x in multiset(s.popped);
    }
  }

  // ----- the race is the only way to lose a record

  /** `items` is where the distinct pushed records end, and of those only the oldest can have been accepted. */
  ghost predicate Unsent<T>(s: State<T>) {
    var items := s.queue.items;
    && |items| <= |s.pushed| && items == s.pushed[|s.pushed| - |items|..]
    && (forall x | x in s.accepted :: x in s.pushed)
    && (forall i | 1 <= i < |items| :: items[i] !in s.accepted)
    && (!s.phase.Idle? ==>
          && s.phase.record in s.pushed && items != []
          && if s.raced then s.phase.record !in items && items[0] !in s.accepted else s.phase.record == items[0])
  }

  /** `x` was popped without having been accepted, and never will be. */
  ghost predicate Lost<T>(s: State<T>, x: T) {
    && x in s.popped && x in s.pushed && x !in s.accepted && x !in s.queue.items
    && (!s.phase.Idle? ==> s.phase.record != x)
  }

  lemma DistinctPrefix<T>(a: seq<T>, x: T)
    requires Distinct(a + [x])
    ensures Distinct(a) && x !in a
  {
    assert forall i | 0 <= i < |a| :: (a + [x])[i] == a[i];
    assert (a + [x])[|a|] == x;
  }

  lemma SuffixDistinct<T>(a: seq<T>, k: nat)
    requires Distinct(a) && k <= |a|
    ensures Distinct(a[k..])
    ensures k < |a| ==> a[k] !in a[k + 1..]
  {
  }

  lemma EnqueueUnsent<T>(s: State<T>, capacity: nat, item: T)
    requires capacity > 0 && Unsent(s) && Distinct(s.pushed + [item])
    ensures Unsent(Step(s, capacity, Enqueue(item)))
  {
    var items, after := s.queue.items, Step(s, capacity, Enqueue(item));
    var k := |s.pushed| - |items|;
    DistinctPrefix(s.pushed, item);
    SuffixDistinct(s.pushed, k);
    if |items| >= capacity {
      assert after.queue.items == items[1..] + [item] == after.pushed[k + 1..];
      assert items[0] !in items[1..];
    } else {
      assert after.queue.items == items + [item] == after.pushed[k..];
    }
    assert forall i | 0 <= i < |items| :: items[i] in s.pushed;
  }

  lemma PublishUnsent<T>(s: State<T>, capacity: nat, accepted: bool)
    requires capacity > 0 && Unsent(s) && Distinct(s.pushed)
    ensures Unsent(Step(s, capacity, Publish(accepted)))
  {
    var items, after := s.queue.items, Step(s, capacity, Publish(accepted));
    SuffixDistinct(s.pushed, |s.pushed| - |items|);
    hide Distinct;
    if s.phase.Peeked? && accepted {
      assert items[0] !in items[1..];
      forall i | 1 <= i < |items|
        ensures items[i] !in after.accepted
      {
        assert items[i] == items[1..][i - 1];
      }
    }
  }

  lemma PopUnsent<T>(s: State<T>, capacity: nat)
    requires capacity > 0 && Unsent(s)
    ensures Unsent(Step(s, capacity, PopOldest))
  {
    var items, after := s.queue.items, Step(s, capacity, PopOldest);
    if s.phase.Published? {
      assert after.queue.items == s.pushed[|s.pushed| - |items| + 1..];
    }
  }

  lemma PeekUnsent<T>(s: State<T>, capacity: nat)
    requires capacity > 0 && Unsent(s)
    ensures Unsent(Step(s, capacity, PeekOldest))
  {
    var items := s.queue.items;
    assert items != [] ==> items[0] == s.pushed[|s.pushed| - |items|];
  }

  lemma StepUnsent<T>(s: State<T>, capacity: nat, action: Action<T>)
    requires capacity > 0 && Unsent(s) && Distinct(Step(s, capacity, action).pushed)
    ensures Unsent(Step(s, capacity, action))
  {
    hide Unsent, Distinct;
    match action {
      case Enqueue(item) => EnqueueUnsent(s, capacity, item);
      case PeekOldest => PeekUnsent(s, capacity);
      case Publish(accepted) => PublishUnsent(s, capacity, accepted);
      case PopOldest => PopUnsent(s, capacity);
      case Restart => RestartUnsent(s, capacity);
    }
  }

  lemma RestartUnsent<T>(s: State<T>, capacity: nat)
    requires capacity > 0 && Unsent(s)
    ensures Unsent(Step(s, capacity, Restart))
  {
  }

  lemma StepKeepsLost<T>(s: State<T>, capacity: nat, action: Action<T>, x: T)
    requires capacity > 0 && Lost(s, x) && Distinct(Step(s, capacity, action).pushed)
    ensures Lost(Step(s, capacity, action), x)
  {
    if action.Enqueue? {
      DistinctPrefix(s.pushed, action.item);
    }
  }

  lemma RacedPopLoses<T>(s: State<T>, capacity: nat)
    requires capacity > 0 && Unsent(s) && Distinct(s.pushed) && s.phase.Published? && s.raced
    requires s.queue.items != []
    ensures Lost(Step(s, capacity, PopOldest), s.queue.items[0])
  {
    SuffixDistinct(s.pushed, |s.pushed| - |s.queue.items|);
  }

  lemma PushedGrow<T>(s: State<T>, capacity: nat, action: Action<T>)
    requires capacity > 0 && Distinct(Step(s, capacity, action).pushed)
    ensures Distinct(s.pushed)
  {
    if action.Enqueue? {
      DistinctPrefix(s.pushed, action.item);
    }
  }

  lemma RunSnoc<T>(capacity: nat, actions: seq<Action<T>>)
    requires capacity > 0 && actions != []
    ensures var n := |actions| - 1;
            && Run(capacity, actions) == Step(Run(capacity, actions[..n]), capacity, actions[n])
            && (Unraced(capacity, actions) <==>
                  Unraced(capacity, actions[..n]) &&
                  var s := Run(capacity, actions[..n]);
                  (actions[n].PopOldest? && s.phase.Published? ==> !s.raced))
  {
    hide Step;
  }

  lemma {:induction false} RunUnsent<T>(capacity: nat, actions: seq<Action<T>>)
    requires capacity > 0 && Distinct(Run(capacity, actions).pushed)
    ensures Unsent(Run(capacity, actions))
  {
    if actions != [] {
      var n := |actions| - 1;
      RunSnoc(capacity, actions);
      hide Unsent, Distinct, Run, Unraced, Step;
      PushedGrow(Run(capacity, actions[..n]), capacity, actions[n]);
      RunUnsent(capacity, actions[..n]);
      StepUnsent(Run(capacity, actions[..n]), capacity, actions[n]);
    }
  }

  /** The record that a raced pop took is lost for good. */
  lemma {:induction false} RaceLoses<T>(capacity: nat, actions: seq<Action<T>>) returns (x: T)
    requires capacity > 0 && Distinct(Run(capacity, actions).pushed) && !Unraced(capacity, actions)
    ensures Lost(Run(capacity, actions), x)
  {
    assert actions != [];
    var n := |actions| - 1;
    var s := Run(capacity, actions[..n]);
    RunSnoc(capacity, actions);
    hide Unsent, Lost, Distinct, Run, Unraced, Step;
    PushedGrow(s, capacity, actions[n]);
    if Unraced(capacity, actions[..n]) {
      RunUnsent(capacity, actions[..n]);
      HeadPresent(s);
      RacedPopLoses(s, capacity);
      x := s.queue.items[0];
    } else {
      x := RaceLoses(capacity, actions[..n]);
      StepKeepsLost(s, capacity, actions[n], x);
    }
  }

  lemma HeadPresent<T>(s: State<T>)
    requires Unsent(s) && !s.phase.Idle?
    ensures s.queue.items != []
  {
  }

  /** With distinct records: a run pops only accepted records if and only if no drop came between a peek and its pop. */
  lemma RaceIsTheOnlyLoss<T>(capacity: nat, actions: seq<Action<T>>)
    requires capacity > 0 && Distinct(Run(capacity, actions).pushed)
    ensures Unraced(capacity, actions) <==>
            forall x | x in Run(capacity, actions).popped :: x in Run(capacity, actions).accepted
  {
    if Unraced(capacity, actions) {
      UnracedPopsWereAccepted(capacity, actions);
    } else {
      var x := RaceLoses(capacity, actions);
    }
  }

  lemma {:induction false} DistinctCount<T>(a: seq<T>, x: T)
    requires Distinct(a)
    ensures multiset(a)[x] <= 1
  {
    if a != [] {
      assert a == a[..|a| - 1] + [a[|a| - 1]];
      DistinctPrefix(a[..|a| - 1], a[|a| - 1]);
      DistinctCount(a[..|a| - 1], x);
    }
  }

  /** And if and only if every pushed record is held, accepted, or among those the counter counts. */
  lemma AtLeastOnceExactly<T>(capacity: nat, actions: seq<Action<T>>)
    requires capacity > 0 && Distinct(Run(capacity, actions).pushed)
    ensures var s := Run(capacity, actions);
            Unraced(capacity, actions) <==>
            forall x | x in s.pushed :: x in s.queue.items || x in s.accepted || x in s.dropped
  {
    if Unraced(capacity, actions) {
      AtLeastOnce(capacity, actions);
    } else {
      var s := Run(capacity, actions);
      var x := RaceLoses(capacity, actions);
      RunAccounts(capacity, actions);
      DistinctCount(s.pushed, x);
      assert x in multiset(s.popped);
      assert multiset(s.pushed)[x] == multiset(s.queue.items)[x] + multiset(s.dropped)[x] + multiset(s.popped)[x];
      assert x !in multiset(s.dropped);
    }
  }

  /** The hypothesis is needed: with capacity 1 a push between publish and pop loses `b` uncounted. */
  lemma RaceLosesRecord<T>(a: T, b: T)
    requires a != b
    ensures var s := Run(1, [Enqueue(a)] + [PeekOldest] + [Publish(true)] + [Enqueue(b)] + [PopOldest]);
            && b in s.pushed && b !in s.queue.items && b !in s.accepted && b !in s.dropped
            && s.queue.dropped == 1 && s.dropped == [a]
  {
    var a1 := [Enqueue(a)];
    var a2 := a1 + [PeekOldest];
    var a3 := a2 + [Publish(true)];
    var a4 := a3 + [Enqueue(b)];
    RunNone<T>(1);
    RunOne(1, [], Enqueue(a));
    assert [] + a1 == a1;
    RunOne(1, a1, PeekOldest);
    RunOne(1, a2, Publish(true));
    RunOne(1, a3, Enqueue(b));
    RunOne(1, a4, PopOldest);
    hide Run;
    assert Run(1, a1) == State(Queue([a], 0), Idle, false, [a], [], [], []);
    assert Run(1, a2) == State(Queue([a], 0), Peeked(a), false, [a], [], [], []);
    assert Run(1, a3) == State(Queue([a], 0), Published(a), false, [a], [a], [], []);
    assert Run(1, a4) == State(Queue([b], 1), Published(a), true, [a, b], [a], [a], []);
  }

  lemma RunNone<T>(capacity: nat)
    requires capacity > 0
    ensures Run<T>(capacity, []) == State(Queue([], 0), Idle, false, [], [], [], [])
  {
  }

  lemma RunOne<T>(capacity: nat, actions: seq<Action<T>>, action: Action<T>)
    requires capacity > 0
    ensures Run(capacity, actions + [action]) == Step(Run(capacity, actions), capacity, action)
  {
    assert (actions + [action])[..|actions|] == actions;
  }
}

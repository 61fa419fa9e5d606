/**
 * The replay loop over the durable queue, with the supply failing before any write: whatever is cut short, the queue
 * goes through a run of the replay loop in which the interrupted call happened wholly or not at all.
 */
module DurableReplay {
  import opened Options
  import opened QueueImage
  import opened QueueRecovery
  import OfflineQueue
  import Fifo
  import Loop = ReplayLoop

  /** The store and memory of the gateway, and where its communication task stands. */
  datatype Gateway = Gateway(machine: Machine, phase: Loop.Phase<Telemetry>)

  /** `power` counts the writes before the supply fails, as in QueueRecovery; a boot may come at any time. */
  datatype Event = Record(telemetry: Telemetry, power: nat) | Peek | Publish(accepted: bool) | Remove(power: nat)
                 | Restart(capacity: nat, power: nat)

  function After(m: Machine, phase: Loop.Phase<Telemetry>): Gateway {
    Gateway(m, if m.ram.None? then Loop.Idle else phase)
  }

  function Step(g: Gateway, event: Event): Gateway {
    match event
    case Restart(capacity, power) => Gateway(QueueRecovery.Step(g.machine, Boot(capacity, power)), Loop.Idle)
    case Record(telemetry, power) => After(QueueRecovery.Step(g.machine, Push(telemetry, power)), g.phase)
    case Peek =>
      if Running(g.machine) && g.phase.Idle? && g.machine.ram.value.ring.live != [] then
        g.(phase := Loop.Peeked(g.machine.ram.value.ring.live[0]))
      else g
    case Publish(accepted) =>
      if !g.phase.Peeked? then g
      else g.(phase := if accepted then Loop.Published(g.phase.record) else Loop.Idle)
    case Remove(power) =>
      if !g.phase.Published? then g else Gateway(QueueRecovery.Step(g.machine, Pop(power)), Loop.Idle)
  }

  function Run(g: Gateway, events: seq<Event>): Gateway {
    if events == [] then g else Step(Run(g, events[..|events| - 1]), events[|events| - 1])
  }

  /** What the event is in the replay loop. */
  function Actions(g: Gateway, event: Event): seq<Loop.Action<Telemetry>> {
    match event
    case Restart(_, _) => [Loop.Restart]
    case Record(telemetry, power) =>
      if !Running(g.machine) then []
      else (if power > 0 then [Loop.Enqueue(telemetry)] else []) + if power < 4 then [Loop.Restart] else []
    case Peek => if Running(g.machine) then [Loop.PeekOldest] else []
    case Publish(accepted) => [Loop.Publish(accepted)]
    case Remove(power) =>
      if !g.phase.Published? then []
      else if g.machine.ram.Some? && g.machine.ram.value.ring.live != [] && power == 0 then [Loop.Restart]
      else [Loop.PopOldest]
  }

  function AllActions(g: Gateway, events: seq<Event>): seq<Loop.Action<Telemetry>> {
    if events == [] then []
    else AllActions(g, events[..|events| - 1]) + Actions(Run(g, events[..|events| - 1]), events[|events| - 1])
  }

  /** The store holds the queue of the loop, and the task stands where the loop does. */
  ghost predicate Follows(g: Gateway, s: Loop.State<Telemetry>, capacity: nat) {
    && Consistent(g.machine) && g.phase == s.phase && (!g.phase.Idle? ==> g.machine.ram.Some?)
    && View(g.machine.image).capacity == capacity && OfflineQueue.Refines(View(g.machine.image), s.queue)
  }

  lemma LoopSnoc(capacity: nat, actions: seq<Loop.Action<Telemetry>>, a: Loop.Action<Telemetry>)
    requires capacity > 0
    ensures Loop.Run(capacity, actions + [a]) == Loop.Step(Loop.Run(capacity, actions), capacity, a)
  {
    Loop.RunOne(capacity, actions, a);
  }

  lemma LoopTwo(capacity: nat, actions: seq<Loop.Action<Telemetry>>,
                a: Loop.Action<Telemetry>, b: Loop.Action<Telemetry>)
    requires capacity > 0
    ensures Loop.Run(capacity, actions + [a, b]) ==
            Loop.Step(Loop.Step(Loop.Run(capacity, actions), capacity, a), capacity, b)
  {
    hide Loop.Step;
    assert actions + [a, b] == actions + [a] + [b];
    Loop.RunOne(capacity, actions, a);
    Loop.RunOne(capacity, actions + [a], b);
  }

  lemma RecordFollows(g: Gateway, telemetry: Telemetry, power: nat, capacity: nat, actions: seq<Loop.Action<Telemetry>>)
    requires capacity > 0 && Follows(g, Loop.Run(capacity, actions), capacity) && Running(g.machine)
    ensures Follows(Step(g, Record(telemetry, power)),
                    Loop.Run(capacity, actions + Actions(g, Record(telemetry, power))), capacity)
  {
    hide Recoverable, Idle, View, Loop.Run;
    var event := Push(telemetry, power);
    StepKeeps(g.machine, event);
    OneOp(View(g.machine.image), Fifo.DoPush(telemetry));
    OfflineQueue.PushRefines(View(g.machine.image), Loop.Run(capacity, actions).queue, telemetry);
    if power == 0 {
      LoopSnoc(capacity, actions, Loop.Restart);
      assert Actions(g, Record(telemetry, power)) == [Loop.Restart];
    } else if power < 4 {
      LoopTwo(capacity, actions, Loop.Enqueue(telemetry), Loop.Restart);
      assert Actions(g, Record(telemetry, power)) == [Loop.Enqueue(telemetry), Loop.Restart];
    } else {
      LoopSnoc(capacity, actions, Loop.Enqueue(telemetry));
      assert Actions(g, Record(telemetry, power)) == [Loop.Enqueue(telemetry)];
    }
  }

  lemma RemoveFollows(g: Gateway, power: nat, capacity: nat, actions: seq<Loop.Action<Telemetry>>)
    requires capacity > 0 && Follows(g, Loop.Run(capacity, actions), capacity) && g.phase.Published?
    ensures Follows(Step(g, Remove(power)), Loop.Run(capacity, actions + Actions(g, Remove(power))), capacity)
  {
    hide Recoverable, Idle, View, Loop.Run;
    MemoryIsView(g.machine);
    StepKeeps(g.machine, Pop(power));
    OneOp(View(g.machine.image), Fifo.DoPop);
    LoopSnoc(capacity, actions, Loop.Restart);
    LoopSnoc(capacity, actions, Loop.PopOldest);
  }

  lemma RestartFollows(g: Gateway, boot: nat, power: nat, capacity: nat, actions: seq<Loop.Action<Telemetry>>)
    requires capacity > 0 && Follows(g, Loop.Run(capacity, actions), capacity)
    ensures Follows(Step(g, Restart(boot, power)), Loop.Run(capacity, actions + [Loop.Restart]), capacity)
  {
    hide Recoverable, Idle, View, Loop.Run;
    StepKeeps(g.machine, Boot(boot, power));
    LoopSnoc(capacity, actions, Loop.Restart);
  }

  lemma TaskFollows(g: Gateway, event: Event, capacity: nat, actions: seq<Loop.Action<Telemetry>>)
    requires capacity > 0 && Follows(g, Loop.Run(capacity, actions), capacity) && (event.Peek? || event.Publish?)
    ensures Follows(Step(g, event), Loop.Run(capacity, actions + Actions(g, event)), capacity)
  {
    hide Recoverable, Idle, View, Loop.Run;
    if g.machine.ram.Some? {
      MemoryIsView(g.machine);
    }
    assert actions + [] == actions;
    LoopSnoc(capacity, actions, if event.Peek? then Loop.PeekOldest else Loop.Publish(event.accepted));
  }

  lemma StepFollows(g: Gateway, event: Event, capacity: nat, actions: seq<Loop.Action<Telemetry>>)
    requires capacity > 0 && Follows(g, Loop.Run(capacity, actions), capacity)
    ensures Follows(Step(g, event), Loop.Run(capacity, actions + Actions(g, event)), capacity)
  {
    assert actions + [] == actions;
    match event {
      case Record(telemetry, power) =>
        if Running(g.machine) {
          RecordFollows(g, telemetry, power, capacity, actions);
        } else {
          DownStays(g, event, capacity, Loop.Run(capacity, actions));
        }
      case Remove(power) =>
        if g.phase.Published? {
          RemoveFollows(g, power, capacity, actions);
        }
      case Restart(boot, power) => RestartFollows(g, boot, power, capacity, actions);
      case _ => TaskFollows(g, event, capacity, actions);
    }
  }

  lemma DownStays(g: Gateway, event: Event, capacity: nat, s: Loop.State<Telemetry>)
    requires Follows(g, s, capacity) && event.Record? && !Running(g.machine)
    ensures Step(g, event) == g
  {
  }

  /** Over every run from an empty store the durable queue goes through a run of the replay loop. */
  lemma {:induction false} RunFollows(capacity: nat, power: nat, events: seq<Event>)
    requires power > 0
    ensures var up := Gateway(QueueRecovery.Step(Machine(EMPTY, None), Boot(capacity, power)), Loop.Idle);
            var bound := OfflineQueue.Initial<Telemetry>(capacity).capacity;
            Follows(Run(up, events), Loop.Run(bound, AllActions(up, events)), bound)
  {
    var up := Gateway(QueueRecovery.Step(Machine(EMPTY, None), Boot(capacity, power)), Loop.Idle);
    var bound := OfflineQueue.Initial<Telemetry>(capacity).capacity;
    hide Step, Follows, Actions, QueueRecovery.Step, Loop.Run;
    if events == [] {
      FirstFollows(capacity, power);
    } else {
      var before, last := events[..|events| - 1], events[|events| - 1];
      RunFollows(capacity, power, before);
      StepFollows(Run(up, before), last, bound, AllActions(up, before));
    }
  }

  lemma FirstFollows(capacity: nat, power: nat)
    requires power > 0
    ensures var up := Gateway(QueueRecovery.Step(Machine(EMPTY, None), Boot(capacity, power)), Loop.Idle);
            var bound := OfflineQueue.Initial<Telemetry>(capacity).capacity;
            Follows(up, Loop.Run(bound, []), bound)
  {
    hide QueueRecovery.Step, Consistent, View;
    FirstBoot(capacity, power);
  }
}

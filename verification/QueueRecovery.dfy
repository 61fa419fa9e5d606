/**
 * Runs of the durable queue in which the supply may fail before any write:
 * every completed load finds exactly the records the bounded queue holds.
 */
module QueueRecovery {
  import opened MachineWords
  import opened Options
  import opened OfflineQueue
  import opened QueueImage
  import Fifo

  // ----- the four stages of a push, as the store shows them

  ghost predicate Holds(image: Image, stored: Ring<Telemetry>, generation: UInt32) {
    && MetadataAccepted(image.meta) && image.meta.value.generation == generation
    && LivePresent(image) && Stored(image) == stored
  }

  /** No journal: the store holds `ring`. */
  ghost predicate Idle(image: Image, ring: Ring<Telemetry>, generation: UInt32) {
    Holds(image, ring, generation) && image.pending.Absent?
  }

  /** The journal is written, the metadata is not: `ring` is the queue with the record appended. */
  ghost predicate Journaled(image: Image, stored: Ring<Telemetry>, generation: UInt32, telemetry: Telemetry) {
    && Holds(image, stored, generation) && JournalAccepted(image.pending)
    && image.pending.value.previousGeneration == generation && image.pending.value.telemetry == telemetry
  }

  /** The record and the metadata are written, the journal is not erased yet. */
  ghost predicate Committed(image: Image, ring: Ring<Telemetry>, generation: UInt32) {
    && Holds(image, ring, generation) && JournalAccepted(image.pending)
    && generation == ToUInt32(image.pending.value.previousGeneration + 1)
  }

  lemma SetPendingStage(image: Image, ring: Ring<Telemetry>, generation: UInt32, telemetry: Telemetry)
    requires Idle(image, ring, generation)
    ensures Journaled(Perform(image, SetPending(Announce(generation, telemetry))), ring, generation, telemetry)
  {
    hide MetadataChecksum, JournalChecksum;
    var after := Perform(image, SetPending(Announce(generation, telemetry)));
    SameSlots(image, after);
  }

  /** What is stored depends on the slots and the metadata only. */
  lemma SameSlots(a: Image, b: Image)
    requires a.slots == b.slots && a.meta == b.meta && MetadataAccepted(a.meta)
    ensures Stored(a) == Stored(b) && (LivePresent(a) <==> LivePresent(b))
  {
    hide MetadataChecksum;
  }

  /** Writing the record again, or over the oldest one, does not change what the push will give. */
  lemma SetSlotStage(image: Image, stored: Ring<Telemetry>, generation: UInt32, telemetry: Telemetry)
    requires Journaled(image, stored, generation, telemetry)
    ensures var after := Perform(image, SetSlot(stored.NextSlot(), telemetry));
            && Journaled(after, Stored(after), generation, telemetry)
            && Stored(after).Push(telemetry) == stored.Push(telemetry)
            && Stored(after).NextSlot() == stored.NextSlot()
            && SlotPresent(after, stored.NextSlot()) && SlotValue(after, stored.NextSlot()) == telemetry
  {
    hide MetadataChecksum, JournalChecksum, Slot;
    var after := Perform(image, SetSlot(stored.NextSlot(), telemetry));
    var m := image.meta.value;
    assert LivePresent(after);
    assert Stored(after).live == if stored.Full() then [telemetry] + stored.live[1..] else stored.live;
  }

  lemma SetMetaStage(image: Image, stored: Ring<Telemetry>, generation: UInt32, telemetry: Telemetry)
    requires Journaled(image, stored, generation, telemetry)
    requires SlotPresent(image, stored.NextSlot()) && SlotValue(image, stored.NextSlot()) == telemetry
    ensures Committed(Perform(image, SetMeta(Describe(stored.Push(telemetry), ToUInt32(generation + 1)))),
                      stored.Push(telemetry), ToUInt32(generation + 1))
  {
    hide MetadataChecksum, JournalChecksum, Slot;
    var pushed := stored.Push(telemetry);
    var after := Perform(image, SetMeta(Describe(pushed, ToUInt32(generation + 1))));
    var m := after.meta.value;
    forall i: nat | i < m.count
      ensures SlotPresent(after, Slot(m.head, i, m.capacity))
      ensures SlotValue(after, Slot(m.head, i, m.capacity)) == pushed.live[i]
    {
      if i < m.count - 1 {
        var j := if stored.Full() then i + 1 else i;
        assert Slot(m.head, i, m.capacity) == Slot(stored.head, j, m.capacity);
        assert SlotPresent(image, Slot(stored.head, j, m.capacity));
        assert stored.live[j] == SlotValue(image, Slot(stored.head, j, m.capacity));
      }
    }
    assert Stored(after).live == pushed.live;
  }

  lemma EraseStage(image: Image, ring: Ring<Telemetry>, generation: UInt32)
    requires Committed(image, ring, generation)
    ensures Idle(Perform(image, ErasePending), ring, generation)
  {
    hide MetadataChecksum;
    SameSlots(image, Perform(image, ErasePending));
  }

  lemma PopStage(image: Image, ring: Ring<Telemetry>, generation: UInt32, next: UInt32)
    requires Idle(image, ring, generation) && ring.live != []
    ensures var popped := Perform(image, SetMeta(Describe(ring.Pop(), next)));
            && Idle(popped, ring.Pop(), next)
            && Idle(Perform(popped, EraseSlot(ring.head)), ring.Pop(), next)
  {
    hide MetadataChecksum, Slot;
    var popped := Perform(image, SetMeta(Describe(ring.Pop(), next)));
    var erased := Perform(popped, EraseSlot(ring.head));
    var m := popped.meta.value;
    forall i: nat | i < m.count
      ensures SlotPresent(popped, Slot(m.head, i, m.capacity))
      ensures SlotPresent(erased, Slot(m.head, i, m.capacity))
      ensures SlotValue(popped, Slot(m.head, i, m.capacity)) == ring.live[i + 1]
      ensures SlotValue(erased, Slot(m.head, i, m.capacity)) == ring.live[i + 1]
    {
      assert Slot(m.head, i, m.capacity) == Slot(ring.head, i + 1, m.capacity);
      assert SlotPresent(image, Slot(ring.head, i + 1, m.capacity));
      assert ring.live[i + 1] == SlotValue(image, Slot(ring.head, i + 1, m.capacity));
    }
    assert Stored(popped).live == ring.Pop().live == Stored(erased).live;
  }

  // ----- the machine: a store that survives and memory that does not

  datatype Ram = Ram(ring: Ring<Telemetry>, generation: UInt32)

  datatype Machine = Machine(image: Image, ram: Option<Ram>)

  /** Each event names the writes that complete before the supply fails; more than enough means no failure. */
  datatype Event = Push(telemetry: Telemetry, power: nat) | Pop(power: nat) | Boot(capacity: nat, power: nat)

  predicate Running(m: Machine) { m.ram.Some? && m.ram.value.ring.Valid() }

  function Finish(m: Machine, writes: seq<Write>, power: nat, ram: Ram): Machine {
    Machine(PerformAll(m.image, Taken(writes, power)), if power < |writes| then None else Some(ram))
  }

  function Step(m: Machine, event: Event): Machine {
    match event
    case Push(telemetry, power) =>
      if !Running(m) then m
      else
        var Ram(ring, generation) := m.ram.value;
        Finish(m, PushWrites(ring, generation, telemetry), power,
               Ram(ring.Push(telemetry), ToUInt32(generation + 1)))
    case Pop(power) =>
      if !Running(m) || m.ram.value.ring.live == [] then m
      else
        var Ram(ring, generation) := m.ram.value;
        Finish(m, PopWrites(ring, generation), power, Ram(ring.Pop(), ToUInt32(generation + 1)))
    case Boot(capacity, power) =>
      var plan := LoadPlan(m.image, capacity);
      Finish(m, plan.writes, power, Ram(plan.ring, plan.generation))
  }

  function Run(m: Machine, events: seq<Event>): Machine {
    if events == [] then m else Step(Run(m, events[..|events| - 1]), events[|events| - 1])
  }

  /** The queue operations that a run makes durable. */
  function Effect(m: Machine, event: Event): seq<Fifo.Op<Telemetry>> {
    match event
    case Push(telemetry, power) => if Running(m) && power > 0 then [Fifo.DoPush(telemetry)] else []
    case Pop(power) =>
      if Running(m) && m.ram.value.ring.live != [] && power > 0 then [Fifo.DoPop] else []
    case Boot(_, _) => []
  }

  function Effects(m: Machine, events: seq<Event>): seq<Fifo.Op<Telemetry>> {
    if events == [] then []
    else Effects(m, events[..|events| - 1]) + Effect(Run(m, events[..|events| - 1]), events[|events| - 1])
  }

  // ----- the invariant

  ghost predicate Recoverable(image: Image) {
    && MetadataAccepted(image.meta) && LivePresent(image)
    && (image.pending.Absent? ||
        (JournalAccepted(image.pending) &&
         var generation, previous := image.meta.value.generation, image.pending.value.previousGeneration;
         generation == previous || generation == ToUInt32(previous + 1)))
  }

  /** The ring the next completed load will restore. */
  ghost function View(image: Image): (ring: Ring<Telemetry>)
    requires Recoverable(image)
    ensures ring.Valid()
  {
    if image.pending.Present? && image.meta.value.generation == image.pending.value.previousGeneration
    then Stored(image).Push(image.pending.value.telemetry)
    else Stored(image)
  }

  /** The generation that load will restore. */
  ghost function Settled(image: Image): UInt32
    requires Recoverable(image)
  {
    var generation := image.meta.value.generation;
    if image.pending.Present? && generation == image.pending.value.previousGeneration then ToUInt32(generation + 1)
    else generation
  }

  /** `n` increments of a 32-bit counter. */
  function CountFrom(x: UInt32, n: nat): UInt32 { ToUInt32(x + n) }

  ghost predicate Consistent(m: Machine) {
    && Recoverable(m.image)
    && (m.ram.Some? ==> Idle(m.image, m.ram.value.ring, m.ram.value.generation))
  }

  lemma PushPrefix(image: Image, ring: Ring<Telemetry>, generation: UInt32, telemetry: Telemetry, power: nat)
    requires Idle(image, ring, generation)
    ensures var after := PerformAll(image, Taken(PushWrites(ring, generation, telemetry), power));
            && Recoverable(after)
            && View(after) == (if power == 0 then ring else ring.Push(telemetry))
            && Settled(after) == (if power == 0 then generation else ToUInt32(generation + 1))
            && (power >= 4 ==> Idle(after, ring.Push(telemetry), ToUInt32(generation + 1)))
  {
    hide MetadataChecksum, JournalChecksum, Slot;
    var writes := PushWrites(ring, generation, telemetry);
    var rest := PersistWrites(ring, generation, telemetry) + [ErasePending];
    var i1 := Perform(image, writes[0]);
    assert writes == [writes[0]] + rest;
    if power == 0 {
      assert Taken(writes, power) == [];
    } else {
      SetPendingStage(image, ring, generation, telemetry);
      ResolvePrefix(i1, ring, generation, telemetry, power - 1);
      assert Taken(writes, power) == [writes[0]] + Taken(rest, power - 1);
      PerformAllAppend(image, [writes[0]], Taken(rest, power - 1));
      PerformThree(image, writes[0], writes[1], writes[2]);
    }
  }

  /** The last three writes of a push, which are also those of a recovery. */
  lemma ResolvePrefix(image: Image, stored: Ring<Telemetry>, generation: UInt32, telemetry: Telemetry, power: nat)
    requires Journaled(image, stored, generation, telemetry)
    ensures var writes := PersistWrites(stored, generation, telemetry) + [ErasePending];
            var after := PerformAll(image, Taken(writes, power));
            && Recoverable(after) && View(after) == stored.Push(telemetry)
            && Settled(after) == ToUInt32(generation + 1)
            && (power >= 3 ==> Idle(after, stored.Push(telemetry), ToUInt32(generation + 1)))
  {
    hide MetadataChecksum, JournalChecksum, Slot;
    var writes := PersistWrites(stored, generation, telemetry) + [ErasePending];
    var i1 := Perform(image, writes[0]);
    var i2 := Perform(i1, writes[1]);
    var i3 := Perform(i2, writes[2]);
    SetSlotStage(image, stored, generation, telemetry);
    SetMetaStage(i1, Stored(i1), generation, telemetry);
    EraseStage(i2, stored.Push(telemetry), ToUInt32(generation + 1));
    assert writes[..1] == [writes[0]] && writes[..2] == [writes[0], writes[1]];
    assert writes == [writes[0], writes[1], writes[2]];
    PerformThree(image, writes[0], writes[1], writes[2]);
  }

  lemma PerformOne(image: Image, write: Write)
    ensures PerformAll(image, [write]) == Perform(image, write)
  {
    hide Perform;
    assert [write][..0] == [];
  }

  lemma PerformThree(image: Image, a: Write, b: Write, c: Write)
    ensures PerformAll(image, [a]) == Perform(image, a)
    ensures PerformAll(image, [a, b]) == Perform(Perform(image, a), b)
    ensures PerformAll(image, [a, b, c]) == Perform(Perform(Perform(image, a), b), c)
  {
    hide Perform, PerformAll;
    PerformOne(image, a);
    PerformOne(Perform(image, a), b);
    PerformOne(Perform(Perform(image, a), b), c);
    PerformAllAppend(image, [a], [b]);
    PerformAllAppend(image, [a, b], [c]);
    assert [a] + [b] == [a, b] && [a, b] + [c] == [a, b, c];
  }

  lemma PopPrefix(image: Image, ring: Ring<Telemetry>, generation: UInt32, power: nat)
    requires Idle(image, ring, generation) && ring.live != []
    ensures var after := PerformAll(image, Taken(PopWrites(ring, generation), power));
            Idle(after, if power == 0 then ring else ring.Pop(),
                 if power == 0 then generation else ToUInt32(generation + 1))
  {
    hide MetadataChecksum, JournalChecksum, Slot;
    var writes := PopWrites(ring, generation);
    PopStage(image, ring, generation, ToUInt32(generation + 1));
    assert writes[..0] == [] && writes[..1] == [writes[0]] && writes == [writes[0], writes[1]];
    PerformThree(image, writes[0], writes[1], writes[1]);
  }

  /** A load after the first never resets and never meets a foreign journal, and restores the view. */
  lemma LoadOfRecoverable(image: Image, capacity: nat)
    requires Recoverable(image)
    ensures var plan := LoadPlan(image, capacity);
            && plan.base == Restored && plan.ok && plan.ring == View(image) && plan.generation == Settled(image)
            && (plan.journal == NoJournal || plan.journal == Replayed || plan.journal == AlreadyApplied)
  {
    hide MetadataChecksum, JournalChecksum, Slot;
  }

  lemma BootPrefix(image: Image, capacity: nat, power: nat)
    requires Recoverable(image)
    ensures var plan := LoadPlan(image, capacity);
            var after := PerformAll(image, Taken(plan.writes, power));
            && Recoverable(after) && View(after) == View(image) && Settled(after) == Settled(image)
            && (power >= |plan.writes| ==> Idle(after, plan.ring, plan.generation))
  {
    hide MetadataChecksum, JournalChecksum, Slot;
    var plan := LoadPlan(image, capacity);
    LoadOfRecoverable(image, capacity);
    var stored, generation := Stored(image), image.meta.value.generation;
    if plan.journal == Replayed {
      var telemetry := image.pending.value.telemetry;
      assert plan.writes == PersistWrites(stored, generation, telemetry) + [ErasePending];
      ResolvePrefix(image, stored, generation, telemetry, power);
    } else if plan.journal == AlreadyApplied {
      assert plan.writes == [ErasePending];
      EraseStage(image, stored, generation);
      PerformThree(image, ErasePending, ErasePending, ErasePending);
      assert Taken(plan.writes, power) == if power == 0 then [] else [ErasePending];
    } else {
      assert plan.writes == [] && Taken(plan.writes, power) == [];
    }
  }

  /** Every event keeps the invariant and changes what the next load restores exactly as the queue would. */
  lemma StepKeeps(m: Machine, event: Event)
    requires Consistent(m)
    ensures Consistent(Step(m, event))
    ensures View(Step(m, event).image) == OfflineQueue.Run(View(m.image), Effect(m, event))
    ensures Settled(Step(m, event).image) == CountFrom(Settled(m.image), |Effect(m, event)|)
    ensures event.Boot? && Step(m, event).ram.Some? ==> Step(m, event).ram.value.ring == View(m.image)
  {
    hide MetadataChecksum, JournalChecksum, Slot, Stored, PerformAll, LivePresent;
    match event {
      case Push(telemetry, power) =>
        if Running(m) {
          PushPrefix(m.image, m.ram.value.ring, m.ram.value.generation, telemetry, power);
          OneOp(View(m.image), Fifo.DoPush(telemetry));
        }
      case Pop(power) =>
        if Running(m) && m.ram.value.ring.live != [] {
          PopPrefix(m.image, m.ram.value.ring, m.ram.value.generation, power);
          OneOp(View(m.image), Fifo.DoPop);
        }
      case Boot(capacity, power) =>
        BootPrefix(m.image, capacity, power);
        LoadOfRecoverable(m.image, capacity);
    }
  }

  lemma OneOp(ring: Ring<Telemetry>, op: Fifo.Op<Telemetry>)
    requires ring.Valid()
    ensures OfflineQueue.Run(ring, [op]) == OfflineQueue.Apply(ring, op)
  {
    assert [op][..0] == [];
  }

  /** The first boot of an empty store leaves it empty, or makes it an empty queue. */
  lemma FirstBoot(capacity: nat, power: nat)
    ensures var m := Step(Machine(EMPTY, None), Boot(capacity, power));
            if power == 0 then m == Machine(EMPTY, None)
            else Consistent(m) && View(m.image) == Initial(capacity) && Settled(m.image) == 0 && m.ram.Some?
  {
    hide MetadataChecksum, Slot;
    var writes := LoadPlan(EMPTY, capacity).writes;
    assert writes == [SetMeta(Describe(Initial(capacity), 0))];
    assert Taken(writes, power) == if power == 0 then [] else writes;
    PerformThree(EMPTY, writes[0], writes[0], writes[0]);
  }

  /** Over any run of pushes, pops, supply failures and boots the store refines the ring. */
  lemma {:induction false} RunKeeps(m: Machine, events: seq<Event>)
    requires Consistent(m)
    ensures Consistent(Run(m, events))
    ensures View(Run(m, events).image) == OfflineQueue.Run(View(m.image), Effects(m, events))
  {
    if events != [] {
      hide Consistent, View, Settled, Step, Effect;
      var before := events[..|events| - 1];
      RunKeeps(m, before);
      StepKeeps(Run(m, before), events[|events| - 1]);
      RingRunAppend(View(m.image), Effects(m, before), Effect(Run(m, before), events[|events| - 1]));
    }
  }

  lemma CountOn(x: UInt32, a: nat, b: nat)
    ensures CountFrom(x, 0) == x && CountFrom(CountFrom(x, a), b) == CountFrom(x, a + b)
  {
  }

  lemma RunSnoc(m: Machine, events: seq<Event>)
    ensures events == [] ==> Run(m, events) == m
    ensures events != [] ==> Run(m, events) == Step(Run(m, events[..|events| - 1]), events[|events| - 1])
  {
    hide Step;
  }

  /** The generation counts the durable operations. */
  lemma {:induction false} GenerationCounts(m: Machine, events: seq<Event>)
    requires Consistent(m)
    ensures Consistent(Run(m, events))
    ensures Settled(Run(m, events).image) == CountFrom(Settled(m.image), |Effects(m, events)|)
  {
    RunKeeps(m, events);
    hide Consistent, View, Settled, Step, Effect, CountFrom, Run, OfflineQueue.Run;
    if events == [] {
      RunSnoc(m, events);
      CountOn(Settled(m.image), 0, 0);
    } else {
      var before := events[..|events| - 1];
      GenerationCounts(m, before);
      assert Run(m, events) == Step(Run(m, before), events[|events| - 1]) by { RunSnoc(m, events); }
      StepKeeps(Run(m, before), events[|events| - 1]);
      CountOn(Settled(m.image), |Effects(m, before)|, |Effect(Run(m, before), events[|events| - 1])|);
    }
  }

  lemma {:induction false} RingRunAppend(r: Ring<Telemetry>, a: seq<Fifo.Op<Telemetry>>, b: seq<Fifo.Op<Telemetry>>)
    requires r.Valid()
    ensures OfflineQueue.Run(r, a + b) == OfflineQueue.Run(OfflineQueue.Run(r, a), b)
  {
    if b == [] {
      assert a + b == a;
    } else {
      assert (a + b)[..|a + b| - 1] == a + b[..|b| - 1];
      RingRunAppend(r, a, b[..|b| - 1]);
    }
  }

  // ----- main results

  ghost predicate AllBoots(events: seq<Event>) {
    forall e | e in events :: e.Boot?
  }

  lemma {:induction false} BootsHaveNoEffect(m: Machine, events: seq<Event>)
    requires AllBoots(events)
    ensures Effects(m, events) == []
  {
    hide Step, Run;
    if events != [] {
      BootsHaveNoEffect(m, events[..|events| - 1]);
      assert events[|events| - 1].Boot?;
    }
  }

  /** In a consistent machine that is up, memory holds what the store would restore. */
  lemma MemoryIsView(m: Machine)
    requires Consistent(m) && m.ram.Some?
    ensures m.ram.value.ring == View(m.image)
  {
  }

  /**
   * Crash-atomic enqueue: whatever write of a push the supply fails before, and
   * however often the recovery is interrupted, the next load that completes
   * restores the old ring (nothing was written) or the ring with the record appended.
   */
  lemma CrashAtomicPush(m: Machine, telemetry: Telemetry, power: nat, recovery: seq<Event>)
    requires Consistent(m) && m.ram.Some? && AllBoots(recovery)
    ensures var up := Run(Step(m, Push(telemetry, power)), recovery);
            up.ram.Some? ==>
              up.ram.value.ring == (if power == 0 then m.ram.value.ring else m.ram.value.ring.Push(telemetry))
  {
    hide Recoverable, Idle, View, Step;
    var pushed := Step(m, Push(telemetry, power));
    StepKeeps(m, Push(telemetry, power));
    RunKeeps(pushed, recovery);
    BootsHaveNoEffect(pushed, recovery);
    MemoryIsView(m);
    OneOp(View(m.image), Fifo.DoPush(telemetry));
    if Run(pushed, recovery).ram.Some? {
      MemoryIsView(Run(pushed, recovery));
    }
  }

  /** Crash-atomic dequeue, likewise: the old ring, or the ring without its oldest record. */
  lemma CrashAtomicPop(m: Machine, power: nat, recovery: seq<Event>)
    requires Consistent(m) && m.ram.Some? && AllBoots(recovery)
    ensures var up := Run(Step(m, Pop(power)), recovery);
            up.ram.Some? ==>
              up.ram.value.ring == (if power == 0 then m.ram.value.ring else m.ram.value.ring.Pop())
  {
    hide Recoverable, Idle, View, Step;
    var popped := Step(m, Pop(power));
    StepKeeps(m, Pop(power));
    RunKeeps(popped, recovery);
    BootsHaveNoEffect(popped, recovery);
    MemoryIsView(m);
    OneOp(View(m.image), Fifo.DoPop);
    if Run(popped, recovery).ram.Some? {
      MemoryIsView(Run(popped, recovery));
    }
  }

  /** The store restores what the bounded queue holds after `ops`: the latest records, nothing else lost. */
  ghost predicate HoldsLatest(image: Image, bound: nat, ops: seq<Fifo.Op<Telemetry>>)
    requires bound > 0
  {
    && Recoverable(image)
    && var held, pushed, queue := View(image), Fifo.Pushed(ops), Fifo.Run(Fifo.Queue([], 0), bound, ops);
    && |held.live| <= bound && |held.live| <= |pushed|
    && held.live == queue.items && held.live == pushed[|pushed| - |held.live|..]
    && held.dropped == queue.dropped % TWO_32
    && |pushed| == Fifo.Popped(Fifo.Queue([], 0), bound, ops) + queue.dropped + |held.live|
    && Settled(image) == |ops| % TWO_32
  }

  /**
   * From an empty store, over any run of pushes, pops, supply failures and boots:
   * the store holds the latest records in push order, and every record that was
   * made durable is held, was popped, or is in the dropped count (modulo 2^32);
   * the generation counts the durable operations.
   */
  lemma DurableQueueConserves(capacity: nat, power: nat, events: seq<Event>)
    requires power > 0
    ensures var up := Step(Machine(EMPTY, None), Boot(capacity, power));
            HoldsLatest(Run(up, events).image, if 1 <= capacity <= 32 then capacity else 32, Effects(up, events))
  {
    hide Step, Run, Effects, Recoverable, View, Settled, Idle;
    hide Fifo.Run, Fifo.Popped, Fifo.Pushed, OfflineQueue.Run;
    var up := Step(Machine(EMPTY, None), Boot(capacity, power));
    FirstBoot(capacity, power);
    RunKeeps(up, events);
    GenerationCounts(up, events);
    RunRefines(Initial<Telemetry>(capacity), Fifo.Queue([], 0), Effects(up, events));
    Fifo.RunKeepsLatest(Initial<Telemetry>(capacity).capacity, Effects(up, events));
  }
}

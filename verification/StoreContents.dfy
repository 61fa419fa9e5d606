/** What the store holds while the supply lasts: the live records, in the live slots, and nothing else. */
module StoreContents {
  import opened MachineWords
  import opened Options
  import opened OfflineQueue
  import opened QueueImage
  import opened QueueRecovery

  /** The slot is one of the `count` that follow the head round the ring. */
  predicate LiveSlot(head: nat, count: nat, capacity: nat, slot: nat) {
    slot < capacity && (if slot >= head then slot - head else slot + capacity - head) < count
  }

  /** No journal, and exactly the live slots are in the store. */
  ghost predicate Tidy(image: Image) {
    && image.meta.Present? && image.pending.Absent?
    && var m := image.meta.value;
       forall slot: nat :: slot in image.slots <==> LiveSlot(m.head, m.count, m.capacity, slot)
  }

  predicate Uninterrupted(event: Event) {
    match event
    case Push(_, power) => power >= 4
    case Pop(power) => power >= 2
    case Boot(_, _) => true
  }

  lemma PushContents(image: Image, ring: Ring<Telemetry>, generation: UInt32, telemetry: Telemetry)
    requires ring.Valid()
    ensures PerformAll(image, PushWrites(ring, generation, telemetry)) ==
            Image(image.slots[ring.NextSlot() := Present(telemetry)],
                  Present(Describe(ring.Push(telemetry), ToUInt32(generation + 1))), Absent)
  {
    hide MetadataChecksum, JournalChecksum, Slot;
    var writes := PushWrites(ring, generation, telemetry);
    assert writes[..3] == [writes[0], writes[1], writes[2]];
    PerformThree(image, writes[0], writes[1], writes[2]);
  }

  lemma PopContents(image: Image, ring: Ring<Telemetry>, generation: UInt32)
    requires ring.Valid()
    ensures PerformAll(image, PopWrites(ring, generation)) ==
            image.(slots := image.slots - {ring.head},
                   meta := Present(Describe(ring.Pop(), ToUInt32(generation + 1))))
  {
    hide MetadataChecksum, Slot;
    var writes := PopWrites(ring, generation);
    assert writes == [writes[0], writes[1]];
    PerformThree(image, writes[0], writes[1], writes[1]);
  }

  lemma PushTidy(image: Image, ring: Ring<Telemetry>, generation: UInt32, telemetry: Telemetry)
    requires Tidy(image) && Idle(image, ring, generation)
    ensures Tidy(PerformAll(image, PushWrites(ring, generation, telemetry)))
  {
    hide MetadataChecksum, JournalChecksum, Slot, PerformAll, PushWrites;
    PushContents(image, ring, generation, telemetry);
  }

  lemma PopTidy(image: Image, ring: Ring<Telemetry>, generation: UInt32)
    requires Tidy(image) && Idle(image, ring, generation) && ring.live != []
    ensures Tidy(PerformAll(image, PopWrites(ring, generation)))
  {
    hide MetadataChecksum, JournalChecksum, Slot, PerformAll, PopWrites;
    PopContents(image, ring, generation);
  }

  lemma StepTidy(m: Machine, event: Event)
    requires Consistent(m) && Tidy(m.image) && Uninterrupted(event)
    ensures Tidy(Step(m, event).image)
  {
    hide Tidy, MetadataChecksum, JournalChecksum, Slot, Stored, PerformAll, LivePresent;
    match event {
      case Push(telemetry, power) =>
        if Running(m) {
          PushTidy(m.image, m.ram.value.ring, m.ram.value.generation, telemetry);
        }
      case Pop(power) =>
        if Running(m) && m.ram.value.ring.live != [] {
          PopTidy(m.image, m.ram.value.ring, m.ram.value.generation);
        }
      case Boot(capacity, power) =>
        BootTidy(m.image, capacity, power);
    }
  }

  lemma BootTidy(image: Image, capacity: nat, power: nat)
    requires Recoverable(image) && Tidy(image)
    ensures PerformAll(image, Taken(LoadPlan(image, capacity).writes, power)) == image
  {
    hide MetadataChecksum, JournalChecksum, Slot;
    assert LoadPlan(image, capacity).writes == [];
  }

  /** Over any run without an interrupted push or pop the store holds the live slots and no other. */
  lemma {:induction false} RunTidy(m: Machine, events: seq<Event>)
    requires Consistent(m) && Tidy(m.image) && forall event | event in events :: Uninterrupted(event)
    ensures Tidy(QueueRecovery.Run(m, events).image)
  {
    hide Consistent, Tidy, Step, Uninterrupted, OfflineQueue.Run;
    if events != [] {
      var before, last := events[..|events| - 1], events[|events| - 1];
      assert events == before + [last];
      RunTidy(m, before);
      RunKeeps(m, before);
      StepTidy(QueueRecovery.Run(m, before), last);
    }
  }

  /** In particular from an empty store. */
  lemma StoreHoldsLiveSlots(capacity: nat, power: nat, events: seq<Event>)
    requires power > 0 && forall event | event in events :: Uninterrupted(event)
    ensures Tidy(QueueRecovery.Run(Step(Machine(EMPTY, None), Boot(capacity, power)), events).image)
  {
    FirstBoot(capacity, power);
    FirstTidy(capacity, power);
    hide Consistent, Tidy, Step, Uninterrupted, QueueRecovery.Run;
    RunTidy(Step(Machine(EMPTY, None), Boot(capacity, power)), events);
  }

  lemma FirstTidy(capacity: nat, power: nat)
    requires power > 0
    ensures Tidy(Step(Machine(EMPTY, None), Boot(capacity, power)).image)
  {
    hide MetadataChecksum, Slot;
    var writes := LoadPlan(EMPTY, capacity).writes;
    assert writes == [SetMeta(Describe(Initial(capacity), 0))] && Taken(writes, power) == writes;
    PerformThree(EMPTY, writes[0], writes[0], writes[0]);
  }

  // ----- loading a store in any state

  /** The ring and the generation that a load goes on from: the stored ones, or an empty ring if they are damaged. */
  ghost function Base(image: Image, capacity: nat): (Ring<Telemetry>, UInt32) {
    if MetadataAccepted(image.meta) && LivePresent(image) then (Stored(image), image.meta.value.generation)
    else (Initial(capacity), 0)
  }

  /** A valid journal entry that was announced neither at this generation nor at the one before. */
  predicate Foreign(image: Image, generation: UInt32) {
    && JournalAccepted(image.pending)
    && var previous := image.pending.value.previousGeneration;
       generation != previous && generation != (previous + 1) % 0x1_0000_0000
  }

  lemma ResetHolds(image: Image, capacity: nat)
    ensures Holds(Perform(image, SetMeta(Describe(Initial(capacity), 0))), Initial(capacity), 0)
  {
    hide MetadataChecksum, Slot;
  }

  lemma ErasedIsIdle(image: Image, ring: Ring<Telemetry>, generation: UInt32)
    requires Holds(image, ring, generation)
    ensures Idle(Perform(image, ErasePending), ring, generation)
  {
    hide MetadataChecksum, Slot;
    SameSlots(image, Perform(image, ErasePending));
  }

  lemma JournalHeals(image: Image, base: QueueImage.Base, ring: Ring<Telemetry>, generation: UInt32)
    requires Holds(image, ring, generation)
    ensures var plan := ResolveJournal(base, image, [], ring, generation);
            && (plan.ok <==> !Foreign(image, generation))
            && (plan.ok ==> Idle(PerformAll(image, plan.writes), plan.ring, plan.generation))
            && plan.ring == (if JournalAccepted(image.pending) && image.pending.value.previousGeneration == generation
                             then ring.Push(image.pending.value.telemetry) else ring)
  {
    hide MetadataChecksum, JournalChecksum, Slot;
    var plan := ResolveJournal(base, image, [], ring, generation);
    if image.pending.Absent? {
      assert plan.writes == [];
    } else if !JournalAccepted(image.pending) {
      assert plan.writes == [ErasePending];
      PerformThree(image, ErasePending, ErasePending, ErasePending);
      ErasedIsIdle(image, ring, generation);
    } else {
      var telemetry := image.pending.value.telemetry;
      if generation == image.pending.value.previousGeneration {
        var writes := PersistWrites(ring, generation, telemetry) + [ErasePending];
        assert plan.writes == writes && Taken(writes, 3) == writes;
        ResolvePrefix(image, ring, generation, telemetry, 3);
      } else if generation == ToUInt32(image.pending.value.previousGeneration + 1) {
        assert plan.writes == [ErasePending];
        ErasedIsIdle(image, ring, generation);
        PerformThree(image, ErasePending, ErasePending, ErasePending);
      }
    }
  }

  /** The second half of a load depends on the journal only, not on the writes before it. */
  lemma JournalWrites(base: QueueImage.Base, image: Image, first: Image, done: seq<Write>, ring: Ring<Telemetry>,
                      generation: UInt32)
    requires ring.Valid() && first.pending == image.pending
    ensures var plan := ResolveJournal(base, image, done, ring, generation);
            var rest := ResolveJournal(base, first, [], ring, generation);
            plan == rest.(writes := done + rest.writes)
  {
    hide JournalChecksum, PersistWrites, Ring.Push, Ring.Valid;
    assert done + [] == done;
    if image.pending.Present? {
      var writes := PersistWrites(ring, generation, image.pending.value.telemetry);
      assert done + ([] + writes + [ErasePending]) == done + writes + [ErasePending];
      assert done + ([] + [ErasePending]) == done + [ErasePending];
    } else {
      assert done + ([] + [ErasePending]) == done + [ErasePending];
    }
  }

  lemma JournalAfter(base: QueueImage.Base, image: Image, reset: Write, ring: Ring<Telemetry>, generation: UInt32)
    requires ring.Valid() && reset.SetMeta?
    ensures var first := Perform(image, reset);
            var (plan, rest) := (ResolveJournal(base, image, [reset], ring, generation),
                                 ResolveJournal(base, first, [], ring, generation));
            && plan.ok == rest.ok && plan.ring == rest.ring && plan.generation == rest.generation
            && PerformAll(image, plan.writes) == PerformAll(first, rest.writes)
  {
    var first := Perform(image, reset);
    assert first.pending == image.pending;
    hide ResolveJournal, Perform, Ring.Valid;
    JournalWrites(base, image, first, [reset], ring, generation);
    PerformThree(image, reset, reset, reset);
    PerformAllAppend(image, [reset], ResolveJournal(base, first, [], ring, generation).writes);
  }

  /**
   * Whatever a store holds, a load that completes without an error leaves it consistent, with the ring it restored: the
   * stored one, or an empty one if metadata or live slots are damaged, with the journalled record if that was announced
   * at its generation. It ends in an error exactly if the journal is foreign and no live slot is missing.
   */
  lemma LoadHeals(image: Image, capacity: nat)
    ensures var (plan, (ring, generation)) := (LoadPlan(image, capacity), Base(image, capacity));
            var missing := MetadataAccepted(image.meta) && !LivePresent(image);
            && (plan.ok <==> missing || !Foreign(image, generation))
            && (plan.ok ==> Idle(PerformAll(image, plan.writes), plan.ring, plan.generation))
            && plan.ring == (if !missing && JournalAccepted(image.pending)
                                && image.pending.value.previousGeneration == generation
                             then ring.Push(image.pending.value.telemetry) else ring)
  {
    var reset := SetMeta(Describe(Initial(capacity), 0));
    hide MetadataChecksum, JournalChecksum, Slot, Stored, LivePresent, Describe;
    ResetHolds(image, capacity);
    if !MetadataAccepted(image.meta) {
      JournalHeals(Perform(image, reset), Reset, Initial(capacity), 0);
      JournalAfter(Reset, image, reset, Initial(capacity), 0);
    } else if LivePresent(image) {
      JournalHeals(image, Restored, Stored(image), image.meta.value.generation);
    } else {
      MissingHeals(image, capacity);
    }
  }

  lemma MissingPlan(image: Image, capacity: nat)
    requires MetadataAccepted(image.meta) && !LivePresent(image)
    ensures var (plan, reset) := (LoadPlan(image, capacity), SetMeta(Describe(Initial(capacity), 0)));
            && plan.ok && plan.ring == Initial(capacity) && plan.generation == 0
            && plan.writes == if image.pending.Absent? then [reset] else [reset, ErasePending]
  {
    hide MetadataChecksum, Slot, LivePresent, Stored, Describe;
    var reset := SetMeta(Describe(Initial(capacity), 0));
    assert [reset] + [] == [reset] && [reset] + [ErasePending] == [reset, ErasePending];
  }

  lemma MissingHeals(image: Image, capacity: nat)
    requires MetadataAccepted(image.meta) && !LivePresent(image)
    ensures var plan := LoadPlan(image, capacity);
            && plan.ok && plan.ring == Initial(capacity)
            && Idle(PerformAll(image, plan.writes), plan.ring, plan.generation)
  {
    var reset := SetMeta(Describe(Initial(capacity), 0));
    var first := Perform(image, reset);
    MissingPlan(image, capacity);
    ResetHolds(image, capacity);
    PerformThree(image, reset, ErasePending, ErasePending);
    ErasedIsIdle(first, Initial(capacity), 0);
    assert first.pending == image.pending;
    hide LoadPlan, Perform, PerformAll, Holds, MetadataChecksum, LivePresent;
  }

  /** A load that ends in an error does so again at every boot, however often it is repeated. */
  lemma ErrorStays(image: Image, capacity: nat, power: nat, again: nat)
    requires !LoadPlan(image, capacity).ok
    ensures !LoadPlan(PerformAll(image, Taken(LoadPlan(image, capacity).writes, power)), again).ok
  {
    var reset := SetMeta(Describe(Initial(capacity), 0));
    var plan := LoadPlan(image, capacity);
    LoadHeals(image, capacity);
    hide MetadataChecksum, JournalChecksum, Slot, Stored, LivePresent, Describe;
    if MetadataAccepted(image.meta) {
      assert plan.writes == [] && Taken(plan.writes, power) == [];
      LoadHeals(image, again);
    } else {
      assert plan.writes == [reset] && Taken(plan.writes, power) == if power == 0 then [] else [reset];
      PerformThree(image, reset, reset, reset);
      ResetHolds(image, capacity);
      LoadHeals(Perform(image, reset), again);
      LoadHeals(image, again);
    }
  }

  /** So from any store, after the first load without an error, every run keeps the queue's promises. */
  lemma AnyStoreRecovers(image: Image, capacity: nat, power: nat, events: seq<Event>)
    requires power >= |LoadPlan(image, capacity).writes| && LoadPlan(image, capacity).ok
    ensures var up := Step(Machine(image, None), Boot(capacity, power));
            && up.ram.Some? && up.ram.value.ring == LoadPlan(image, capacity).ring
            && Consistent(QueueRecovery.Run(up, events))
            && View(QueueRecovery.Run(up, events).image) == OfflineQueue.Run(up.ram.value.ring, Effects(up, events))
  {
    LoadHeals(image, capacity);
    hide LoadPlan, PerformAll, Foreign, MetadataChecksum, JournalChecksum, Slot, Stored, LivePresent;
    var up := Step(Machine(image, None), Boot(capacity, power));
    assert Consistent(up) && View(up.image) == up.ram.value.ring;
    hide Step, Consistent, View, Effects, QueueRecovery.Run;
    RunKeeps(up, events);
  }
}

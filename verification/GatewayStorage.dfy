/** The gateway's storage code: each write may be the one before which the supply fails. */
module GatewayStorage {
  import opened MachineWords
  import opened Options
  import opened OfflineQueue
  import opened QueueImage
  import Crc32

  /** The non-volatile store. After `power` more writes the supply is gone and no write happens. */
  class Nvs {
    var image: Image
    var power: nat

    constructor (image: Image, power: nat)
      ensures this.image == image && this.power == power
    {
      this.image, this.power := image, power;
    }

    method Write(write: QueueImage.Write) returns (ok: bool)
      modifies this
      ensures Wrote([write])
      ensures ok == (old(power) > 0)
    {
      PerformOne(image, write);
      ok := power > 0;
      if ok {
        image, power := Perform(image, write), power - 1;
      }
    }

    /** The writes of `writes` that the supply allowed, and no others, were performed. */
    twostate predicate Wrote(writes: seq<QueueImage.Write>)
      reads this
    {
      && image == PerformAll(old(image), Taken(writes, old(power)))
      && power == old(power) - |Taken(writes, old(power))|
    }
  }

  lemma PerformOne(image: Image, write: Write)
    ensures PerformAll(image, [write]) == Perform(image, write)
    ensures Taken([write], 0) == []
  {
    assert [write][..0] == [];
  }

  /** Performing `a` and, if the supply lasted, `b` is performing `a + b`. */
  lemma TakenAppend(image: Image, a: seq<Write>, b: seq<Write>, power: nat)
    ensures power < |a| ==> Taken(a + b, power) == Taken(a, power)
    ensures power >= |a| ==>
              && |Taken(a + b, power)| == |a| + |Taken(b, power - |a|)|
              && PerformAll(image, Taken(a + b, power)) == PerformAll(PerformAll(image, a), Taken(b, power - |a|))
  {
    if power < |a| {
      assert (a + b)[..power] == a[..power];
    } else {
      assert Taken(a + b, power) == a + Taken(b, power - |a|);
      PerformAllAppend(image, a, Taken(b, power - |a|));
    }
  }

  class Storage {
    const nvs: Nvs
    const queue: Buffer<Telemetry>
    var generation: UInt32

    ghost predicate Valid()
      reads this, queue
    {
      queue.Valid()
    }

    constructor (nvs: Nvs)
      ensures Valid() && this.nvs == nvs && fresh(queue) && fresh(queue.records) && generation == 0
    {
      this.nvs := nvs;
      queue := new Buffer();
      generation := 0;
    }

    method SaveQueueMetadata() returns (ok: bool)
      requires Valid()
      modifies nvs
      ensures nvs.Wrote([SetMeta(Describe(queue.Value(), generation))])
      ensures ok == (old(nvs.power) >= 1)
    {
      hide MetadataBytes, Crc32.Checksum;
      var checksum := Crc32.Compute(
        MetadataBytes(generation, queue.dropped, queue.head, queue.count, queue.capacity));
      ok := nvs.Write(SetMeta(Metadata(QUEUE_MAGIC, generation, queue.dropped, queue.head, queue.count,
                                       queue.capacity, checksum)));
    }

    method SavePendingEnqueue(telemetry: Telemetry) returns (ok: bool)
      modifies nvs
      ensures nvs.Wrote([SetPending(Announce(generation, telemetry))])
      ensures ok == (old(nvs.power) >= 1)
      ensures ok ==> nvs.image.pending == Present(Announce(generation, telemetry))
    {
      hide JournalBytes, Crc32.Checksum;
      var checksum := Crc32.Compute(JournalBytes(generation, telemetry));
      ok := nvs.Write(SetPending(Journal(JOURNAL_MAGIC, generation, telemetry, checksum)));
    }

    /** Erasing a missing journal is no write and no failure. */
    method ErasePendingEnqueue() returns (ok: bool)
      modifies nvs
      ensures nvs.Wrote(if old(nvs.image.pending.Absent?) then [] else [ErasePending])
      ensures ok == (old(nvs.image.pending.Absent?) || old(nvs.power) >= 1)
    {
      if nvs.image.pending.Absent? {
        return true;
      }
      ok := nvs.Write(ErasePending);
    }

    method PersistEnqueuedRecord(telemetry: Telemetry) returns (ok: bool)
      requires Valid()
      modifies this, queue, queue.records, nvs
      ensures Valid()
      ensures nvs.Wrote(PersistWrites(old(queue.Value()), old(generation), telemetry))
      ensures ok == (old(nvs.power) >= 2)
      ensures nvs.image.pending == old(nvs.image.pending)
      ensures ok ==> queue.Value() == old(queue.Value()).Push(telemetry)
      ensures ok ==> generation == ToUInt32(old(generation) + 1)
    {
      hide MetadataChecksum, Slot;
      var slot := if queue.count == queue.capacity then queue.head
                  else Slot(queue.head, queue.count, queue.capacity);
      ghost var a, b := [SetSlot(slot, telemetry)],
                        [SetMeta(Describe(queue.Value().Push(telemetry), ToUInt32(generation + 1)))];
      TakenAppend(nvs.image, a, b, nvs.power);
      assert a + b == PersistWrites(queue.Value(), generation, telemetry);
      var stored := nvs.Write(SetSlot(slot, telemetry));
      if !stored {
        return false;
      }
      var _ := queue.Push(telemetry);
      generation := ToUInt32(generation + 1);
      ok := SaveQueueMetadata();
    }

    /** Apply the announced record and withdraw the announcement. */
    method ApplyPending(telemetry: Telemetry) returns (ok: bool)
      requires Valid() && !nvs.image.pending.Absent?
      modifies this, queue, queue.records, nvs
      ensures Valid()
      ensures nvs.Wrote(PersistWrites(old(queue.Value()), old(generation), telemetry) + [ErasePending])
      ensures ok == (old(nvs.power) >= 3)
      ensures ok ==> queue.Value() == old(queue.Value()).Push(telemetry)
      ensures ok ==> generation == ToUInt32(old(generation) + 1)
    {
      hide MetadataChecksum, Slot, PerformAll, Perform;
      TakenAppend(nvs.image, PersistWrites(queue.Value(), generation, telemetry), [ErasePending], nvs.power);
      var persisted := PersistEnqueuedRecord(telemetry);
      if !persisted {
        return false;
      }
      ok := ErasePendingEnqueue();
    }

    method OfflinePush(telemetry: Telemetry) returns (ok: bool)
      requires Valid()
      modifies this, queue, queue.records, nvs
      ensures Valid()
      ensures nvs.Wrote(PushWrites(old(queue.Value()), old(generation), telemetry))
      ensures ok == (old(nvs.power) >= 4)
      ensures ok ==> queue.Value() == old(queue.Value()).Push(telemetry)
      ensures ok ==> generation == ToUInt32(old(generation) + 1)
    {
      hide MetadataChecksum, JournalChecksum, Slot, PerformAll, Perform;
      ghost var a, b := [SetPending(Announce(generation, telemetry))],
                        PersistWrites(queue.Value(), generation, telemetry) + [ErasePending];
      TakenAppend(nvs.image, a, b, nvs.power);
      assert a + b == PushWrites(queue.Value(), generation, telemetry);
      var announced := SavePendingEnqueue(telemetry);
      if !announced {
        return false;
      }
      ok := ApplyPending(telemetry);
    }

    /** Without its metadata write a pop changes nothing, in the store or in memory. */
    method OfflinePop() returns (ok: bool, item: Option<Telemetry>)
      requires Valid()
      modifies this, queue, nvs
      ensures Valid()
      ensures item == if old(queue.Value()).live == [] then None else Some(old(queue.Value()).live[0])
      ensures item.None? ==> !ok && nvs.Wrote([])
      ensures item.None? ==> generation == old(generation) && queue.Value() == old(queue.Value())
      ensures item.Some? ==> nvs.Wrote(PopWrites(old(queue.Value()), old(generation)))
      ensures item.Some? ==> ok == (old(nvs.power) >= 2)
      ensures item.Some? ==>
                queue.Value() == if old(nvs.power) == 0 then old(queue.Value()) else old(queue.Value()).Pop()
      ensures item.Some? ==>
                generation == if old(nvs.power) == 0 then old(generation) else ToUInt32(old(generation) + 1)
    {
      hide MetadataChecksum, Slot;
      ghost var before := queue.Value();
      var slot, previousHead := queue.head, queue.head;
      item := queue.Pop();
      if item.None? {
        assert Taken([], nvs.power) == [];
        return false, None;
      }
      generation := ToUInt32(generation + 1);
      ghost var a, b := [SetMeta(Describe(queue.Value(), generation))], [EraseSlot(slot)];
      TakenAppend(nvs.image, a, b, nvs.power);
      assert a + b == PopWrites(before, old(generation));
      var saved := SaveQueueMetadata();
      if !saved {
        generation := ToUInt32(generation - 1);
        queue.head := previousHead;
        queue.count := queue.count + 1;
        assert queue.Value().live == before.live;
        return false, item;
      }
      ok := nvs.Write(EraseSlot(slot));
    }

    /** A complete load restores exactly what `LoadPlan` says the store holds. */
    method OfflineLoad(capacity: nat) returns (ok: bool)
      requires Valid()
      modifies this, queue, queue.records, nvs
      ensures Valid()
      ensures var plan := LoadPlan(old(nvs.image), capacity);
              && nvs.Wrote(plan.writes)
              && (old(nvs.power) < |plan.writes| ==> !ok)
              && (old(nvs.power) >= |plan.writes| ==>
                    ok == plan.ok && queue.Value() == plan.ring && generation == plan.generation)
    {
      hide MetadataChecksum, JournalChecksum, Slot, PersistWrites;
      ghost var image, power := nvs.image, nvs.power;
      if !MetadataAccepted(nvs.image.meta) {
        queue.Init(capacity);
        generation := 0;
        var saved := SaveQueueMetadata();
        if !saved {
          return false;
        }
        ok := ResolvePending(Reset, [SetMeta(Describe(Initial(capacity), 0))], image, power);
      } else {
        var restored := ReadSlots(nvs.image.meta.value);
        if !restored {
          queue.Init(capacity);
          generation := 0;
          ghost var a := [SetMeta(Describe(Initial(capacity), 0))];
          ghost var b := if image.pending.Absent? then [] else [ErasePending];
          TakenAppend(image, a, b, power);
          ok := SaveQueueMetadata();
          if !ok {
            return;
          }
          ok := ErasePendingEnqueue();
          return;
        }
        ok := ResolvePending(Restored, [], image, power);
      }
    }

    /** Restore the metadata and read the live slots; false when one of them is missing. */
    method ReadSlots(metadata: Metadata) returns (ok: bool)
      requires Valid() && nvs.image.meta == Present(metadata) && MetadataAccepted(nvs.image.meta)
      modifies this, queue, queue.records
      ensures Valid()
      ensures ok == LivePresent(nvs.image)
      ensures ok ==> queue.Value() == Stored(nvs.image) && generation == metadata.generation
    {
      hide MetadataChecksum, Slot;
      queue.Init(metadata.capacity);
      queue.head := metadata.head;
      queue.count := metadata.count;
      queue.dropped := metadata.dropped;
      generation := metadata.generation;
      var offset := 0;
      while offset < queue.count
        invariant 0 <= offset <= queue.count == metadata.count && Valid()
        invariant queue.head == metadata.head && queue.capacity == metadata.capacity
        invariant queue.dropped == metadata.dropped && generation == metadata.generation
        invariant forall i: nat | i < offset ::
                    && SlotPresent(nvs.image, Slot(metadata.head, i, metadata.capacity))
                    && queue.records[Slot(metadata.head, i, metadata.capacity)] ==
                       SlotValue(nvs.image, Slot(metadata.head, i, metadata.capacity))
      {
        var slot := Slot(queue.head, offset, queue.capacity);
        if !SlotPresent(nvs.image, slot) {
          return false;
        }
        queue.records[slot] := nvs.image.slots[slot].value;
        offset := offset + 1;
      }
      assert queue.Value().live == Stored(nvs.image).live;
      ok := true;
    }

    /** The second half of a load, after the writes `done` of the first have happened. */
    method ResolvePending(ghost base: Base, ghost done: seq<Write>, ghost image: Image, ghost power: nat)
      returns (ok: bool)
      requires Valid() && power >= |done|
      requires nvs.image == PerformAll(image, done) && nvs.power == power - |done|
      requires nvs.image.pending == image.pending
      modifies this, queue, queue.records, nvs
      ensures Valid()
      ensures var plan := ResolveJournal(base, image, done, old(queue.Value()), old(generation));
              && nvs.image == PerformAll(image, Taken(plan.writes, power))
              && nvs.power == power - |Taken(plan.writes, power)|
              && (power < |plan.writes| ==> !ok)
              && (power >= |plan.writes| ==>
                    ok == plan.ok && queue.Value() == plan.ring && generation == plan.generation)
    {
      hide MetadataChecksum, JournalChecksum, Slot, Perform, PerformAll;
      TakenAppend(image, done, [ErasePending], power);
      var entry := nvs.image.pending;
      if entry.Absent? {
        return true;
      }
      if !JournalAccepted(entry) {
        ok := ErasePendingEnqueue();
        return;
      }
      var journal := entry.value;
      if generation == journal.previousGeneration {
        ghost var writes := PersistWrites(queue.Value(), generation, journal.telemetry);
        TakenAppend(image, done, writes + [ErasePending], power);
        assert done + writes + [ErasePending] == done + (writes + [ErasePending]);
        ok := ApplyPending(journal.telemetry);
        return;
      }
      if generation != ToUInt32(journal.previousGeneration + 1) {
        return false;
      }
      ok := ErasePendingEnqueue();
    }
  }
}

/** The storage code driven through a run: it goes exactly where the machine of QueueRecovery says. */
module GatewayRuns {
  import opened Options
  import OfflineQueue
  import opened QueueImage
  import opened QueueRecovery
  import opened GatewayStorage

  /** No memory while the device is down; memory and generation as in the machine while it is up. */
  ghost predicate Agrees(m: Machine, nvs: Nvs, storage: Storage?)
    reads nvs, storage, if storage == null then {} else {storage.queue, storage.queue.records}
  {
    && m.image == nvs.image
    && (storage == null ==> m.ram.None?)
    && (storage != null ==>
          storage.nvs == nvs && storage.Valid() && m.ram == Some(Ram(storage.queue.Value(), storage.generation)))
  }

  method PushOne(ghost m: Machine, nvs: Nvs, storage: Storage, telemetry: Telemetry, power: nat) returns (up: Storage?)
    requires Agrees(m, nvs, storage)
    modifies nvs, storage, storage.queue, storage.queue.records
    ensures up == null || up == storage
    ensures Agrees(Step(m, Push(telemetry, power)), nvs, up)
  {
    hide MetadataChecksum, JournalChecksum, OfflineQueue.Slot, PerformAll;
    nvs.power := power;
    var ok := storage.OfflinePush(telemetry);
    up := if ok then storage else null;
  }

  /** A pop whose erase the supply cuts short leaves the device down; an empty queue leaves it as it was. */
  method PopOne(ghost m: Machine, nvs: Nvs, storage: Storage, power: nat) returns (up: Storage?)
    requires Agrees(m, nvs, storage)
    modifies nvs, storage, storage.queue
    ensures up == null || up == storage
    ensures Agrees(Step(m, Pop(power)), nvs, up)
  {
    hide MetadataChecksum, JournalChecksum, OfflineQueue.Slot, PerformAll;
    nvs.power := power;
    assert PerformAll(nvs.image, Taken([], power)) == nvs.image by { NoWrites(nvs.image, power); }
    var ok, item := storage.OfflinePop();
    up := if ok || item.None? then storage else null;
  }

  lemma NoWrites(image: Image, power: nat)
    ensures PerformAll(image, Taken([], power)) == image
  {
    assert Taken([], power) == [];
  }

  method BootOne(ghost m: Machine, nvs: Nvs, capacity: nat, power: nat) returns (up: Storage?)
    requires m.image == nvs.image && (m.image == EMPTY || Consistent(m))
    modifies nvs
    ensures up != null ==> fresh(up) && fresh(up.queue) && fresh(up.queue.records)
    ensures Agrees(Step(m, Boot(capacity, power)), nvs, up)
  {
    hide MetadataChecksum, JournalChecksum, OfflineQueue.Slot, PerformAll, Recoverable, Idle;
    if m.image != EMPTY {
      LoadOfRecoverable(m.image, capacity);
    }
    hide LoadPlan;
    var storage := new Storage(nvs);
    nvs.power := power;
    var ok := storage.OfflineLoad(capacity);
    up := if ok then storage else null;
  }

  /** From an empty or recoverable store, running the code over `events` leaves the store and memory of the machine. */
  method Replay(nvs: Nvs, events: seq<Event>) returns (up: Storage?)
    requires nvs.image == EMPTY || Recoverable(nvs.image)
    modifies nvs
    ensures Agrees(QueueRecovery.Run(Machine(old(nvs.image), None), events), nvs, up)
  {
    hide Recoverable, Consistent, Step, View, Effects, OfflineQueue.Run;
    ghost var start := Machine(nvs.image, None);
    assert start == Machine(EMPTY, None) || Consistent(start) by { Down(start); }
    up := null;
    for i := 0 to |events|
      invariant up != null ==> fresh(up) && fresh(up.queue) && fresh(up.queue.records)
      invariant var m := QueueRecovery.Run(start, events[..i]);
                Agrees(m, nvs, up) && (m == Machine(EMPTY, None) || Consistent(m))
    {
      ghost var m := QueueRecovery.Run(start, events[..i]);
      assert events[..i + 1][..i] == events[..i];
      assert QueueRecovery.Run(start, events[..i + 1]) == Step(m, events[i]);
      Continues(m, events[i]);
      match events[i] {
        case Push(telemetry, power) =>
          if up != null {
            up := PushOne(m, nvs, up, telemetry, power);
          } else {
            Idles(m, events[i]);
          }
        case Pop(power) =>
          if up != null {
            up := PopOne(m, nvs, up, power);
          } else {
            Idles(m, events[i]);
          }
        case Boot(capacity, power) =>
          up := BootOne(m, nvs, capacity, power);
      }
    }
    assert events[..|events|] == events;
  }

  lemma Down(m: Machine)
    requires m.ram.None?
    ensures Recoverable(m.image) ==> Consistent(m)
  {
  }

  lemma Continues(m: Machine, event: Event)
    requires m == Machine(EMPTY, None) || Consistent(m)
    ensures Step(m, event) == Machine(EMPTY, None) || Consistent(Step(m, event))
  {
    if m == Machine(EMPTY, None) {
      match event {
        case Boot(capacity, power) => FirstBoot(capacity, power);
        case _ => Idles(m, event);
      }
    } else {
      StepKeeps(m, event);
    }
  }

  lemma Idles(m: Machine, event: Event)
    requires m.ram.None? && !event.Boot?
    ensures Step(m, event) == m
  {
  }
}

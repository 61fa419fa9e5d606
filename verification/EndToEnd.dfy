/** From the gateway's queue to the backend's tables: at least once sent, over power failures, and once stored. */
module EndToEnd {
  import opened Options
  import opened MachineWords
  import opened QueueImage
  import opened Ingestion
  import OfflineQueue
  import QueueRecovery
  import DurableReplay
  import SequenceNumbers
  import Loop = ReplayLoop

  // ----- numbered deliveries are faithful

  /**
   * Each device takes a number from its allocator for every reading it makes, `reading` telling which; a reading
   * gets a message id of its own, and a device names one site.
   */
  ghost predicate Numbered(events: seq<Ingestion.Event>, calls: string -> seq<SequenceNumbers.Event>,
                           reading: string -> nat, site: string -> string)
  {
    && (forall d | d in events && d.Delivery? ::
          var e, issued := d.envelope, SequenceNumbers.Run(calls(d.envelope.deviceId)).issued;
          reading(e.messageId) < |issued| && e.sequence == issued[reading(e.messageId)] && e.siteId == site(e.deviceId))
    && (forall a, b | a in events && b in events && a.Delivery? && b.Delivery? ::
          a.envelope.messageId == b.envelope.messageId <==>
          a.envelope.deviceId == b.envelope.deviceId && reading(a.envelope.messageId) == reading(b.envelope.messageId))
  }

  /** Every allocator's run is one in which the numbers grow, and ends short of 2^64. */
  ghost predicate Growing(calls: string -> seq<SequenceNumbers.Event>) {
    forall device: string ::
      SequenceNumbers.RESERVATION * (|calls(device)| + 2) < TWO_64 && SequenceNumbers.AllHarmless(calls(device))
  }

  /** Sequence numbers that only grow make message ids and (device, sequence) pairs one-to-one. */
  lemma NumberedIsFaithful(events: seq<Ingestion.Event>, calls: string -> seq<SequenceNumbers.Event>,
                           reading: string -> nat, site: string -> string)
    requires Numbered(events, calls, reading, site) && Growing(calls)
    ensures Faithful(events)
  {
    hide SequenceNumbers.Run, SequenceNumbers.AllHarmless;
    forall a, b | a in events && b in events && a.Delivery? && b.Delivery?
      ensures a.envelope.messageId == b.envelope.messageId <==>
              a.envelope.deviceId == b.envelope.deviceId && a.envelope.sequence == b.envelope.sequence
    {
      if a.envelope.deviceId == b.envelope.deviceId {
        var issued := SequenceNumbers.Run(calls(a.envelope.deviceId)).issued;
        IssuedIncreases(calls(a.envelope.deviceId));
        IncreasingIsInjective(issued, reading(a.envelope.messageId), reading(b.envelope.messageId));
      }
    }
  }

  lemma IssuedIncreases(calls: seq<SequenceNumbers.Event>)
    requires SequenceNumbers.RESERVATION * (|calls| + 2) < TWO_64 && SequenceNumbers.AllHarmless(calls)
    ensures SequenceNumbers.Increasing(SequenceNumbers.Run(calls).issued)
  {
    hide SequenceNumbers.Run, SequenceNumbers.AllHarmless, SequenceNumbers.Increasing;
    SequenceNumbers.NumbersGrowExactly(calls);
    assert calls[..|calls|] == calls;
    assert SequenceNumbers.Grows(SequenceNumbers.Run(calls[..|calls|]));
  }

  lemma IncreasingIsInjective(numbers: seq<SequenceNumbers.UInt64>, i: nat, j: nat)
    requires SequenceNumbers.Increasing(numbers) && i < |numbers| && j < |numbers|
    ensures numbers[i] == numbers[j] <==> i == j
  {
    assert i < j ==> numbers[i] < numbers[j];
    assert j < i ==> numbers[j] < numbers[i];
  }

  // ----- the composition

  /** The same reading; a replayed copy is marked as such. */
  predicate SameReading(a: Envelope, b: Envelope) { a.(replayed := false) == b.(replayed := false) }

  /** Deliveries of one message carry one reading. */
  ghost predicate OneContent(deliveries: seq<Ingestion.Event>) {
    forall a, b | a in deliveries && b in deliveries && a.Delivery? && b.Delivery? &&
                  a.envelope.messageId == b.envelope.messageId :: SameReading(a.envelope, b.envelope)
  }

  ghost predicate LandsAs(deliveries: seq<Ingestion.Event>, e: Envelope, n: nat) {
    LandsAt(deliveries, e.messageId, n) && SameReading(deliveries[n].envelope, e)
  }

  /** Every reading the publish call took has a delivery, among any others, that lands. */
  ghost predicate Relayed(accepted: seq<Telemetry>, decode: Telemetry -> Envelope, deliveries: seq<Ingestion.Event>) {
    forall x | x in accepted :: exists n | 0 <= n < |deliveries| :: LandsAs(deliveries, decode(x), n)
  }

  /** One row, and no other, holds the message, and it holds the reading. */
  ghost predicate HeldOnce(rows: seq<Row>, e: Envelope) {
    exists i | 0 <= i < |rows| :: OnlyRow(rows, e, i)
  }

  ghost predicate OnlyRow(rows: seq<Row>, e: Envelope, i: nat) {
    && i < |rows| && rows[i].envelope.messageId == e.messageId && SameReading(rows[i].envelope, e)
    && forall j | 0 <= j < |rows| && rows[j].envelope.messageId == e.messageId :: j == i
  }

  /** The gateway after its first boot, with an empty store. */
  function Started(capacity: nat, power: nat): DurableReplay.Gateway {
    var first := QueueRecovery.Boot(capacity, power);
    DurableReplay.Gateway(QueueRecovery.Step(QueueRecovery.Machine(EMPTY, None), first), Loop.Idle)
  }

  /**
   * Whatever write the supply fails before, in pushes, pops and recoveries, and however the two tasks interleave
   * without a pop behind an overflow: every reading that was made durable is stored in exactly one row, or in the
   * queue the next load restores, or one of the dropped ones, which the stored counter counts modulo 2^32.
   */
  lemma NothingLostNothingTwice(capacity: nat, power: nat, run: seq<DurableReplay.Event>, decode: Telemetry -> Envelope,
                                deliveries: seq<Ingestion.Event>, calls: string -> seq<SequenceNumbers.Event>,
                                reading: string -> nat, site: string -> string)
    requires power > 0 && OneContent(deliveries) && Numbered(deliveries, calls, reading, site) && Growing(calls)
    requires var bound := OfflineQueue.Initial<Telemetry>(capacity).capacity;
             var actions := DurableReplay.AllActions(Started(capacity, power), run);
             && Loop.Unraced(bound, actions) && Relayed(Loop.Run(bound, actions).accepted, decode, deliveries)
    ensures var bound := OfflineQueue.Initial<Telemetry>(capacity).capacity;
            var sender := Loop.Run(bound, DurableReplay.AllActions(Started(capacity, power), run));
            var image := DurableReplay.Run(Started(capacity, power), run).machine.image;
            && QueueRecovery.Recoverable(image)
            && QueueRecovery.View(image).dropped == |sender.dropped| % TWO_32
            && (forall x | x in sender.pushed ::
                  || x in QueueRecovery.View(image).live || x in sender.dropped
                  || HeldOnce(Ingestion.Run(deliveries).rows, decode(x)))
  {
    var bound := OfflineQueue.Initial<Telemetry>(capacity).capacity;
    var actions := DurableReplay.AllActions(Started(capacity, power), run);
    var sender := Loop.Run(bound, actions);
    DurableReplay.RunFollows(capacity, power, run);
    NumberedIsFaithful(deliveries, calls, reading, site);
    hide DurableReplay.Run, DurableReplay.AllActions, QueueRecovery.Step, QueueRecovery.Recoverable, QueueRecovery.View;
    hide Loop.Run, Loop.Unraced, Faithful, LandsAs, HeldOnce, Ingestion.Run, OneContent, Numbered, Growing;
    Loop.AtLeastOnce(bound, actions);
    forall x | x in sender.pushed && x !in sender.queue.items && x !in sender.dropped
      ensures HeldOnce(Ingestion.Run(deliveries).rows, decode(x))
    {
      assert x in sender.accepted;
      var n :| 0 <= n < |deliveries| && LandsAs(deliveries, decode(x), n);
      StoredOnce(deliveries, decode(x), n);
    }
  }

  lemma StoredOnce(deliveries: seq<Ingestion.Event>, e: Envelope, n: nat)
    requires Faithful(deliveries) && OneContent(deliveries) && LandsAs(deliveries, e, n)
    ensures HeldOnce(Ingestion.Run(deliveries).rows, e)
  {
    hide Ingestion.Run, Faithful, Overlaps;
    RunStores(deliveries);
    assert LandsAt(deliveries, e.messageId, n);
    StoredExactly(deliveries, e.messageId);
    var rows := Ingestion.Run(deliveries).rows;
    var i :| 0 <= i < |rows| && rows[i].envelope.messageId == e.messageId;
    assert rows[i] in rows && Came(deliveries, rows[i].envelope);
    var d :| d in deliveries && d.Delivery? && d.envelope == rows[i].envelope;
    assert SameReading(d.envelope, deliveries[n].envelope);
    assert OnlyRow(rows, e, i);
  }
}

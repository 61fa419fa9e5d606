/**
 * The durable side of the offline queue: what the non-volatile store holds, the
 * single writes that change it, and the write lists of push, pop and load.
 */
module QueueImage {
  import opened MachineWords
  import opened OfflineQueue
  import Crc32

  const QUEUE_MAGIC: UInt32 := 0x5155_4555
  const JOURNAL_MAGIC: UInt32 := 0x5150_4E44

  /** A record, as the memory image of its structure. */
  datatype Telemetry = Telemetry(image: seq<Byte>)

  const BLANK: Telemetry := Telemetry([])

  /** A stored blob: missing, unreadable or of the wrong length, or a structure. */
  datatype Entry<+T> = Absent | Malformed | Present(value: T)

  datatype Metadata = Metadata(magic: UInt32, generation: UInt32, dropped: UInt32,
                               head: nat, count: nat, capacity: nat, checksum: bv32)

  datatype Journal = Journal(magic: UInt32, previousGeneration: UInt32, telemetry: Telemetry, checksum: bv32)

  datatype Image = Image(slots: map<nat, Entry<Telemetry>>, meta: Entry<Metadata>, pending: Entry<Journal>)

  const EMPTY: Image := Image(map[], Absent, Absent)

  // ----- checksums

  /** The checksummed part of the metadata structure. */
  function MetadataBytes(generation: UInt32, dropped: UInt32, head: nat, count: nat, capacity: nat): seq<Byte> {
    LittleEndian(QUEUE_MAGIC, 4) + LittleEndian(generation, 4) + LittleEndian(dropped, 4) +
    LittleEndian(head, 1) + LittleEndian(count, 1) + LittleEndian(capacity, 1) + [0]
  }

  /** The checksummed part of the journal structure. */
  function JournalBytes(previousGeneration: UInt32, telemetry: Telemetry): seq<Byte> {
    LittleEndian(JOURNAL_MAGIC, 4) + LittleEndian(previousGeneration, 4) + telemetry.image
  }

  function MetadataChecksum(generation: UInt32, dropped: UInt32, head: nat, count: nat, capacity: nat): bv32 {
    Crc32.Checksum(MetadataBytes(generation, dropped, head, count, capacity))
  }

  function JournalChecksum(previousGeneration: UInt32, telemetry: Telemetry): bv32 {
    Crc32.Checksum(JournalBytes(previousGeneration, telemetry))
  }

  predicate MetadataAccepted(entry: Entry<Metadata>) {
    && entry.Present?
    && var m := entry.value;
    && m.magic == QUEUE_MAGIC
    && m.checksum == MetadataChecksum(m.generation, m.dropped, m.head, m.count, m.capacity)
    && 1 <= m.capacity <= CAPACITY_MAX && m.count <= m.capacity && m.head < m.capacity
  }

  predicate JournalAccepted(entry: Entry<Journal>) {
    && entry.Present?
    && entry.value.magic == JOURNAL_MAGIC
    && entry.value.checksum == JournalChecksum(entry.value.previousGeneration, entry.value.telemetry)
  }

  function Describe(ring: Ring<Telemetry>, generation: UInt32): (m: Metadata)
    requires ring.Valid()
    ensures MetadataAccepted(Present(m))
  {
    Metadata(QUEUE_MAGIC, generation, ring.dropped, ring.head, |ring.live|, ring.capacity,
             MetadataChecksum(generation, ring.dropped, ring.head, |ring.live|, ring.capacity))
  }

  function Announce(generation: UInt32, telemetry: Telemetry): (j: Journal)
    ensures JournalAccepted(Present(j))
  {
    Journal(JOURNAL_MAGIC, generation, telemetry, JournalChecksum(generation, telemetry))
  }

  // ----- single writes

  datatype Write =
    | SetSlot(slot: nat, telemetry: Telemetry)
    | EraseSlot(slot: nat)
    | SetMeta(metadata: Metadata)
    | SetPending(journal: Journal)
    | ErasePending

  function Perform(image: Image, write: Write): Image {
    match write
    case SetSlot(slot, telemetry) => image.(slots := image.slots[slot := Present(telemetry)])
    case EraseSlot(slot) => image.(slots := image.slots - {slot})
    case SetMeta(metadata) => image.(meta := Present(metadata))
    case SetPending(journal) => image.(pending := Present(journal))
    case ErasePending => image.(pending := Absent)
  }

  function PerformAll(image: Image, writes: seq<Write>): Image {
    if writes == [] then image
    else Perform(PerformAll(image, writes[..|writes| - 1]), writes[|writes| - 1])
  }

  /** The writes that complete before the supply fails after `power` of them. */
  function Taken(writes: seq<Write>, power: nat): seq<Write> {
    if power < |writes| then writes[..power] else writes
  }

  lemma {:induction false} PerformAllAppend(image: Image, a: seq<Write>, b: seq<Write>)
    ensures PerformAll(image, a + b) == PerformAll(PerformAll(image, a), b)
  {
    if b == [] {
      assert a + b == a;
    } else {
      assert (a + b)[..|a + b| - 1] == a + b[..|b| - 1];
      PerformAllAppend(image, a, b[..|b| - 1]);
    }
  }

  // ----- what the metadata and the slots say

  predicate SlotPresent(image: Image, slot: nat) {
    slot in image.slots && image.slots[slot].Present?
  }

  function SlotValue(image: Image, slot: nat): Telemetry {
    if SlotPresent(image, slot) then image.slots[slot].value else BLANK
  }

  predicate LivePresent(image: Image)
    requires MetadataAccepted(image.meta)
  {
    var m := image.meta.value;
    forall i: nat | i < m.count :: SlotPresent(image, Slot(m.head, i, m.capacity))
  }

  function Stored(image: Image): (r: Ring<Telemetry>)
    requires MetadataAccepted(image.meta)
    ensures r.Valid()
  {
    var m := image.meta.value;
    Ring(m.capacity, m.head, seq(m.count, i requires 0 <= i < m.count => SlotValue(image, Slot(m.head, i, m.capacity))),
         m.dropped)
  }

  // ----- write lists

  function PersistWrites(ring: Ring<Telemetry>, generation: UInt32, telemetry: Telemetry): seq<Write>
    requires ring.Valid()
  {
    [SetSlot(ring.NextSlot(), telemetry), SetMeta(Describe(ring.Push(telemetry), ToUInt32(generation + 1)))]
  }

  function PushWrites(ring: Ring<Telemetry>, generation: UInt32, telemetry: Telemetry): seq<Write>
    requires ring.Valid()
  {
    [SetPending(Announce(generation, telemetry))] + PersistWrites(ring, generation, telemetry) + [ErasePending]
  }

  function PopWrites(ring: Ring<Telemetry>, generation: UInt32): seq<Write>
    requires ring.Valid()
  {
    [SetMeta(Describe(ring.Pop(), ToUInt32(generation + 1))), EraseSlot(ring.head)]
  }

  /** What a load made of the metadata, and of the journal. */
  datatype Base = Restored | Reset | SlotMissing
  datatype JournalFate = NoJournal | Invalid | Replayed | AlreadyApplied | Mismatch | NotRead

  datatype Plan = Plan(base: Base, journal: JournalFate, writes: seq<Write>,
                       ring: Ring<Telemetry>, generation: UInt32, ok: bool)

  /** The part of a load that follows the metadata: resolve a pending enqueue. */
  function ResolveJournal(base: Base, image: Image, writes: seq<Write>, ring: Ring<Telemetry>, generation: UInt32): Plan
    requires ring.Valid()
  {
    if image.pending.Absent? then Plan(base, NoJournal, writes, ring, generation, true)
    else if !JournalAccepted(image.pending) then
      Plan(base, Invalid, writes + [ErasePending], ring, generation, true)
    else
      var journal := image.pending.value;
      if generation == journal.previousGeneration then
        Plan(base, Replayed, writes + PersistWrites(ring, generation, journal.telemetry) + [ErasePending],
             ring.Push(journal.telemetry), ToUInt32(generation + 1), true)
      else if generation != ToUInt32(journal.previousGeneration + 1) then
        Plan(base, Mismatch, writes, ring, generation, false)
      else
        Plan(base, AlreadyApplied, writes + [ErasePending], ring, generation, true)
  }

  function LoadPlan(image: Image, capacity: nat): (plan: Plan)
    ensures plan.ring.Valid()
  {
    if !MetadataAccepted(image.meta) then
      ResolveJournal(Reset, image, [SetMeta(Describe(Initial(capacity), 0))], Initial(capacity), 0)
    else if !LivePresent(image) then
      Plan(SlotMissing, NotRead,
           [SetMeta(Describe(Initial(capacity), 0))] + (if image.pending.Absent? then [] else [ErasePending]),
           Initial(capacity), 0, true)
    else
      ResolveJournal(Restored, image, [], Stored(image), image.meta.value.generation)
  }
}

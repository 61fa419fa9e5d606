/** Stored structures whose numbers changed while their checksum did not are never accepted. */
module StoredDamage {
  import opened MachineWords
  import opened QueueImage
  import opened ModbusNode
  import Crc32

  // ----- numbers and their bytes

  lemma SplitNumber(x: nat)
    ensures x == x / 0x100 * 0x100 + ByteOf(x) as int
  {
    ByteOfValue(x);
    hide ByteOf;
  }

  lemma LittleEndianSplit(x: nat, size: nat)
    requires size > 0
    ensures LittleEndian(x, size) == [ByteOf(x)] + LittleEndian(x / 0x100, size - 1)
  {
    hide ByteOf;
    assert forall i | 0 < i < size :: Upper(x, i) == Upper(x / 0x100, i - 1);
  }

  /** Numbers that fit are told apart by their bytes. */
  lemma {:induction false} LittleEndianInjective(x: nat, y: nat, size: nat)
    requires LittleEndian(x, size) == LittleEndian(y, size) && Upper(x, size) == 0 && Upper(y, size) == 0
    ensures x == y
  {
    hide LittleEndian, ByteOf;
    if size > 0 {
      LittleEndianSplit(x, size);
      LittleEndianSplit(y, size);
      var a, b := LittleEndian(x, size), LittleEndian(y, size);
      assert a[0] == ByteOf(x) && b[0] == ByteOf(y);
      assert a[1..] == LittleEndian(x / 0x100, size - 1) && b[1..] == LittleEndian(y / 0x100, size - 1);
      LittleEndianInjective(x / 0x100, y / 0x100, size - 1);
      SplitNumber(x);
      SplitNumber(y);
    }
  }

  /** A number below 256 to the power `size`. */
  predicate InBytes(x: nat, size: nat) { Upper(x, size) == 0 }

  lemma SmallInBytes(x: nat)
    ensures x < 0x100 ==> InBytes(x, 1)
    ensures x < 0x1_0000 ==> InBytes(x, 2)
    ensures x < 0x1_0000_0000 ==> InBytes(x, 4)
  {
    var a, b, c := x / 0x100, x / 0x100 / 0x100, x / 0x100 / 0x100 / 0x100;
    assert Upper(x, 1) == Upper(a, 0) && Upper(x, 2) == Upper(a, 1) == Upper(b, 0);
    assert Upper(x, 4) == Upper(a, 3) == Upper(b, 2) == Upper(c, 1) == Upper(c / 0x100, 0);
    if x < 0x1_0000_0000 {
      assert a < 0x100_0000 && b < 0x1_0000 && c < 0x100;
    }
  }

  lemma EqualBytes(x: nat, y: nat, size: nat)
    requires InBytes(x, size) && InBytes(y, size)
    ensures |LittleEndian(x, size)| == size
    ensures LittleEndian(x, size) == LittleEndian(y, size) ==> x == y
  {
    if LittleEndian(x, size) == LittleEndian(y, size) {
      LittleEndianInjective(x, y, size);
    }
  }

  /** Data that agree but for four bytes, `a` and `b`, have equal checksums only if these are equal. */
  lemma SameInside(before: seq<Byte>, a: seq<Byte>, b: seq<Byte>, after: seq<Byte>)
    requires |a| == |b| == 4 && Crc32.Checksum(before + a + after) == Crc32.Checksum(before + b + after)
    ensures a == b
  {
    hide Crc32.Checksum;
    var f, g, at := before + a + after, before + b + after, |before|;
    assert f[..at] == before == g[..at] && f[at + 4..] == after == g[at + 4..];
    assert f[at..at + 4] == a && g[at..at + 4] == b;
    if f != g {
      Crc32.ChangeDetected(f, g, at);
    }
  }

  // ----- queue metadata

  function Places(m: Metadata): seq<Byte> {
    LittleEndian(m.head, 1) + LittleEndian(m.count, 1) + LittleEndian(m.capacity, 1) + [0]
  }

  lemma PlacesInjective(m: Metadata, n: Metadata)
    requires Places(m) == Places(n) && m.head < 0x100 && m.count < 0x100 && m.capacity < 0x100
    requires n.head < 0x100 && n.count < 0x100 && n.capacity < 0x100
    ensures m.head == n.head && m.count == n.count && m.capacity == n.capacity
  {
    SmallInBytes(m.head);
    SmallInBytes(m.count);
    SmallInBytes(m.capacity);
    SmallInBytes(n.head);
    SmallInBytes(n.count);
    SmallInBytes(n.capacity);
    EqualBytes(m.head, n.head, 1);
    EqualBytes(m.count, n.count, 1);
    EqualBytes(m.capacity, n.capacity, 1);
    EqualBytes(n.head, m.head, 1);
    EqualBytes(n.count, m.count, 1);
    EqualBytes(n.capacity, m.capacity, 1);
    hide LittleEndian, InBytes;
    assert LittleEndian(m.head, 1) == Places(m)[..1] && LittleEndian(n.head, 1) == Places(n)[..1];
    assert LittleEndian(m.count, 1) == Places(m)[1..2] && LittleEndian(n.count, 1) == Places(n)[1..2];
    assert LittleEndian(m.capacity, 1) == Places(m)[2..3] && LittleEndian(n.capacity, 1) == Places(n)[2..3];
  }

  lemma MetadataParts(m: Metadata)
    ensures var bytes := MetadataBytes(m.generation, m.dropped, m.head, m.count, m.capacity);
            var (magic, generation, dropped) :=
              (LittleEndian(QUEUE_MAGIC, 4), LittleEndian(m.generation, 4), LittleEndian(m.dropped, 4));
            && |generation| == |dropped| == |Places(m)| == 4
            && bytes == magic + generation + (dropped + Places(m))
            && bytes == (magic + generation) + dropped + Places(m)
            && bytes == (magic + generation + dropped) + Places(m) + []
  {
    assert |LittleEndian(m.generation, 4)| == |LittleEndian(m.dropped, 4)| == |Places(m)| == 4;
    hide LittleEndian;
  }

  /** The two differ in one of the counters, or in the positions, only. */
  predicate OneNumber(m: Metadata, n: Metadata) {
    || n == m.(generation := n.generation)
    || n == m.(dropped := n.dropped)
    || n == m.(head := n.head, count := n.count, capacity := n.capacity)
  }

  /** Metadata in which one number changed is not accepted under the old checksum. */
  lemma DamagedMetadata(m: Metadata, n: Metadata)
    requires MetadataAccepted(Present(m)) && OneNumber(m, n) && m != n
    ensures !MetadataAccepted(Present(n))
  {
    if MetadataAccepted(Present(n)) {
      AcceptedAlike(m, n);
      assert false;
    }
  }

  lemma AcceptedAlike(m: Metadata, n: Metadata)
    requires MetadataAccepted(Present(m)) && MetadataAccepted(Present(n)) && OneNumber(m, n)
    ensures m == n
  {
    MetadataParts(m);
    MetadataParts(n);
    SmallInBytes(m.generation);
    SmallInBytes(n.generation);
    SmallInBytes(m.dropped);
    SmallInBytes(n.dropped);
    hide LittleEndian, Places, InBytes, Crc32.Checksum, MetadataBytes;
    var (magic, generation, dropped) :=
      (LittleEndian(QUEUE_MAGIC, 4), LittleEndian(m.generation, 4), LittleEndian(m.dropped, 4));
    if n == m.(generation := n.generation) {
      SameInside(magic, generation, LittleEndian(n.generation, 4), dropped + Places(m));
      EqualBytes(m.generation, n.generation, 4);
    } else if n == m.(dropped := n.dropped) {
      SameInside(magic + generation, dropped, LittleEndian(n.dropped, 4), Places(m));
      EqualBytes(m.dropped, n.dropped, 4);
    } else {
      SameInside(magic + generation + dropped, Places(m), Places(n), []);
      PlacesInjective(m, n);
    }
  }

  // ----- the journal

  /** The record of `k` is that of `j` with the four bytes `b` in place of `a`. */
  predicate OneBlock(j: Journal, k: Journal, before: seq<Byte>, a: seq<Byte>, b: seq<Byte>, after: seq<Byte>) {
    && |a| == |b| == 4 && j.telemetry.image == before + a + after
    && k == j.(telemetry := Telemetry(before + b + after))
  }

  /** The two agree in everything but the generation, or but four adjacent bytes of the record. */
  ghost predicate OnePart(j: Journal, k: Journal) {
    || k == j.(previousGeneration := k.previousGeneration)
    || exists before, a, b, after :: OneBlock(j, k, before, a, b, after)
  }

  /** A journal entry with a damaged generation, or record, is not accepted under the old checksum. */
  lemma DamagedJournal(j: Journal, k: Journal)
    requires JournalAccepted(Present(j)) && OnePart(j, k) && j != k
    ensures !JournalAccepted(Present(k))
  {
    if JournalAccepted(Present(k)) {
      JournalsAlike(j, k);
      assert false;
    }
  }

  lemma JournalsAlike(j: Journal, k: Journal)
    requires JournalAccepted(Present(j)) && JournalAccepted(Present(k)) && OnePart(j, k)
    ensures j == k
  {
    hide JournalChecksum;
    if k == j.(previousGeneration := k.previousGeneration) {
      GenerationsAlike(j, k);
    } else {
      var before, a, b, after :| OneBlock(j, k, before, a, b, after);
      RecordsAlike(j, k, before, a, b, after);
    }
  }

  lemma GenerationsAlike(j: Journal, k: Journal)
    requires k == j.(previousGeneration := k.previousGeneration)
    requires JournalChecksum(j.previousGeneration, j.telemetry) == JournalChecksum(k.previousGeneration, k.telemetry)
    ensures j == k
  {
    SmallInBytes(j.previousGeneration);
    SmallInBytes(k.previousGeneration);
    EqualBytes(j.previousGeneration, k.previousGeneration, 4);
    EqualBytes(k.previousGeneration, j.previousGeneration, 4);
    hide LittleEndian, InBytes, Crc32.Checksum;
    SameInside(LittleEndian(JOURNAL_MAGIC, 4), LittleEndian(j.previousGeneration, 4),
               LittleEndian(k.previousGeneration, 4), j.telemetry.image);
  }

  lemma RecordsAlike(j: Journal, k: Journal, before: seq<Byte>, a: seq<Byte>, b: seq<Byte>, after: seq<Byte>)
    requires OneBlock(j, k, before, a, b, after)
    requires JournalChecksum(j.previousGeneration, j.telemetry) == JournalChecksum(k.previousGeneration, k.telemetry)
    ensures j == k
  {
    hide LittleEndian, Crc32.Checksum;
    var header := LittleEndian(JOURNAL_MAGIC, 4) + LittleEndian(j.previousGeneration, 4);
    assert header + (before + a + after) == (header + before) + a + after;
    assert header + (before + b + after) == (header + before) + b + after;
    SameInside(header + before, a, b, after);
  }

  // ----- the node's configuration

  function Calibration(c: Config): seq<Byte> {
    LittleEndian(ToUInt16(c.offset), 2) + LittleEndian(c.gain, 2)
  }

  lemma CalibrationInjective(c: Config, d: Config)
    requires Calibration(c) == Calibration(d)
    ensures c.offset == d.offset && c.gain == d.gain
  {
    SmallInBytes(ToUInt16(c.offset));
    SmallInBytes(ToUInt16(d.offset));
    SmallInBytes(c.gain);
    SmallInBytes(d.gain);
    EqualBytes(ToUInt16(c.offset), ToUInt16(d.offset), 2);
    EqualBytes(ToUInt16(d.offset), ToUInt16(c.offset), 2);
    EqualBytes(c.gain, d.gain, 2);
    hide LittleEndian, InBytes;
    assert LittleEndian(ToUInt16(c.offset), 2) == Calibration(c)[..2] == LittleEndian(ToUInt16(d.offset), 2);
    assert LittleEndian(c.gain, 2) == Calibration(c)[2..] == LittleEndian(d.gain, 2);
  }

  function Address(c: Config): seq<Byte> { [ByteOf(c.nodeAddress), 0, 0, 0] }

  lemma AddressInjective(c: Config, d: Config)
    requires Address(c) == Address(d) && c.nodeAddress < 0x100 && d.nodeAddress < 0x100
    ensures c.nodeAddress == d.nodeAddress
  {
    SplitNumber(c.nodeAddress);
    SplitNumber(d.nodeAddress);
    hide ByteOf;
    assert Address(c)[0] == ByteOf(c.nodeAddress) && Address(d)[0] == ByteOf(d.nodeAddress);
  }

  lemma ConfigParts(c: Config)
    ensures var stamps := LittleEndian(c.magic, 4) + LittleEndian(c.schemaVersion, 2) + LittleEndian(c.structSize, 2);
            var generation := LittleEndian(c.generation, 4);
            && |generation| == |Address(c)| == |Calibration(c)| == 4
            && ConfigBytes(c) == stamps + generation + (Address(c) + Calibration(c))
            && ConfigBytes(c) == (stamps + generation) + Address(c) + Calibration(c)
            && ConfigBytes(c) == (stamps + generation + Address(c)) + Calibration(c) + []
  {
    assert |LittleEndian(c.generation, 4)| == |Calibration(c)| == 4;
    hide LittleEndian;
  }

  /** The two differ in the generation, the address, or the calibration only. */
  predicate OneSetting(c: Config, d: Config) {
    || d == c.(generation := d.generation)
    || d == c.(nodeAddress := d.nodeAddress)
    || d == c.(offset := d.offset, gain := d.gain)
  }

  /** A node configuration in which one setting changed is not valid under the old checksum. */
  lemma DamagedConfig(c: Config, d: Config)
    requires ConfigValid(c) && OneSetting(c, d) && c != d
    ensures !ConfigValid(d)
  {
    if ConfigValid(d) {
      ConfigsAlike(c, d);
      assert false;
    }
  }

  lemma ConfigsAlike(c: Config, d: Config)
    requires ConfigValid(c) && ConfigValid(d) && OneSetting(c, d)
    ensures c == d
  {
    ConfigParts(c);
    ConfigParts(d);
    SmallInBytes(c.generation);
    SmallInBytes(d.generation);
    hide LittleEndian, Address, Calibration, InBytes, Crc32.Checksum, ConfigBytes;
    var stamps := LittleEndian(c.magic, 4) + LittleEndian(c.schemaVersion, 2) + LittleEndian(c.structSize, 2);
    var generation := LittleEndian(c.generation, 4);
    if d == c.(generation := d.generation) {
      SameAround(c, d);
      SameInside(stamps, generation, LittleEndian(d.generation, 4), Address(c) + Calibration(c));
      EqualBytes(c.generation, d.generation, 4);
    } else if d == c.(nodeAddress := d.nodeAddress) {
      SameAround(c, d);
      SameInside(stamps + generation, Address(c), Address(d), Calibration(c));
      AddressInjective(c, d);
    } else {
      SameAround(c, d);
      SameInside(stamps + generation + Address(c), Calibration(c), Calibration(d), []);
      CalibrationInjective(c, d);
    }
  }

  lemma SameAround(c: Config, d: Config)
    ensures c.nodeAddress == d.nodeAddress ==> Address(c) == Address(d)
    ensures c.offset == d.offset && c.gain == d.gain ==> Calibration(c) == Calibration(d)
  {
  }
}

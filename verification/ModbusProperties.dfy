/** What the firmware's Modbus node guarantees, and that the simulator's node agrees with it. */
module ModbusProperties {
  import opened MachineWords
  import opened Options
  import opened ModbusNode
  import Crc16
  import Crc32
  import Py = PythonNode
  import PythonCrc

  // ----- bytes and numbers

  lemma Recombine(value: UInt16, high: int, low: int)
    requires high == value / 0x100 % 0x100 && low == value % 0x100
    ensures high * 0x100 + low == value
  {
  }

  /** Two bytes of a word carry its number. */
  lemma NumberOfBytes(value: UInt16)
    ensures Number(ByteOf(value / 0x100), ByteOf(value)) == value
  {
    hide ByteOf;
    ByteOfValue(value / 0x100);
    ByteOfValue(value);
    Recombine(value, ByteOf(value / 0x100) as int, ByteOf(value) as int);
  }

  lemma {:induction false} WireBytesAt(values: seq<UInt16>, i: nat)
    requires i < |values|
    ensures Number(WireBytes(values)[2 * i], WireBytes(values)[2 * i + 1]) == values[i]
  {
    hide Number, ByteOf;
    if i == |values| - 1 {
      NumberOfBytes(values[i]);
    } else {
      WireBytesAt(values[..|values| - 1], i);
    }
  }

  lemma SealIsValid(payload: seq<Byte>)
    ensures Crc16.FrameValid(Crc16.Seal(payload)) && |Crc16.Seal(payload)| == |payload| + 2
  {
    hide Crc16.Checksum, Crc16.LowByte, Crc16.HighByte;
    var frame := Crc16.Seal(payload);
    assert frame[..|frame| - 2] == payload;
    Crc16.SealValid(frame);
  }

  // ----- reads

  /** A valid request to read `quantity` registers from `first` at this node. */
  ghost predicate IsRead(s: State, request: seq<Byte>, first: nat, quantity: nat) {
    && |request| == 8 && Crc16.FrameValid(request) && request[0] as int == s.config.nodeAddress
    && request[1] == READ_HOLDING
    && Number(request[2], request[3]) == first && Number(request[4], request[5]) == quantity
  }

  /** The register values a read response carries. */
  ghost predicate Carries(response: seq<Byte>, values: seq<UInt16>) {
    && |response| == 5 + 2 * |values| && Crc16.FrameValid(response)
    && forall i: nat | i < |values| :: Number(response[3 + 2 * i], response[4 + 2 * i]) == values[i]
  }

  /** A read inside the map answers with a valid frame carrying exactly the requested registers. */
  lemma ReadReturnsRegisters(s: State, request: seq<Byte>, first: nat, quantity: nat, capacity: nat,
                             persistence: Persistence)
    requires IsRead(s, request, first, quantity)
    requires quantity > 0 && first + quantity <= REGISTER_COUNT && capacity >= 41
    ensures var (after, response) := Handle(s, request, capacity, persistence);
            after == s && response.Some? && Carries(response.value, Registers(s)[first..first + quantity])
  {
    hide Registers, WireBytes, ByteOf, Number, Crc16.FrameValid, Crc16.Seal;
    var values := Registers(s)[first..first + quantity];
    var payload := [request[0], READ_HOLDING, ByteOf(2 * quantity)] + WireBytes(values);
    SealIsValid(payload);
    SealPrefix(payload);
    var response := Crc16.Seal(payload);
    forall i: nat | i < |values|
      ensures Number(response[3 + 2 * i], response[4 + 2 * i]) == values[i]
    {
      WireBytesAt(values, i);
      assert response[3 + 2 * i] == payload[3 + 2 * i] == WireBytes(values)[2 * i];
      assert response[4 + 2 * i] == payload[4 + 2 * i] == WireBytes(values)[2 * i + 1];
    }
  }

  lemma SealPrefix(payload: seq<Byte>)
    ensures |Crc16.Seal(payload)| == |payload| + 2
    ensures forall i | 0 <= i < |payload| :: Crc16.Seal(payload)[i] == payload[i]
  {
    hide Crc16.Checksum, Crc16.LowByte, Crc16.HighByte;
  }

  // ----- writes

  lemma FinalizeStamps(c: Config)
    requires 1 <= c.nodeAddress <= 247 && -5000 <= c.offset <= 5000 && c.gain >= 16384
    ensures ConfigValid(Finalize(c))
  {
    hide Crc32.Checksum, LittleEndian, ByteOf;
  }

  lemma DefaultConfigValid()
    ensures ConfigValid(DEFAULT_CONFIG)
  {
    FinalizeStamps(Config(0, 0, 0, 1, 1, 0, 32768, 0));
  }

  lemma WriteKeepsConfigValid(c: Config, address: UInt16, value: UInt16)
    requires ConfigValid(c) && Writable(address) && ValueValid(address, value)
    ensures ConfigValid(WithValue(c, address, value))
  {
    hide Crc32.Checksum, ConfigBytes;
    var changed := if address == 2 then c.(nodeAddress := value % 0x100)
                   else if address == 16 then c.(offset := ToInt16(value))
                   else c.(gain := value);
    FinalizeStamps(changed.(generation := ToUInt32(c.generation + 1)));
  }

  datatype Event = Frame(request: seq<Byte>, capacity: nat, persistence: Persistence)
                 | Measurement(adcRaw: UInt16, temperature: Int16, sensorStatus: UInt16, faultFlags: UInt16,
                               uptimeMs: UInt32, resetCount: UInt32)

  function StepNode(s: State, event: Event): State {
    match event
    case Frame(request, capacity, persistence) => Handle(s, request, capacity, persistence).0
    case Measurement(adcRaw, temperature, sensorStatus, faultFlags, uptimeMs, resetCount) =>
      Measured(s, adcRaw, temperature, sensorStatus, faultFlags, uptimeMs, resetCount)
  }

  function RunNode(s: State, events: seq<Event>): State {
    if events == [] then s else StepNode(RunNode(s, events[..|events| - 1]), events[|events| - 1])
  }

  lemma HandleKeepsConfigValid(s: State, request: seq<Byte>, capacity: nat, persistence: Persistence)
    requires ConfigValid(s.config)
    ensures ConfigValid(Handle(s, request, capacity, persistence).0.config)
  {
    hide ConfigValid, Registers, WireBytes, Crc16.Seal, Crc16.FrameValid, WithValue;
    if |request| == 8 && Crc16.FrameValid(request) && request[1] == WRITE_SINGLE {
      var address, value := Number(request[2], request[3]), Number(request[4], request[5]);
      if Writable(address) && ValueValid(address, value) {
        WriteKeepsConfigValid(s.config, address, value);
      }
    }
  }

  /** Whatever image the node starts from and whatever frames it handles, its configuration is valid. */
  lemma {:induction false} ConfigAlwaysValid(image: Option<Config>, events: seq<Event>)
    ensures ConfigValid(RunNode(Initial(image), events).config)
  {
    if events == [] {
      DefaultConfigValid();
    } else {
      hide ConfigValid, Handle;
      var last := events[|events| - 1];
      ConfigAlwaysValid(image, events[..|events| - 1]);
      if last.Frame? {
        HandleKeepsConfigValid(RunNode(Initial(image), events[..|events| - 1]), last.request, last.capacity,
                               last.persistence);
      }
    }
  }

  // ----- measurements

  ghost function Successor(b: bv16): bv16 { b + 1 }

  /** The 16-bit word reached by counting up to `x` from zero. */
  ghost function WordOf(x: nat): bv16 { if x == 0 then 0 else Successor(WordOf(x - 1)) }

  ghost predicate IsOdd(b: bv16) { b & 1 == 1 }

  /** The C expression `(before & 1) | reported`. */
  ghost function WithLowBit(before: bv16, reported: bv16): bv16 { (before & 1) | reported }

  lemma SuccessorParity(b: bv16)
    ensures IsOdd(Successor(b)) <==> !IsOdd(b)
    ensures !IsOdd(0)
  {
  }

  lemma RawClear(before: bv16, reported: bv16)
    requires before & 1 == 0
    ensures (before & 1) | reported == reported
  {
  }

  lemma RawSet(before: bv16, reported: bv16)
    requires before & 1 == 1 && reported & 1 == 1
    ensures (before & 1) | reported == reported
  {
  }

  lemma RawJoin(before: bv16, reported: bv16)
    requires before & 1 == 1 && reported & 1 == 0
    ensures (before & 1) | reported == reported + 1
  {
  }

  lemma RawBit(b: bv16)
    ensures b & 1 == 0 || b & 1 == 1
  {
  }

  lemma LowBitJoins(before: bv16, reported: bv16)
    ensures WithLowBit(before, reported) == if IsOdd(before) && !IsOdd(reported) then Successor(reported) else reported
  {
    RawBit(before);
    RawBit(reported);
    if before & 1 == 0 {
      RawClear(before, reported);
    } else if reported & 1 == 1 {
      RawSet(before, reported);
    } else {
      RawJoin(before, reported);
    }
  }

  lemma {:induction false} WordParity(x: nat)
    ensures IsOdd(WordOf(x)) <==> x % 2 == 1
  {
    hide IsOdd, Successor;
    SuccessorParity(0);
    if x > 0 {
      WordParity(x - 1);
      SuccessorParity(WordOf(x - 1));
    }
  }

  /** Keeping the fallback bit is the C expression, on the words that stand for the flags. */
  lemma FallbackIsBitOr(before: UInt16, reported: UInt16)
    ensures WithLowBit(WordOf(before), WordOf(reported)) == WordOf(KeepFallback(before, reported))
  {
    hide IsOdd, Successor, WithLowBit;
    WordParity(before);
    WordParity(reported);
    LowBitJoins(WordOf(before), WordOf(reported));
    assert WordOf(reported + 1) == Successor(WordOf(reported));
  }

  /** A read after a measurement shows it: status, flags, temperature, raw value and the halves of the counters. */
  lemma MeasurementIsRead(s: State, m: Event)
    requires m.Measurement?
    ensures var after, values := StepNode(s, m), Registers(StepNode(s, m));
            && values[4] == m.sensorStatus && values[7] == m.adcRaw && ToInt16(values[6]) == m.temperature
            && values[8] * TWO_16 + values[9] == m.uptimeMs && values[10] * TWO_16 + values[11] == m.resetCount
            && values[5] / 2 == m.faultFlags / 2
            && (values[5] % 2 == 1 <==> s.faultFlags % 2 == 1 || m.faultFlags % 2 == 1)
            && (forall i | 0 <= i < REGISTER_COUNT && !(4 <= i <= 11) :: values[i] == Registers(s)[i])
  {
  }

  lemma HandleKeepsFlags(s: State, request: seq<Byte>, capacity: nat, persistence: Persistence)
    ensures Handle(s, request, capacity, persistence).0.faultFlags == s.faultFlags
  {
    hide Registers, WireBytes, Crc16.Seal, Crc16.FrameValid, WithValue;
  }

  lemma StepKeepsFallback(s: State, event: Event)
    requires event.Measurement? ==> event.faultFlags % 2 == 0
    ensures StepNode(s, event).faultFlags % 2 == s.faultFlags % 2
  {
    hide Handle;
    if event.Frame? {
      HandleKeepsFlags(s, event.request, event.capacity, event.persistence);
    }
  }

  /**
   * Bit 0 of the fault flags tells, in every reachable state, that the node fell back on its default configuration;
   * measurements report no fault there.
   */
  lemma {:induction false} FallbackIsRemembered(image: Option<Config>, events: seq<Event>)
    requires forall e | e in events && e.Measurement? :: e.faultFlags % 2 == 0
    ensures RunNode(Initial(image), events).faultFlags % 2 == 1 <==> image.None? || !ConfigValid(image.value)
  {
    hide ConfigValid, StepNode;
    if events != [] {
      var before, last := events[..|events| - 1], events[|events| - 1];
      assert last in events && forall e | e in before :: e in events;
      FallbackIsRemembered(image, before);
      StepKeepsFallback(RunNode(Initial(image), before), last);
    }
  }

  /** A valid request to write `value` to `address` at this node. */
  ghost predicate IsWrite(s: State, request: seq<Byte>, address: UInt16, value: UInt16) {
    && |request| == 8 && Crc16.FrameValid(request) && request[0] as int == s.config.nodeAddress
    && request[1] == WRITE_SINGLE
    && Number(request[2], request[3]) == address && Number(request[4], request[5]) == value
  }

  /** A write is performed for a writable register, a valid value, room to answer and a callback that does not fail. */
  predicate Performed(address: UInt16, value: UInt16, capacity: nat, persistence: Persistence) {
    Writable(address) && ValueValid(address, value) && capacity >= 8 && !persistence.Fails?
  }

  /** The new configuration differs from the old in one field, the generation and the stamp. */
  lemma WithValueRegisters(s: State, address: UInt16, value: UInt16)
    requires Writable(address) && ValueValid(address, value)
    ensures var after := s.(config := WithValue(s.config, address, value));
            && Registers(after)[address] == value
            && (forall i | 0 <= i < REGISTER_COUNT && i != address && i != 14 && i != 15 ::
                  Registers(after)[i] == Registers(s)[i])
            && after.config.generation == ToUInt32(s.config.generation + 1)
  {
    hide Crc32.Checksum, ConfigBytes;
    SignedRoundTrip(value);
  }

  /**
   * A performed write echoes the request, changes only the addressed register and the
   * generation registers 14 and 15, and leaves a configuration that re-initialises to itself.
   */
  lemma PerformedWrite(s: State, request: seq<Byte>, address: UInt16, value: UInt16, capacity: nat,
        persistence: Persistence)
    requires IsWrite(s, request, address, value) && ConfigValid(s.config)
    requires Performed(address, value, capacity, persistence)
    ensures var (after, response) := Handle(s, request, capacity, persistence);
            && response == Some(request)
            && Registers(after)[address] == value
            && (forall i | 0 <= i < REGISTER_COUNT && i != address && i != 14 && i != 15 ::
                  Registers(after)[i] == Registers(s)[i])
            && after == s.(config := after.config)
            && after.config.generation == ToUInt32(s.config.generation + 1)
            && Initial(Some(after.config)).config == after.config
  {
    hide ConfigValid, Registers, Crc16.FrameValid, Number, WithValue, ValueValid, Writable;
    assert Handle(s, request, capacity, persistence) == Write(s, request, capacity, persistence);
    WithValueRegisters(s, address, value);
    WriteKeepsConfigValid(s.config, address, value);
  }

  /** Any other write changes at most the exception count, and answers unless there is no room. */
  lemma RejectedWrite(s: State, request: seq<Byte>, address: UInt16, value: UInt16, capacity: nat,
        persistence: Persistence)
    requires IsWrite(s, request, address, value)
    requires !Performed(address, value, capacity, persistence)
    ensures var (after, response) := Handle(s, request, capacity, persistence);
            && after == s.(exceptions := after.exceptions)
            && after.exceptions == (if response.Some? then ToUInt32(s.exceptions + 1) else s.exceptions)
            && (response.Some? <==> capacity >= 5 && !(Writable(address) && ValueValid(address, value) && capacity < 8))
  {
    hide Crc16.Seal, Crc16.FrameValid, Number, WithValue, ValueValid;
  }

  lemma SignedRoundTrip(value: UInt16)
    ensures ToUInt16(ToInt16(value)) == value
  {
  }

  /** What a performed write stored is what a read then returns, at the possibly new node address. */
  lemma WriteThenRead(s: State, write: seq<Byte>, address: UInt16, value: UInt16, persistence: Persistence,
                      read: seq<Byte>)
    requires IsWrite(s, write, address, value) && ConfigValid(s.config)
    requires Performed(address, value, 41, persistence)
    requires IsRead(Handle(s, write, 41, persistence).0, read, address, 1)
    ensures var after := Handle(s, write, 41, persistence).0;
            var response := Handle(after, read, 41, persistence).1;
            response.Some? && Carries(response.value, [value])
    ensures address == 2 ==> read[0] as int == value
  {
    hide Registers, Handle, ConfigValid, Carries;
    var after := Handle(s, write, 41, persistence).0;
    PerformedWrite(s, write, address, value, 41, persistence);
    ReadReturnsRegisters(after, read, address, 1, 41, persistence);
    assert Registers(after)[address..address + 1] == [value];
    if address == 2 {
      NodeAddressRegister(after);
    }
  }

  lemma NodeAddressRegister(s: State)
    requires s.config.nodeAddress < 0x100
    ensures Registers(s)[2] == s.config.nodeAddress
  {
  }

  // ----- agreement with the simulator

  /** Equal fields; the simulator's counters are unbounded, the firmware's wrap at 2^32. */
  ghost predicate Same(c: State, p: Py.State) {
    && p.scenario.Normal? && p.Fits()
    && p.nodeAddress == c.config.nodeAddress && p.temperature == c.temperature && p.adcRaw == c.adcRaw
    && p.sensorStatus == c.sensorStatus && p.faultFlags == c.faultFlags
    && p.uptimeMs == c.uptimeMs && p.resetCount == c.resetCount
    && p.crcErrors % TWO_32 == c.crcErrors && p.exceptions % TWO_32 == c.exceptions
    && p.generation % TWO_32 == c.config.generation && p.offset == c.config.offset && p.gain == c.config.gain
  }

  lemma WrapTwice(x: nat)
    ensures (x % TWO_32) % TWO_16 == x % TWO_16
    ensures (x % TWO_32) / TWO_16 % TWO_16 == x / TWO_16 % TWO_16
    ensures (x % TWO_32 + 1) % TWO_32 == (x + 1) % TWO_32
  {
    var q := x / TWO_32;
    assert x == q * TWO_32 + x % TWO_32;
    assert x / TWO_16 == q * TWO_16 + (x % TWO_32) / TWO_16;
  }

  lemma SameRegisters(c: State, p: Py.State)
    requires Same(c, p)
    ensures Registers(c) == Py.Current(p)
  {
    WrapTwice(p.crcErrors);
    WrapTwice(p.exceptions);
    WrapTwice(p.generation);
  }

  lemma SameBytes(value: UInt16)
    ensures Py.BigEndian(value) == [ByteOf(value / 0x100), ByteOf(value)]
  {
  }

  lemma {:induction false} SameWire(values: seq<UInt16>, naturals: seq<nat>)
    requires values == naturals
    ensures WireBytes(values) == Py.Joined(naturals)
  {
    hide ByteOf, Py.BigEndian;
    if values != [] {
      SameWire(values[..|values| - 1], naturals[..|values| - 1]);
      SameBytes(values[|values| - 1]);
    }
  }

  lemma OctetRoundTrip(b: Byte)
    ensures b as int < 0x100 && Py.Octet(b as int) == b
  {
    NumberRoundTrip(b);
    ByteOfValue(b as int);
    SameByteValue(Py.Octet(b as int), b);
  }

  /** Both sides compute the same trailer. */
  lemma SameTrailer(payload: seq<Byte>)
    ensures Py.WithCrc(payload) == Crc16.Seal(payload)
  {
    hide PythonCrc.Crc, PythonCrc.TwoBytes, PythonCrc.Widen, Crc16.Checksum, Crc16.LowByte, Crc16.HighByte;
    PythonCrc.CrcIsChecksum(payload);
    PythonCrc.BytesAgree(Crc16.Checksum(payload));
  }

  lemma SameAcceptance(frame: seq<Byte>)
    requires |frame| == 8
    ensures Py.CrcMatches(frame) <==> Crc16.FrameValid(frame)
  {
    hide PythonCrc.Crc, PythonCrc.FromTwoBytes, PythonCrc.Widen, Crc16.Checksum, Crc16.Word;
    PythonCrc.CrcIsChecksum(frame[..6]);
    PythonCrc.PairAgrees(Crc16.Checksum(frame[..6]), frame[6], frame[7]);
  }

  lemma ExceptionAgrees(c: State, p: Py.State, address: Byte, function_: Byte, code: Byte, capacity: nat)
    requires Same(c, p) && address as int == p.nodeAddress && capacity >= 5
    ensures var ((after, response), (after', response')) :=
              (Exception(c, address, function_, code, capacity), Py.Exception(p, function_, code));
            response == Some(response') && Same(after, after')
  {
    hide Py.WithCrc, Crc16.Seal, Py.Octet;
    WrapTwice(p.exceptions);
    OctetRoundTrip(address);
    SameTrailer([address, function_ | 0x80, code]);
  }

  lemma DataAgrees(c: State, p: Py.State, address: Byte, first: nat, quantity: nat)
    requires Same(c, p) && address as int == p.nodeAddress && first + quantity <= REGISTER_COUNT
    ensures var data := Py.Joined(Py.Current(p)[first..first + quantity]);
            Py.WithCrc([Py.Octet(p.nodeAddress), READ_HOLDING, Py.Octet(|data|)] + data) ==
            Crc16.Seal([address, READ_HOLDING, ByteOf(2 * quantity)] + WireBytes(Registers(c)[first..first + quantity]))
  {
    hide Py.WithCrc, Crc16.Seal, Py.Octet, ByteOf, Registers, Py.Current, WireBytes, Py.Joined;
    SameRegisters(c, p);
    var values := Registers(c)[first..first + quantity];
    SameWire(values, Py.Current(p)[first..first + quantity]);
    OctetRoundTrip(address);
    OctetIsByte(2 * quantity);
    SameTrailer([address, READ_HOLDING, ByteOf(2 * quantity)] + WireBytes(values));
  }

  lemma ForgettingStaleIsSame(c: State, p: Py.State)
    requires Same(c, p)
    ensures Same(c, p.(staleRegisters := None))
  {
  }

  lemma NormalRegisters(p: Py.State)
    requires p.Fits() && p.scenario.Normal?
    ensures Py.Registers(p) == (p.(staleRegisters := None), Py.Current(p))
  {
  }

  lemma ReadRefused(c: State, p: Py.State, frame: seq<Byte>, capacity: nat, code: Byte)
    requires Same(c, p) && p.Fits() && p.scenario.Normal?
    requires |frame| == 8 && frame[0] as int == p.nodeAddress && frame[1] == READ_HOLDING && capacity >= 41
    requires var first, quantity := Number(frame[2], frame[3]), Number(frame[4], frame[5]);
             if quantity == 0 || quantity > REGISTER_COUNT then code == ILLEGAL_VALUE
             else code == ILLEGAL_ADDRESS && first + quantity > REGISTER_COUNT
    ensures var ((after, response), (after', response')) := (Read(c, frame, capacity), Py.Answer(p, frame));
            response == Some(response') && Same(after, after')
  {
    hide Same, Exception, Py.Exception, Py.Registers, Py.Joined, Py.WithCrc, Crc16.Seal, Registers, WireBytes;
    ExceptionAgrees(c, p, frame[0], frame[1], code, capacity);
  }

  lemma ReadAnswered(c: State, p: Py.State, frame: seq<Byte>, capacity: nat)
    requires Same(c, p) && p.Fits() && p.scenario.Normal?
    requires |frame| == 8 && frame[0] as int == p.nodeAddress && frame[1] == READ_HOLDING && capacity >= 41
    requires var first, quantity := Number(frame[2], frame[3]), Number(frame[4], frame[5]);
             0 < quantity && first + quantity <= REGISTER_COUNT
    ensures var ((after, response), (after', response')) := (Read(c, frame, capacity), Py.Answer(p, frame));
            response == Some(response') && Same(after, after')
  {
    hide Same, Exception, Py.Exception, Py.Registers, Py.Current, Py.Joined, Py.WithCrc, Crc16.Seal, Py.Octet, ByteOf;
    hide Registers, WireBytes;
    NormalRegisters(p);
    ForgettingStaleIsSame(c, p);
    DataAgrees(c, p, frame[0], Number(frame[2], frame[3]), Number(frame[4], frame[5]));
  }

  lemma ReadAgrees(c: State, p: Py.State, frame: seq<Byte>, capacity: nat)
    requires Same(c, p) && p.Fits() && p.scenario.Normal?
    requires |frame| == 8 && frame[0] as int == p.nodeAddress && frame[1] == READ_HOLDING && capacity >= 41
    ensures var ((after, response), (after', response')) := (Read(c, frame, capacity), Py.Answer(p, frame));
            response == Some(response') && Same(after, after')
  {
    hide Same, Read, Py.Answer, Number;
    var first, quantity := Number(frame[2], frame[3]), Number(frame[4], frame[5]);
    if quantity == 0 || quantity > REGISTER_COUNT {
      ReadRefused(c, p, frame, capacity, ILLEGAL_VALUE);
    } else if first + quantity > REGISTER_COUNT {
      ReadRefused(c, p, frame, capacity, ILLEGAL_ADDRESS);
    } else {
      ReadAnswered(c, p, frame, capacity);
    }
  }

  lemma OctetIsByte(x: nat)
    requires x < 0x100
    ensures Py.Octet(x) == ByteOf(x)
  {
  }

  /** One frame other than a write: same answer, or silence on both sides, and equal fields afterwards. */
  lemma FrameAgrees(c: State, p: Py.State, frame: seq<Byte>, capacity: nat, persistence: Persistence)
    requires Same(c, p) && |frame| == 8 && frame[1] != WRITE_SINGLE && capacity >= 41
    ensures var (after, response) := Handle(c, frame, capacity, persistence);
            var (after', response') := Py.Handle(p, frame);
            response == response' && Same(after, after')
  {
    hide Read, Crc16.FrameValid, Py.CrcMatches, Exception, Py.Exception, Py.Registers, Py.Joined, Py.WithCrc;
    SameAcceptance(frame);
    WrapTwice(p.crcErrors);
    if Crc16.FrameValid(frame) && frame[0] as int == p.nodeAddress {
      if frame[1] == READ_HOLDING {
        ReadAgrees(c, p, frame, capacity);
      } else {
        ExceptionAgrees(c, p, frame[0], frame[1], ILLEGAL_FUNCTION, capacity);
      }
    }
  }

  /** A write that is valid and addressed to the node. */
  predicate AddressedWrite(c: State, frame: seq<Byte>) {
    |frame| == 8 && Crc16.FrameValid(frame) && frame[0] as int == c.config.nodeAddress && frame[1] == WRITE_SINGLE
  }

  lemma OtherLengthsDiffer(c: State, p: Py.State, frame: seq<Byte>)
    requires Same(c, p) && |frame| != 8
    ensures !Same(c, Py.Handle(p, frame).0)
  {
    hide Py.Answer, Py.CrcMatches, Py.State.Fits;
    WrapTwice(p.crcErrors);
  }

  lemma ExceptionBytes(s: State, address: Byte, function_: Byte, code: Byte, capacity: nat)
    ensures var response := Exception(s, address, function_, code, capacity).1;
            response.Some? ==>
              |response.value| == 5 && response.value[1] == function_ | 0x80 && response.value[2] == code
  {
    hide Crc16.Seal;
    SealPrefix([address, function_ | 0x80, code]);
  }

  /** The simulator knows no writes: it answers with the exception for an unknown function. */
  lemma PyWriteBytes(c: State, p: Py.State, frame: seq<Byte>)
    requires Same(c, p) && AddressedWrite(c, frame)
    ensures var response := Py.Handle(p, frame).1;
            && response.Some? && |response.value| == 5
            && response.value[1] == 0x86 && response.value[2] == ILLEGAL_FUNCTION
  {
    hide Crc16.FrameValid, Py.CrcMatches, Crc16.Seal, Py.WithCrc, Py.Octet;
    SameAcceptance(frame);
    OctetRoundTrip(frame[0]);
    SameTrailer([frame[0], 0x86, ILLEGAL_FUNCTION]);
    SealPrefix([frame[0], 0x86, ILLEGAL_FUNCTION]);
    assert WRITE_SINGLE | 0x80 == 0x86;
  }

  lemma WritesDiffer(c: State, p: Py.State, frame: seq<Byte>, capacity: nat, persistence: Persistence)
    requires Same(c, p) && AddressedWrite(c, frame)
    ensures Handle(c, frame, capacity, persistence).1 != Py.Handle(p, frame).1
  {
    PyWriteBytes(c, p, frame);
    ExceptionBytes(c, frame[0], frame[1], ILLEGAL_ADDRESS, capacity);
    ExceptionBytes(c, frame[0], frame[1], ILLEGAL_VALUE, capacity);
    ExceptionBytes(c, frame[0], frame[1], DEVICE_FAILURE, capacity);
    hide Crc16.FrameValid, Exception, Number, WithValue, ValueValid, Same, Py.Handle;
    assert Handle(c, frame, capacity, persistence) == Write(c, frame, capacity, persistence);
  }

  lemma SameFacts(c: State, p: Py.State)
    requires Same(c, p)
    ensures p.Fits() && p.scenario.Normal? && p.nodeAddress == c.config.nodeAddress
  {
  }

  /** Exactly the frames of eight bytes that are no write addressed to the node are treated alike. */
  lemma AgreementIsExact(c: State, p: Py.State, frame: seq<Byte>, capacity: nat, persistence: Persistence)
    requires Same(c, p) && capacity >= 41
    ensures var (after, response) := Handle(c, frame, capacity, persistence);
            var (after', response') := Py.Handle(p, frame);
            response == response' && Same(after, after') <==> |frame| == 8 && !AddressedWrite(c, frame)
  {
    SameFacts(c, p);
    hide Same, Exception, Py.Exception, Read, Write, Py.Answer, Crc16.FrameValid, Py.CrcMatches;
    if |frame| != 8 {
      OtherLengthsDiffer(c, p, frame);
    } else if AddressedWrite(c, frame) {
      WritesDiffer(c, p, frame, capacity, persistence);
    } else if frame[1] != WRITE_SINGLE {
      FrameAgrees(c, p, frame, capacity, persistence);
    } else {
      SameAcceptance(frame);
      CrcErrorIsSame(c, p);
    }
  }

  lemma CrcErrorIsSame(c: State, p: Py.State)
    requires Same(c, p)
    ensures Same(c.(crcErrors := ToUInt32(c.crcErrors + 1)), p.(crcErrors := p.crcErrors + 1))
  {
    WrapTwice(p.crcErrors);
  }

  function Replies(c: State, frames: seq<seq<Byte>>, capacity: nat): (State, seq<Option<seq<Byte>>>) {
    if frames == [] then (c, [])
    else
      var (before, replies) := Replies(c, frames[..|frames| - 1], capacity);
      var (after, reply) := Handle(before, frames[|frames| - 1], capacity, NoCallback);
      (after, replies + [reply])
  }

  function PyReplies(p: Py.State, frames: seq<seq<Byte>>): (r: (Py.State, seq<Option<seq<Byte>>>))
    requires p.Fits()
    ensures r.0.Fits()
  {
    if frames == [] then (p, [])
    else
      var (before, replies) := PyReplies(p, frames[..|frames| - 1]);
      var (after, reply) := Py.Handle(before, frames[|frames| - 1]);
      (after, replies + [reply])
  }

  /** Over every sequence of 8-byte frames without writes the two nodes answer byte for byte alike. */
  lemma {:induction false} NodesAgree(c: State, p: Py.State, frames: seq<seq<Byte>>, capacity: nat)
    requires Same(c, p) && capacity >= 41
    requires forall frame | frame in frames :: |frame| == 8 && frame[1] != WRITE_SINGLE
    ensures Replies(c, frames, capacity).1 == PyReplies(p, frames).1
    ensures Same(Replies(c, frames, capacity).0, PyReplies(p, frames).0)
  {
    assert p.Fits();
    hide Handle, Py.Handle, Same;
    if frames != [] {
      NodesAgree(c, p, frames[..|frames| - 1], capacity);
      FrameAgrees(Replies(c, frames[..|frames| - 1], capacity).0, PyReplies(p, frames[..|frames| - 1]).0,
                  frames[|frames| - 1], capacity, NoCallback);
    }
  }

  /** In the bad-CRC scenario every answer is an invalid frame. */
  lemma SpoiledNeverValid(payload: seq<Byte>)
    requires payload != []
    ensures !Crc16.FrameValid(Py.Spoil(Py.WithCrc(payload)))
  {
    hide Crc16.FrameValid, Crc16.Seal, Py.WithCrc;
    SameTrailer(payload);
    SealIsValid(payload);
    var good, bad := Crc16.Seal(payload), Py.Spoil(Crc16.Seal(payload));
    var n := |good|;
    FlipChanges(good[n - 1]);
    assert good[..n - 2] == bad[..n - 2] && good[n - 2 + 2..] == bad[n - 2 + 2..];
    assert good[n - 1] != bad[n - 1];
    Crc16.AdjacentBytesNeverBothValid(good, bad, n - 2);
  }

  lemma FlipChanges(b: Byte)
    ensures b ^ 1 != b
  {
  }
}

/** The firmware's Modbus RTU node: registers, requests, validated and persisted writes. */
module ModbusNode {
  import opened MachineWords
  import opened Options
  import Crc16
  import Crc32

  const REGISTER_COUNT: nat := 18
  const READ_HOLDING: Byte := 0x03
  const WRITE_SINGLE: Byte := 0x06
  const ILLEGAL_FUNCTION: Byte := 0x01
  const ILLEGAL_ADDRESS: Byte := 0x02
  const ILLEGAL_VALUE: Byte := 0x03
  const DEVICE_FAILURE: Byte := 0x04

  type UInt16 = x: int | 0 <= x < 0x1_0000
  type Int16 = x: int | -0x8000 <= x < 0x8000

  function ToUInt16(x: int): UInt16 { x % TWO_16 }

  function ToInt16(x: UInt16): Int16 { if x < 0x8000 then x else x - TWO_16 }

  /** The 16-bit number whose big-endian bytes are `high` and `low`. */
  function Number(high: Byte, low: Byte): (n: UInt16)
  {
    high as int * 0x100 + low as int
  }

  // ----- configuration

  const CONFIG_MAGIC: UInt32 := 0x4D4F_4442
  const CONFIG_VERSION: UInt16 := 1
  const CONFIG_SIZE: UInt16 := 24

  datatype Config = Config(magic: UInt32, schemaVersion: UInt16, structSize: UInt16, generation: UInt32,
                           nodeAddress: nat, offset: Int16, gain: UInt16, checksum: bv32)

  /** Little-endian image of everything before the checksum. */
  function ConfigBytes(c: Config): seq<Byte> {
    LittleEndian(c.magic, 4) + LittleEndian(c.schemaVersion, 2) + LittleEndian(c.structSize, 2) +
    LittleEndian(c.generation, 4) +
    [ByteOf(c.nodeAddress), 0, 0, 0] + LittleEndian(ToUInt16(c.offset), 2) + LittleEndian(c.gain, 2)
  }

  function Finalize(c: Config): Config {
    var stamped := c.(magic := CONFIG_MAGIC, schemaVersion := CONFIG_VERSION, structSize := CONFIG_SIZE);
    stamped.(checksum := Crc32.Checksum(ConfigBytes(stamped)))
  }

  predicate ConfigValid(c: Config) {
    && c.magic == CONFIG_MAGIC && c.schemaVersion == CONFIG_VERSION && c.structSize == CONFIG_SIZE
    && 1 <= c.nodeAddress <= 247 && -5000 <= c.offset <= 5000 && c.gain >= 16384
    && c.checksum == Crc32.Checksum(ConfigBytes(c))
  }

  const DEFAULT_CONFIG: Config := Finalize(Config(0, 0, 0, 1, 1, 0, 32768, 0))

  // ----- the node as a value

  datatype State = State(config: Config, temperature: Int16, adcRaw: UInt16, sensorStatus: UInt16, faultFlags: UInt16,
                         uptimeMs: UInt32, resetCount: UInt32, crcErrors: UInt32, exceptions: UInt32)

  /** What the persist callback does, if there is one. */
  datatype Persistence = NoCallback | Succeeds | Fails

  /** A missing image counts as an invalid one. */
  function Initial(image: Option<Config>): State {
    if image.Some? && ConfigValid(image.value) then State(image.value, 0, 0, 0, 0, 0, 0, 0, 0)
    else State(DEFAULT_CONFIG, 0, 0, 0, 1, 0, 0, 0, 0)
  }

  /** `(before & 1) | reported` */
  function KeepFallback(before: UInt16, reported: UInt16): UInt16 {
    if before % 2 == 1 && reported % 2 == 0 then reported + 1 else reported
  }

  function Measured(s: State, adcRaw: UInt16, temperature: Int16, sensorStatus: UInt16, faultFlags: UInt16,
                    uptimeMs: UInt32, resetCount: UInt32): State
  {
    s.(adcRaw := adcRaw, temperature := temperature, sensorStatus := sensorStatus,
       faultFlags := KeepFallback(s.faultFlags, faultFlags), uptimeMs := uptimeMs, resetCount := resetCount)
  }

  function Registers(s: State): (values: seq<UInt16>)
    ensures |values| == REGISTER_COUNT
  {
    [0x0100, 0x4949, ToUInt16(s.config.nodeAddress), 0x0001, s.sensorStatus, s.faultFlags,
     ToUInt16(s.temperature), s.adcRaw, ToUInt16(s.uptimeMs / TWO_16), ToUInt16(s.uptimeMs),
     ToUInt16(s.resetCount / TWO_16), ToUInt16(s.resetCount), ToUInt16(s.crcErrors), ToUInt16(s.exceptions),
     ToUInt16(s.config.generation / TWO_16), ToUInt16(s.config.generation), ToUInt16(s.config.offset), s.config.gain]
  }

  /** Registers on the wire, high byte first. */
  function WireBytes(values: seq<UInt16>): (bytes: seq<Byte>)
    ensures |bytes| == 2 * |values|
  {
    if values == [] then []
    else WireBytes(values[..|values| - 1]) + [ByteOf(values[|values| - 1] / 0x100), ByteOf(values[|values| - 1])]
  }

  lemma NoRegisters(values: seq<UInt16>)
    requires values == []
    ensures WireBytes(values) == []
  {
  }

  lemma NextRegister(values: seq<UInt16>, first: nat, offset: nat)
    requires first + offset < |values|
    ensures WireBytes(values[first..first + offset + 1]) ==
            WireBytes(values[first..first + offset]) +
            [ByteOf(values[first + offset] / 0x100), ByteOf(values[first + offset])]
  {
    var part := values[first..first + offset + 1];
    assert part[..offset] == values[first..first + offset];
  }

  type Reply = (State, Option<seq<Byte>>)

  function Exception(s: State, address: Byte, function_: Byte, code: Byte, capacity: nat): Reply {
    if capacity < 5 then (s, None)
    else (s.(exceptions := ToUInt32(s.exceptions + 1)), Some(Crc16.Seal([address, function_ | 0x80, code])))
  }

  function Read(s: State, request: seq<Byte>, capacity: nat): Reply
    requires |request| == 8
  {
    var first, quantity := Number(request[2], request[3]), Number(request[4], request[5]);
    if quantity == 0 || quantity > REGISTER_COUNT then
      Exception(s, request[0], request[1], ILLEGAL_VALUE, capacity)
    else if first >= REGISTER_COUNT || first + quantity > REGISTER_COUNT then
      Exception(s, request[0], request[1], ILLEGAL_ADDRESS, capacity)
    else if capacity < 5 + 2 * quantity then (s, None)
    else (s, Some(Crc16.Seal([request[0], READ_HOLDING, ByteOf(2 * quantity)] +
                             WireBytes(Registers(s)[first..first + quantity]))))
  }

  predicate Writable(address: UInt16) { address == 2 || address == 16 || address == 17 }

  predicate ValueValid(address: UInt16, value: UInt16) {
    if address == 2 then 1 <= value <= 247
    else if address == 16 then -5000 <= ToInt16(value) <= 5000
    else address == 17 && value >= 16384
  }

  function WithValue(c: Config, address: UInt16, value: UInt16): Config {
    var changed := if address == 2 then c.(nodeAddress := value % 0x100)
                   else if address == 16 then c.(offset := ToInt16(value))
                   else c.(gain := value);
    Finalize(changed.(generation := ToUInt32(c.generation + 1)))
  }

  function Write(s: State, request: seq<Byte>, capacity: nat, persistence: Persistence): Reply
    requires |request| == 8
  {
    var address, value := Number(request[2], request[3]), Number(request[4], request[5]);
    if !Writable(address) then Exception(s, request[0], request[1], ILLEGAL_ADDRESS, capacity)
    else if !ValueValid(address, value) then Exception(s, request[0], request[1], ILLEGAL_VALUE, capacity)
    else if capacity < 8 then (s, None)
    else if persistence.Fails? then Exception(s, request[0], request[1], DEVICE_FAILURE, capacity)
    else (s.(config := WithValue(s.config, address, value)), Some(request))
  }

  function Handle(s: State, request: seq<Byte>, capacity: nat, persistence: Persistence): Reply {
    if |request| != 8 then (s, None)
    else if !Crc16.FrameValid(request) then (s.(crcErrors := ToUInt32(s.crcErrors + 1)), None)
    else if request[0] as int != s.config.nodeAddress then (s, None)
    else if request[1] == READ_HOLDING then Read(s, request, capacity)
    else if request[1] == WRITE_SINGLE then Write(s, request, capacity, persistence)
    else Exception(s, request[0], request[1], ILLEGAL_FUNCTION, capacity)
  }

  // ----- the node in place

  class Node {
    var config: Config
    var temperature: Int16
    var adcRaw: UInt16
    var sensorStatus: UInt16
    var faultFlags: UInt16
    var uptimeMs: UInt32
    var resetCount: UInt32
    var crcErrors: UInt32
    var exceptions: UInt32

    ghost function Value(): State
      reads this
    {
      State(config, temperature, adcRaw, sensorStatus, faultFlags, uptimeMs, resetCount, crcErrors, exceptions)
    }

    constructor (image: Option<Config>)
      ensures Value() == Initial(image)
    {
      temperature, adcRaw, sensorStatus, faultFlags := 0, 0, 0, 0;
      uptimeMs, resetCount, crcErrors, exceptions := 0, 0, 0, 0;
      if image.Some? && ConfigValid(image.value) {
        this.config := image.value;
      } else {
        this.config := DEFAULT_CONFIG;
        faultFlags := 1;
      }
    }

    /** Bit 0 of the fault flags, the configuration fallback, is kept. */
    method SetMeasurement(adcRaw: UInt16, temperature: Int16, sensorStatus: UInt16, faultFlags: UInt16,
                          uptimeMs: UInt32, resetCount: UInt32)
      modifies this
      ensures Value() == Measured(old(Value()), adcRaw, temperature, sensorStatus, faultFlags, uptimeMs, resetCount)
    {
      this.adcRaw, this.temperature, this.sensorStatus := adcRaw, temperature, sensorStatus;
      this.faultFlags := KeepFallback(this.faultFlags, faultFlags);
      this.uptimeMs, this.resetCount := uptimeMs, resetCount;
    }

    /** The bytes of `response` before `length` are the reply; length 0 means silence. */
    ghost predicate Replied(reply: Reply, response: array<Byte>, length: nat)
      reads this, response
    {
      && Value() == reply.0
      && match reply.1
         case None => length == 0
         case Some(bytes) => length <= response.Length && response[..length] == bytes
    }

    static method AppendCrc(frame: array<Byte>, length: nat)
      requires length + 2 <= frame.Length
      modifies frame
      ensures frame[..length + 2] == Crc16.Seal(old(frame[..length]))
    {
      hide Crc16.Checksum, Crc16.LowByte, Crc16.HighByte;
      ghost var payload := frame[..length];
      var crc := Crc16.Compute(frame, length);
      frame[length] := Crc16.LowByte(crc);
      frame[length + 1] := Crc16.HighByte(crc);
      assert frame[..length] == payload;
    }

    method ExceptionResponse(address: Byte, function_: Byte, code: Byte, response: array<Byte>, capacity: nat)
      returns (length: nat)
      requires capacity <= response.Length
      modifies this`exceptions, response
      ensures Replied(Exception(old(Value()), address, function_, code, capacity), response, length)
    {
      hide Crc16.Seal;
      if capacity < 5 {
        return 0;
      }
      response[0] := address;
      response[1] := function_ | 0x80;
      response[2] := code;
      assert response[..3] == [address, function_ | 0x80, code];
      AppendCrc(response, 3);
      length := 5;
      exceptions := ToUInt32(exceptions + 1);
    }

    method ReadRegisters(request: array<Byte>, response: array<Byte>, capacity: nat) returns (length: nat)
      requires request.Length == 8 && capacity <= response.Length && request != response
      modifies this`exceptions, response
      ensures Replied(Read(old(Value()), old(request[..]), capacity), response, length)
    {
      hide Registers, Exception, WireBytes, ByteOf, Number, Crc16.Seal;
      var first, quantity := Number(request[2], request[3]), Number(request[4], request[5]);
      if quantity == 0 || quantity > REGISTER_COUNT {
        length := ExceptionResponse(request[0], request[1], ILLEGAL_VALUE, response, capacity);
        return;
      }
      if first >= REGISTER_COUNT || first + quantity > REGISTER_COUNT {
        length := ExceptionResponse(request[0], request[1], ILLEGAL_ADDRESS, response, capacity);
        return;
      }
      length := 5 + 2 * quantity;
      if capacity < length {
        return 0;
      }
      var values := Registers(State(config, temperature, adcRaw, sensorStatus, faultFlags, uptimeMs, resetCount,
                                    crcErrors, exceptions));
      FillRegisters(request[0], values, first, quantity, response);
      AppendCrc(response, length - 2);
    }

    /** The header of a read response and the requested registers, high byte first. */
    static method FillRegisters(address: Byte, values: seq<UInt16>, first: nat, quantity: nat, response: array<Byte>)
      requires first + quantity <= |values| && 5 + 2 * quantity <= response.Length
      modifies response
      ensures response[..3 + 2 * quantity] ==
              [address, READ_HOLDING, ByteOf(2 * quantity)] + WireBytes(values[first..first + quantity])
    {
      hide ByteOf, WireBytes;
      NoRegisters(values[first..first]);
      response[0] := address;
      response[1] := READ_HOLDING;
      response[2] := ByteOf(2 * quantity);
      for offset := 0 to quantity
        invariant response[..3 + 2 * offset] ==
                  [address, READ_HOLDING, ByteOf(2 * quantity)] + WireBytes(values[first..first + offset])
      {
        var value := values[first + offset];
        ghost var done := response[..3 + 2 * offset];
        response[3 + offset * 2] := ByteOf(value / 0x100);
        response[4 + offset * 2] := ByteOf(value);
        assert response[..5 + 2 * offset] == done + [ByteOf(value / 0x100), ByteOf(value)];
        NextRegister(values, first, offset);
      }
    }

    method WriteRegister(request: array<Byte>, response: array<Byte>, capacity: nat, persistence: Persistence)
      returns (length: nat)
      requires request.Length == 8 && capacity <= response.Length && request != response
      modifies this`exceptions, this`config, response
      ensures Replied(Write(old(Value()), old(request[..]), capacity, persistence), response, length)
    {
      hide Exception, Finalize;
      var address, value := Number(request[2], request[3]), Number(request[4], request[5]);
      if address != 2 && address != 16 && address != 17 {
        length := ExceptionResponse(request[0], request[1], ILLEGAL_ADDRESS, response, capacity);
        return;
      }
      if !ValueValid(address, value) {
        length := ExceptionResponse(request[0], request[1], ILLEGAL_VALUE, response, capacity);
        return;
      }
      if capacity < 8 {
        return 0;
      }
      var previous := config;
      if address == 2 {
        config := config.(nodeAddress := value % 0x100);
      } else if address == 16 {
        config := config.(offset := ToInt16(value));
      } else {
        config := config.(gain := value);
      }
      config := Finalize(config.(generation := ToUInt32(config.generation + 1)));
      if persistence.Fails? {
        config := previous;
        length := ExceptionResponse(request[0], request[1], DEVICE_FAILURE, response, capacity);
        return;
      }
      forall i | 0 <= i < 8 {
        response[i] := request[i];
      }
      length := 8;
      assert response[..8] == request[..];
    }

    method HandleRequest(request: array?<Byte>, requestLength: nat, response: array?<Byte>, capacity: nat,
                         persistence: Persistence)
      returns (length: nat)
      requires request != null ==> request.Length == requestLength
      requires response != null ==> capacity <= response.Length && (request == null || request != response)
      modifies this`exceptions, this`config, this`crcErrors, response
      ensures if request == null || response == null then length == 0 && Value() == old(Value())
              else Replied(Handle(old(Value()), old(request[..]), capacity, persistence), response, length)
    {
      hide Read, Write, Exception;
      if requestLength != 8 || request == null || response == null {
        return 0;
      }
      var expected := Crc16.Compute(request, requestLength - 2);
      if expected != Crc16.Word(request[requestLength - 2], request[requestLength - 1]) {
        crcErrors := ToUInt32(crcErrors + 1);
        return 0;
      }
      assert request[..][..requestLength - 2] == request[..requestLength - 2];
      if request[0] as int != config.nodeAddress {
        return 0;
      }
      if request[1] == READ_HOLDING {
        length := ReadRegisters(request, response, capacity);
      } else if request[1] == WRITE_SINGLE {
        length := WriteRegister(request, response, capacity, persistence);
      } else {
        length := ExceptionResponse(request[0], request[1], ILLEGAL_FUNCTION, response, capacity);
      }
    }
  }
}

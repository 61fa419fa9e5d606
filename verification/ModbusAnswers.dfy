/** Which answer a request gets, in the numbers of the protocol. */
module ModbusAnswers {
  import opened MachineWords
  import opened Options
  import opened ModbusNode
  import opened ModbusProperties
  import Crc16
  import Crc32

  /** A valid frame for this node with that function code. */
  predicate Asks(s: State, frame: seq<Byte>, function_: Byte) {
    |frame| == 8 && Crc16.FrameValid(frame) && frame[0] as int == s.config.nodeAddress && frame[1] == function_
  }

  /** The number in bytes `at` and `at + 1`, high byte first. */
  function Field(frame: seq<Byte>, at: nat): int
    requires at + 1 < |frame|
  {
    frame[at] as int * 256 + frame[at + 1] as int
  }

  /** The node's answer is exception `code`. */
  predicate Refuses(s: State, frame: seq<Byte>, function_: Byte, code: Byte, reply: Reply)
    requires frame != []
  {
    reply == (s.(exceptions := (s.exceptions + 1) % 0x1_0000_0000), Some(Crc16.Seal([frame[0], function_, code])))
  }

  /** The writable registers, and the values each takes: the address, the signed offset, and the gain. */
  predicate Allowed(register: int, value: int) {
    || (register == 2 && 1 <= value <= 247)
    || (register == 16 && (value <= 5000 || value >= 65536 - 5000))
    || (register == 17 && value >= 16384)
  }

  lemma AllowedIsValid(register: UInt16, value: UInt16)
    ensures Allowed(register, value) <==> Writable(register) && ValueValid(register, value)
  {
  }

  /** The node answers exception `code`, or is silent if there is no room for it. */
  predicate Refused(s: State, frame: seq<Byte>, function_: Byte, code: Byte, capacity: nat, reply: Reply)
    requires frame != []
  {
    if capacity >= 5 then Refuses(s, frame, function_, code, reply) else reply == (s, None)
  }

  lemma ExceptionRefuses(s: State, frame: seq<Byte>, code: Byte, capacity: nat)
    requires |frame| == 8
    ensures Refused(s, frame, frame[1] | 0x80, code, capacity, Exception(s, frame[0], frame[1], code, capacity))
  {
    hide Crc16.Seal;
  }

  /** The function code of an exception is that of the request with its high bit set. */
  lemma MarkedFunctions()
    ensures READ_HOLDING | 0x80 == 0x83 && WRITE_SINGLE | 0x80 == 0x86
  {
  }

  lemma ReadRefuses(s: State, frame: seq<Byte>, code: Byte, capacity: nat)
    requires |frame| == 8 && frame[1] == 3
    ensures Refused(s, frame, 0x83, code, capacity, Exception(s, frame[0], frame[1], code, capacity))
  {
    MarkedFunctions();
    ExceptionRefuses(s, frame, code, capacity);
    hide Refused, Exception;
  }

  lemma WriteRefuses(s: State, frame: seq<Byte>, code: Byte, capacity: nat)
    requires |frame| == 8 && frame[1] == 6
    ensures Refused(s, frame, 0x86, code, capacity, Exception(s, frame[0], frame[1], code, capacity))
  {
    MarkedFunctions();
    ExceptionRefuses(s, frame, code, capacity);
    hide Refused, Exception;
  }

  lemma FieldIsNumber(frame: seq<Byte>, at: nat)
    requires at + 1 < |frame|
    ensures Field(frame, at) == Number(frame[at], frame[at + 1])
  {
  }

  lemma WriteCases(s: State, frame: seq<Byte>, capacity: nat, persistence: Persistence)
    requires |frame| == 8 && frame[1] == 6
    ensures var reply := Write(s, frame, capacity, persistence);
            var register, value := Number(frame[2], frame[3]), Number(frame[4], frame[5]);
            if !Writable(register) then Refused(s, frame, 0x86, 2, capacity, reply)
            else if !ValueValid(register, value) then Refused(s, frame, 0x86, 3, capacity, reply)
            else if capacity < 8 then reply == (s, None)
            else if persistence.Fails? then Refused(s, frame, 0x86, 4, capacity, reply)
            else reply == (s.(config := reply.0.config), Some(frame))
  {
    WriteRefuses(s, frame, 2, capacity);
    WriteRefuses(s, frame, 3, capacity);
    WriteRefuses(s, frame, 4, capacity);
    hide Crc16.Seal, WithValue, Exception, Writable, ValueValid, Refused, Number;
  }

  lemma DataLength(s: State, frame: seq<Byte>, first: nat, quantity: nat)
    requires frame != [] && first + quantity <= REGISTER_COUNT
    ensures |Crc16.Seal([frame[0], READ_HOLDING, ByteOf(2 * quantity)] +
                        WireBytes(Registers(s)[first..first + quantity]))| == 5 + 2 * quantity
  {
    hide Crc16.Seal, Registers, WireBytes, ByteOf;
    SealPrefix([frame[0], READ_HOLDING, ByteOf(2 * quantity)] + WireBytes(Registers(s)[first..first + quantity]));
  }

  lemma ReadCases(s: State, frame: seq<Byte>, capacity: nat)
    requires |frame| == 8 && frame[1] == 3
    ensures var (reply, first, quantity) := (Read(s, frame, capacity), Field(frame, 2), Field(frame, 4));
            if quantity < 1 || quantity > 18 then Refused(s, frame, 0x83, 3, capacity, reply)
            else if first + quantity > 18 then Refused(s, frame, 0x83, 2, capacity, reply)
            else if capacity < 5 + 2 * quantity then reply == (s, None)
            else reply.0 == s && reply.1.Some? && |reply.1.value| == 5 + 2 * quantity
  {
    FieldIsNumber(frame, 2);
    FieldIsNumber(frame, 4);
    ReadRefuses(s, frame, 2, capacity);
    ReadRefuses(s, frame, 3, capacity);
    hide Crc16.Seal, Registers, WireBytes, ByteOf, Exception, Refused, Field, Number;
    var first: int, quantity: int := Number(frame[2], frame[3]), Number(frame[4], frame[5]);
    if first + quantity <= 18 {
      DataLength(s, frame, first, quantity);
    }
  }

  lemma HandleAsks(s: State, frame: seq<Byte>, function_: Byte, capacity: nat, persistence: Persistence)
    requires Asks(s, frame, function_)
    ensures Handle(s, frame, capacity, persistence) ==
            if function_ == 3 then Read(s, frame, capacity)
            else if function_ == 6 then Write(s, frame, capacity, persistence)
            else Exception(s, frame[0], function_, 1, capacity)
  {
    hide Crc16.FrameValid, Exception, Read, Write;
  }

  /**
   * The answer to a write: exception 2 exactly for a register that is not writable, 3 exactly for a value that is not
   * allowed, 4 exactly if an allowed one is not persisted, and the request itself exactly if it is.
   */
  lemma WriteAnswer(s: State, frame: seq<Byte>, capacity: nat, persistence: Persistence)
    requires Asks(s, frame, 6)
    ensures var (after, reply) := Handle(s, frame, capacity, persistence);
            var (register, value) := (Field(frame, 2), Field(frame, 4));
            var writable := register == 2 || register == 16 || register == 17;
            && (reply == Some(Crc16.Seal([frame[0], 0x86, 2])) <==> capacity >= 5 && !writable)
            && (reply == Some(Crc16.Seal([frame[0], 0x86, 3])) <==>
                  capacity >= 5 && writable && !Allowed(register, value))
            && (reply == Some(Crc16.Seal([frame[0], 0x86, 4])) <==>
                  capacity >= 8 && Allowed(register, value) && persistence.Fails?)
            && (reply == Some(frame) <==> capacity >= 8 && Allowed(register, value) && !persistence.Fails?)
            && (reply == None <==> capacity < 5 || (capacity < 8 && Allowed(register, value)))
            && after == s.(config := after.config,
                           exceptions := if reply == None || reply == Some(frame) then s.exceptions
                                         else (s.exceptions + 1) % 0x1_0000_0000)
            && (reply != Some(frame) ==> after.config == s.config)
  {
    HandleAsks(s, frame, 6, capacity, persistence);
    WriteCases(s, frame, capacity, persistence);
    FieldIsNumber(frame, 2);
    FieldIsNumber(frame, 4);
    AllowedIsValid(Number(frame[2], frame[3]), Number(frame[4], frame[5]));
    CodeSent(frame[0], 0x86, 2);
    CodeSent(frame[0], 0x86, 3);
    CodeSent(frame[0], 0x86, 4);
    hide Crc16.Seal, Crc16.FrameValid, Handle, Write, Number, Field, ValueValid, Allowed;
  }

  lemma CodeSent(a: Byte, function_: Byte, code: Byte)
    ensures |Crc16.Seal([a, function_, code])| == 5 && Crc16.Seal([a, function_, code])[2] == code
  {
    SealPrefix([a, function_, code]);
  }

  /**
   * The answer to a read: exception 3 exactly for a quantity outside 1 to 18, 2 exactly for registers beyond the map,
   * and data otherwise.
   */
  lemma ReadAnswer(s: State, frame: seq<Byte>, capacity: nat, persistence: Persistence)
    requires Asks(s, frame, 3)
    ensures var (after, reply) := Handle(s, frame, capacity, persistence);
            var (first, quantity) := (Field(frame, 2), Field(frame, 4));
            && (reply == Some(Crc16.Seal([frame[0], 0x83, 3])) <==> capacity >= 5 && !(1 <= quantity <= 18))
            && (reply == Some(Crc16.Seal([frame[0], 0x83, 2])) <==>
                  capacity >= 5 && 1 <= quantity <= 18 && first + quantity > 18)
            && ((reply.Some? && |reply.value| > 5) <==>
                  quantity >= 1 && first + quantity <= 18 && capacity >= 5 + 2 * quantity)
            && after == s.(exceptions := if reply.Some? && |reply.value| == 5 then (s.exceptions + 1) % 0x1_0000_0000
                                         else s.exceptions)
  {
    HandleAsks(s, frame, 3, capacity, persistence);
    ReadCases(s, frame, capacity);
    CodeSent(frame[0], 0x83, 2);
    CodeSent(frame[0], 0x83, 3);
    hide Crc16.Seal, Crc16.FrameValid, Handle, Read;
  }

  /** Any other function is unknown; other frames are met with silence, and counted if they are damaged. */
  lemma OtherAnswer(s: State, frame: seq<Byte>, capacity: nat, persistence: Persistence)
    ensures var reply := Handle(s, frame, capacity, persistence);
            if |frame| != 8 then reply == (s, None)
            else if !Crc16.FrameValid(frame) then
              reply == (s.(crcErrors := (s.crcErrors + 1) % 0x1_0000_0000), None)
            else if frame[0] as int != s.config.nodeAddress then reply == (s, None)
            else frame[1] != 3 && frame[1] != 6 ==> Refused(s, frame, frame[1] | 0x80, 1, capacity, reply)
  {
    if |frame| == 8 {
      ExceptionRefuses(s, frame, 1, capacity);
    }
    hide Crc16.FrameValid, Exception, Read, Write, Crc16.Seal, Refused;
  }

  /** The registers show the whole state: identity and measurement, counters, and the configuration. */
  lemma RegistersShowState(s: State)
    requires s.config.nodeAddress < 0x100
    ensures var values := Registers(s);
            && values[0] == 0x0100 && values[1] == 0x4949 && values[3] == 1
            && values[4] == s.sensorStatus && values[5] == s.faultFlags
            && ToInt16(values[6]) == s.temperature && values[7] == s.adcRaw
            && values[8] * TWO_16 + values[9] == s.uptimeMs && values[10] * TWO_16 + values[11] == s.resetCount
            && values[12] == s.crcErrors % TWO_16 && values[13] == s.exceptions % TWO_16
            && values[14] * TWO_16 + values[15] == s.config.generation
            && values[2] == s.config.nodeAddress
            && ToInt16(values[16]) == s.config.offset && values[17] == s.config.gain
  {
  }

  /** A node without a valid image shows address 1, no offset, unit gain and the first generation, and says so. */
  lemma FallbackRegisters(image: Option<Config>)
    requires image.None? || !ConfigValid(image.value)
    ensures var values := Registers(Initial(image));
            && values[2] == 1 && values[16] == 0 && values[17] == 32768 && values[14] == 0 && values[15] == 1
            && values[5] == 1 && forall i | i == 4 || 6 <= i <= 13 :: values[i] == 0
  {
    hide ConfigValid, ConfigBytes, Crc32.Checksum;
  }
}

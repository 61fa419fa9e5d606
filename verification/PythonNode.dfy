/** The simulator's deterministic Modbus node, with its fault scenarios. */
module PythonNode {
  import opened MachineWords
  import opened Options
  import opened PythonCrc

  const REGISTER_COUNT: nat := 18

  datatype Scenario = Normal | Timeout | BadCrc | IllegalAddress | Stale

  datatype State = State(nodeAddress: nat, scenario: Scenario, temperature: int, adcRaw: nat, sensorStatus: nat,
                         faultFlags: nat, uptimeMs: nat, resetCount: nat, crcErrors: nat, exceptions: nat,
                         generation: nat, offset: int, gain: nat, staleRegisters: Option<seq<nat>>) {
    /** The fields the node puts on the wire unmasked fit their width. */
    predicate Fits() {
      && nodeAddress < 0x100 && adcRaw < TWO_16 && sensorStatus < TWO_16 && faultFlags < TWO_16 && gain < TWO_16
      && (staleRegisters.Some? ==> |staleRegisters.value| == REGISTER_COUNT)
    }
  }

  function Octet(x: nat): Byte
    requires x < 0x100
  {
    ByteOf(x)
  }

  /** `value.to_bytes(2, "big")`, for values that fit. */
  function BigEndian(value: nat): seq<Byte> {
    [Octet(value / 0x100 % 0x100), Octet(value % 0x100)]
  }

  /** `crc16(payload).to_bytes(2, "little")` after the payload. */
  function WithCrc(payload: seq<Byte>): seq<Byte> {
    CrcIsChecksum(payload);
    payload + TwoBytes(Crc(payload))
  }

  function Number(high: Byte, low: Byte): nat { high as int * 0x100 + low as int }

  function CrcMatches(frame: seq<Byte>): bool
    requires |frame| >= 2
  {
    Crc(frame[..|frame| - 2]) == FromTwoBytes(frame[|frame| - 2], frame[|frame| - 1])
  }

  function Current(s: State): (values: seq<nat>)
    ensures |values| == REGISTER_COUNT
  {
    [0x0100, 0x4949, s.nodeAddress, 0x0001, s.sensorStatus, s.faultFlags, s.temperature % TWO_16, s.adcRaw,
     s.uptimeMs / TWO_16 % TWO_16, s.uptimeMs % TWO_16, s.resetCount / TWO_16 % TWO_16, s.resetCount % TWO_16,
     s.crcErrors % TWO_16, s.exceptions % TWO_16, s.generation / TWO_16 % TWO_16, s.generation % TWO_16,
     s.offset % TWO_16, s.gain]
  }

  /** In the stale scenario the first reading is frozen; otherwise a frozen reading is forgotten. */
  function Registers(s: State): (r: (State, seq<nat>))
    requires s.Fits()
    ensures |r.1| == REGISTER_COUNT && r.0.Fits()
  {
    if s.scenario.Stale? then
      if s.staleRegisters.None? then (s.(staleRegisters := Some(Current(s))), Current(s))
      else (s, s.staleRegisters.value)
    else (s.(staleRegisters := None), Current(s))
  }

  function Joined(values: seq<nat>): (data: seq<Byte>)
    ensures |data| == 2 * |values|
  {
    if values == [] then [] else Joined(values[..|values| - 1]) + BigEndian(values[|values| - 1])
  }

  function Exception(s: State, function_: Byte, code: Byte): (State, seq<Byte>)
    requires s.Fits()
  {
    (s.(exceptions := s.exceptions + 1), WithCrc([Octet(s.nodeAddress), function_ | 0x80, code]))
  }

  function Answer(s: State, frame: seq<Byte>): (r: (State, seq<Byte>))
    requires |frame| == 8 && s.Fits()
    ensures r.0.Fits()
  {
    var function_ := frame[1];
    if s.scenario.IllegalAddress? then Exception(s, function_, 0x02)
    else if function_ == 0x03 then
      var first, quantity := Number(frame[2], frame[3]), Number(frame[4], frame[5]);
      if quantity < 1 || quantity > REGISTER_COUNT then Exception(s, function_, 0x03)
      else if first >= REGISTER_COUNT || first + quantity > REGISTER_COUNT then Exception(s, function_, 0x02)
      else
        var (after, values) := Registers(s);
        var data := Joined(values[first..first + quantity]);
        (after, WithCrc([Octet(s.nodeAddress), function_, Octet(|data|)] + data))
    else Exception(s, function_, 0x01)
  }

  /** The bad-CRC scenario flips the low bit of the last byte. */
  function Spoil(response: seq<Byte>): seq<Byte> {
    if response == [] then [] else response[..|response| - 1] + [response[|response| - 1] ^ 1]
  }

  function Handle(s: State, frame: seq<Byte>): (r: (State, Option<seq<Byte>>))
    requires s.Fits()
    ensures r.0.Fits()
  {
    if s.scenario.Timeout? then (s, None)
    else if |frame| != 8 || !CrcMatches(frame) then (s.(crcErrors := s.crcErrors + 1), None)
    else if frame[0] as int != s.nodeAddress then (s, None)
    else
      var (after, response) := Answer(s, frame);
      (after, Some(if s.scenario.BadCrc? then Spoil(response) else response))
  }

  method AppendCrc(payload: seq<Byte>) returns (frame: seq<Byte>)
    ensures frame == WithCrc(payload)
  {
    hide Crc, TwoBytes;
    CrcIsChecksum(payload);
    var checksum := Compute(payload);
    frame := payload + TwoBytes(checksum);
  }

  class DeterministicNode {
    var nodeAddress: nat
    var scenario: Scenario
    var temperature: int
    var adcRaw: nat
    var sensorStatus: nat
    var faultFlags: nat
    var uptimeMs: nat
    var resetCount: nat
    var crcErrors: nat
    var exceptions: nat
    var generation: nat
    var offset: int
    var gain: nat
    var staleRegisters: Option<seq<nat>>

    function Value(): State
      reads this
    {
      State(nodeAddress, scenario, temperature, adcRaw, sensorStatus, faultFlags, uptimeMs, resetCount, crcErrors,
            exceptions, generation, offset, gain, staleRegisters)
    }

    constructor ()
      ensures Value() == State(1, Normal, 4250, 2048, 0, 0, 120_000, 3, 0, 0, 1, 0, 32_768, None)
    {
      nodeAddress, scenario, temperature, adcRaw, sensorStatus, faultFlags := 1, Normal, 4250, 2048, 0, 0;
      uptimeMs, resetCount, crcErrors, exceptions, generation := 120_000, 3, 0, 0, 1;
      offset, gain, staleRegisters := 0, 32_768, None;
    }

    method ReadRegisters() returns (values: seq<nat>)
      requires Value().Fits()
      modifies this`staleRegisters
      ensures (Value(), values) == Registers(old(Value()))
    {
      hide Current;
      var current := Current(Value());
      if scenario.Stale? {
        if staleRegisters.None? {
          staleRegisters := Some(current);
        }
        return staleRegisters.value;
      }
      staleRegisters := None;
      values := current;
    }

    method RaiseException(function_: Byte, code: Byte) returns (response: seq<Byte>)
      requires Value().Fits()
      modifies this`exceptions
      ensures (Value(), response) == Exception(old(Value()), function_, code)
    {
      hide WithCrc, Octet;
      exceptions := exceptions + 1;
      response := AppendCrc([Octet(nodeAddress), function_ | 0x80, code]);
    }

    method HandleFrame(frame: seq<Byte>) returns (response: Option<seq<Byte>>)
      requires Value().Fits()
      modifies this`staleRegisters, this`exceptions, this`crcErrors
      ensures (Value(), response) == Handle(old(Value()), frame)
    {
      hide Crc, FromTwoBytes, WithCrc, Octet, Joined, Current, Registers, Exception, Number;
      if scenario.Timeout? {
        return None;
      }
      var valid := false;
      if |frame| == 8 {
        var expected := Compute(frame[..6]);
        valid := expected == FromTwoBytes(frame[6], frame[7]);
      }
      assert |frame| == 8 ==> valid == CrcMatches(frame);
      hide CrcMatches;
      if !valid {
        crcErrors := crcErrors + 1;
        return None;
      }
      if frame[0] as int != nodeAddress {
        return None;
      }
      var function_ := frame[1];
      var reply;
      if scenario.IllegalAddress? {
        reply := RaiseException(function_, 0x02);
      } else if function_ == 0x03 {
        var first, quantity := Number(frame[2], frame[3]), Number(frame[4], frame[5]);
        if quantity < 1 || quantity > REGISTER_COUNT {
          reply := RaiseException(function_, 0x03);
        } else if first >= REGISTER_COUNT || first + quantity > REGISTER_COUNT {
          reply := RaiseException(function_, 0x02);
        } else {
          var values := ReadRegisters();
          var data := Joined(values[first..first + quantity]);
          reply := AppendCrc([Octet(nodeAddress), function_, Octet(|data|)] + data);
        }
      } else {
        reply := RaiseException(function_, 0x01);
      }
      response := Some(if scenario.BadCrc? then Spoil(reply) else reply);
    }
  }
}

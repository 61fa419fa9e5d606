/** What the simulator's fault scenarios promise, over any frames and any changes of the simulated values. */
module SimulatorScenarios {
  import opened MachineWords
  import opened Options
  import opened PythonNode
  import Crc16
  import ModbusProperties

  /** The values of the node, its scenario and its frozen registers aside, may change between frames. */
  datatype Event = Sent(frame: seq<Byte>) | Changed(fields: State)

  predicate Lawful(event: Event) { event.Changed? ==> event.fields.Fits() }

  function StepNode(s: State, event: Event): (r: State)
    requires s.Fits() && Lawful(event)
    ensures r.Fits()
  {
    match event
    case Sent(frame) => Handle(s, frame).0
    case Changed(fields) => fields.(scenario := s.scenario, staleRegisters := s.staleRegisters)
  }

  function RunNode(s: State, events: seq<Event>): (r: State)
    requires s.Fits() && forall event | event in events :: Lawful(event)
    ensures r.Fits()
  {
    if events == [] then s
    else StepNode(RunNode(s, events[..|events| - 1]), events[|events| - 1])
  }

  /** A valid frame for this node. */
  predicate Hears(s: State, frame: seq<Byte>) {
    |frame| == 8 && Crc16.FrameValid(frame) && frame[0] as int == s.nodeAddress
  }

  /** The number in bytes `at` and `at + 1`, high byte first. */
  function Field(frame: seq<Byte>, at: nat): int
    requires at + 1 < |frame|
  {
    frame[at] as int * 256 + frame[at + 1] as int
  }

  predicate IsRead(s: State, frame: seq<Byte>, first: nat, quantity: nat) {
    && Hears(s, frame) && frame[1] == 0x03
    && Field(frame, 2) == first && Field(frame, 4) == quantity
    && 1 <= quantity && first + quantity <= 18
  }

  /** A valid frame that carries registers `first` to `first + quantity` of `values`, high byte first. */
  ghost predicate Carries(response: seq<Byte>, values: seq<nat>, first: nat, quantity: nat) {
    && first + quantity <= |values| && |response| == 5 + 2 * quantity && Crc16.FrameValid(response)
    && forall i: nat | i < quantity :: Field(response, 3 + 2 * i) == values[first + i]
  }

  predicate Words(values: seq<nat>) { forall value | value in values :: value < TWO_16 }

  lemma BytesOf(value: nat)
    requires value < TWO_16
    ensures Field(BigEndian(value), 0) == value
  {
    ModbusProperties.NumberOfBytes(value);
    ModbusProperties.SameBytes(value);
    hide BigEndian, ByteOf;
  }

  lemma SameField(a: seq<Byte>, b: seq<Byte>, i: nat, j: nat)
    requires i + 1 < |a| && j + 1 < |b| && a[i] == b[j] && a[i + 1] == b[j + 1]
    ensures Field(a, i) == Field(b, j)
  {
  }

  lemma {:induction false} JoinedAt(values: seq<nat>, i: nat)
    requires Words(values) && i < |values|
    ensures Field(Joined(values), 2 * i) == values[i]
  {
    hide BigEndian, Field;
    var n := |values| - 1;
    assert values[n] in values;
    if i == n {
      BytesOf(values[i]);
      SameField(BigEndian(values[i]), Joined(values), 0, 2 * i);
    } else {
      assert forall value | value in values[..n] :: value in values;
      JoinedAt(values[..n], i);
      SameField(Joined(values[..n]), Joined(values), 2 * i, 2 * i);
    }
  }

  function Data(head: Byte, values: seq<nat>, first: nat, quantity: nat): seq<Byte>
    requires first + quantity <= |values| && quantity <= 18
  {
    WithCrc([head, 0x03, Octet(2 * quantity)] + Joined(values[first..first + quantity]))
  }

  lemma DataCarries(head: Byte, values: seq<nat>, first: nat, quantity: nat)
    requires Words(values) && first + quantity <= |values| && quantity <= 18
    ensures Carries(Data(head, values, first, quantity), values, first, quantity)
  {
    var part := values[first..first + quantity];
    var payload := [head, 0x03, Octet(2 * quantity)] + Joined(part);
    ModbusProperties.SameTrailer(payload);
    ModbusProperties.SealIsValid(payload);
    ModbusProperties.SealPrefix(payload);
    PartWords(values, first, quantity);
    hide Joined, Octet, WithCrc, Crc16.Seal, Crc16.FrameValid, Field, Words;
    var response := WithCrc(payload);
    forall i: nat | i < quantity
      ensures Field(response, 3 + 2 * i) == values[first + i]
    {
      PayloadField(payload[..3], part, response, i);
    }
  }

  lemma PayloadField(header: seq<Byte>, part: seq<nat>, frame: seq<Byte>, i: nat)
    requires Words(part) && i < |part| && |header| == 3 && |frame| >= 3 + |Joined(part)|
    requires forall k | 0 <= k < 3 + |Joined(part)| :: frame[k] == (header + Joined(part))[k]
    ensures Field(frame, 3 + 2 * i) == part[i]
  {
    hide Joined, Field, Words;
    JoinedAt(part, i);
    SameField(Joined(part), frame, 2 * i, 3 + 2 * i);
  }

  lemma PartWords(values: seq<nat>, first: nat, quantity: nat)
    requires Words(values) && first + quantity <= |values|
    ensures Words(values[first..first + quantity])
  {
    var part := values[first..first + quantity];
    forall value | value in part
      ensures value < TWO_16
    {
      var i :| 0 <= i < |part| && part[i] == value;
      assert values[first + i] in values;
    }
  }

  lemma CurrentWords(s: State)
    requires s.Fits()
    ensures Words(Current(s))
  {
  }

  /** What a read shows in the stale scenario: the frozen registers, or the current ones if none are frozen yet. */
  function Shown(s: State): seq<nat> {
    if s.staleRegisters.Some? then s.staleRegisters.value else Current(s)
  }

  lemma FieldIsNumber(frame: seq<Byte>, at: nat)
    requires at + 1 < |frame|
    ensures Field(frame, at) == Number(frame[at], frame[at + 1])
  {
  }

  lemma HearsAnswer(s: State, frame: seq<Byte>)
    requires s.Fits() && Hears(s, frame) && !s.scenario.Timeout? && !s.scenario.BadCrc?
    ensures Handle(s, frame) == (Answer(s, frame).0, Some(Answer(s, frame).1))
  {
    ModbusProperties.SameAcceptance(frame);
    hide CrcMatches, Crc16.FrameValid, Answer;
  }

  lemma ShowsStale(s: State)
    requires s.Fits() && s.scenario.Stale?
    ensures Registers(s) == (s.(staleRegisters := Some(Shown(s))), Shown(s))
  {
    hide Current;
  }

  lemma DataAnswer(s: State, frame: seq<Byte>, first: nat, quantity: nat)
    requires s.Fits() && |frame| == 8 && frame[1] == 0x03 && !s.scenario.IllegalAddress?
    requires Number(frame[2], frame[3]) == first && Number(frame[4], frame[5]) == quantity
    requires 1 <= quantity && first + quantity <= 18
    ensures Answer(s, frame) == (Registers(s).0, Data(Octet(s.nodeAddress), Registers(s).1, first, quantity))
  {
    hide Registers, WithCrc, Joined, Octet, Number, Exception;
  }

  lemma ReadFields(s: State, frame: seq<Byte>, first: nat, quantity: nat)
    requires IsRead(s, frame, first, quantity)
    ensures Hears(s, frame) && frame[1] == 0x03
    ensures Number(frame[2], frame[3]) == first && Number(frame[4], frame[5]) == quantity
  {
    FieldIsNumber(frame, 2);
    FieldIsNumber(frame, 4);
    hide Field, Number, Crc16.FrameValid;
  }

  lemma StaleRead(s: State, frame: seq<Byte>, first: nat, quantity: nat)
    requires s.Fits() && s.scenario.Stale? && IsRead(s, frame, first, quantity)
    requires Words(Shown(s)) && |Shown(s)| == 18
    ensures var (after, response) := Handle(s, frame);
            && after == s.(staleRegisters := Some(Shown(s)))
            && response == Some(Data(Octet(s.nodeAddress), Shown(s), first, quantity))
            && Carries(response.value, Shown(s), first, quantity)
  {
    ReadFields(s, frame, first, quantity);
    HearsAnswer(s, frame);
    ShowsStale(s);
    DataAnswer(s, frame, first, quantity);
    DataCarries(Octet(s.nodeAddress), Shown(s), first, quantity);
    hide Handle, Answer, Registers, Shown, Crc16.FrameValid, Carries, Data, Octet, Number, Field, Words;
  }

  lemma StaleStep(s: State, event: Event)
    requires s.Fits() && Lawful(event) && s.scenario.Stale? && s.staleRegisters.Some?
    ensures StepNode(s, event).scenario.Stale? && StepNode(s, event).staleRegisters == s.staleRegisters
  {
    hide CrcMatches, WithCrc, Current, Joined, Octet, Number;
  }

  lemma {:induction false} StaysFrozen(s: State, events: seq<Event>)
    requires s.Fits() && (forall event | event in events :: Lawful(event))
    requires s.scenario.Stale? && s.staleRegisters.Some?
    ensures RunNode(s, events).scenario.Stale? && RunNode(s, events).staleRegisters == s.staleRegisters
  {
    hide StepNode, Lawful, State.Fits;
    if events != [] {
      var before, last := events[..|events| - 1], events[|events| - 1];
      assert events == before + [last];
      StaysFrozen(s, before);
      StaleStep(RunNode(s, before), last);
    }
  }

  /**
   * In the stale scenario the first read freezes the registers: whatever is sent and however the values change after
   * it, every later read shows what it showed.
   */
  lemma StaleReadsRepeat(s: State, frame: seq<Byte>, first: nat, quantity: nat, events: seq<Event>,
                         again: seq<Byte>, first': nat, quantity': nat)
    requires s.Fits() && s.scenario.Stale? && s.staleRegisters.None? && IsRead(s, frame, first, quantity)
    requires forall event | event in events :: Lawful(event)
    requires IsRead(RunNode(Handle(s, frame).0, events), again, first', quantity')
    ensures var (after, response) := Handle(s, frame);
            var response' := Handle(RunNode(after, events), again).1;
            && response.Some? && Carries(response.value, Current(s), first, quantity)
            && response'.Some? && Carries(response'.value, Current(s), first', quantity')
            && (again == frame ==> response' == response)
  {
    CurrentWords(s);
    StaleRead(s, frame, first, quantity);
    var after := Handle(s, frame).0;
    StaysFrozen(after, events);
    hide Handle, IsRead, Carries, Current, Words, RunNode;
    StaleRead(RunNode(after, events), again, first', quantity');
  }

  /** A timeout is silence and touches nothing; an illegal address is exception 2 to whatever is asked of the node. */
  lemma ScenarioAnswers(s: State, frame: seq<Byte>)
    requires s.Fits()
    ensures s.scenario.Timeout? ==> Handle(s, frame) == (s, None)
    ensures s.scenario.IllegalAddress? && Hears(s, frame) ==>
              Handle(s, frame) == (s.(exceptions := s.exceptions + 1),
                                   Some(Crc16.Seal([frame[0], frame[1] | 0x80, 0x02])))
  {
    if s.scenario.IllegalAddress? && Hears(s, frame) {
      HearsAnswer(s, frame);
      ModbusProperties.OctetRoundTrip(frame[0]);
      ModbusProperties.SameTrailer([frame[0], frame[1] | 0x80, 0x02]);
      hide Handle, Crc16.FrameValid, WithCrc, Octet, Crc16.Seal, Registers;
    }
  }
}

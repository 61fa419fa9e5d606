/** The node's code driven through measurements and frames: it goes exactly where the transition function says. */
module ModbusRuns {
  import opened MachineWords
  import opened Options
  import opened ModbusNode
  import opened ModbusProperties

  function ReplyTo(s: State, event: Event): Option<seq<Byte>> {
    match event
    case Frame(request, capacity, persistence) => Handle(s, request, capacity, persistence).1
    case _ => None
  }

  /** The replies along a run; None for silence and for measurements. */
  function Answers(s: State, events: seq<Event>): seq<Option<seq<Byte>>> {
    if events == [] then []
    else
      var before := events[..|events| - 1];
      Answers(s, before) + [ReplyTo(RunNode(s, before), events[|events| - 1])]
  }

  /** One frame, with its own request and response buffers. */
  method Exchange(node: Node, request: seq<Byte>, capacity: nat, persistence: Persistence)
    returns (reply: Option<seq<Byte>>)
    modifies node
    ensures (node.Value(), reply) == Handle(old(node.Value()), request, capacity, persistence)
  {
    var incoming := new Byte[|request|](i requires 0 <= i < |request| => request[i]);
    var outgoing := new Byte[capacity];
    assert incoming[..] == request;
    hide Handle;
    ghost var expected := Handle(node.Value(), request, capacity, persistence);
    EmptyIsSilence(node.Value(), request, capacity, persistence);
    var length := node.HandleRequest(incoming, |request|, outgoing, capacity, persistence);
    assert node.Replied(expected, outgoing, length);
    reply := if length == 0 then None else Some(outgoing[..length]);
  }

  /** No reply is empty, so a length of zero is silence. */
  lemma EmptyIsSilence(s: State, request: seq<Byte>, capacity: nat, persistence: Persistence)
    ensures var response := Handle(s, request, capacity, persistence).1;
            response.Some? ==> |response.value| > 0
  {
    hide Registers, WireBytes, Crc16.Checksum, Crc16.FrameValid, ConfigValid, WithValue;
  }

  /** From any stored image, driving the code over `events` gives the state and the replies of the run. */
  method Drive(image: Option<Config>, events: seq<Event>) returns (node: Node, replies: seq<Option<seq<Byte>>>)
    ensures fresh(node) && node.Value() == RunNode(Initial(image), events)
    ensures replies == Answers(Initial(image), events)
    ensures ConfigValid(node.Value().config)
  {
    node := new Node(image);
    replies := [];
    hide Handle, ConfigValid, Measured, Initial;
    for i := 0 to |events|
      invariant fresh(node) && node.Value() == RunNode(Initial(image), events[..i])
      invariant replies == Answers(Initial(image), events[..i])
    {
      assert events[..i + 1][..i] == events[..i];
      match events[i] {
        case Frame(request, capacity, persistence) =>
          var reply := Exchange(node, request, capacity, persistence);
          replies := replies + [reply];
        case Measurement(adcRaw, temperature, sensorStatus, faultFlags, uptimeMs, resetCount) =>
          node.SetMeasurement(adcRaw, temperature, sensorStatus, faultFlags, uptimeMs, resetCount);
          replies := replies + [None];
      }
    }
    assert events[..|events|] == events;
    ConfigAlwaysValid(image, events);
  }
}

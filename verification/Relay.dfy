/**
 * The demonstration relay: timed commands, automatic switch-off, loss of the network and the reboot guard,
 * interleaved in steps as small as the firmware's tasks allow.
 */
module Relay {
  import opened CommandTime
  import opened MachineWords
  import opened Options

  // ----- commands

  datatype Json = Null | Bool(value: bool) | Number(number: real) | Text(text: string)
                | Array(items: seq<Json>) | Object(members: seq<(string, Json)>)

  function Find(members: seq<(string, Json)>, name: string): Option<Json> {
    if members == [] then None
    else if members[0].0 == name then Some(members[0].1)
    else Find(members[1..], name)
  }

  /** The first member of that name; None for a missing one and for anything but an object. */
  function Item(json: Option<Json>, name: string): Option<Json> {
    if json.Some? && json.value.Object? then Find(json.value.members, name) else None
  }

  predicate IsText(json: Option<Json>) { json.Some? && json.value.Text? }

  datatype Identity = Identity(site: string, device: string)

  datatype Verdict = Ignored
                   | Answered(status: string, code: string)
                   | Apply(enabled: bool, seconds: nat)

  /** `input` is None for text that is not JSON, `clock` None while the clock is not set. */
  function Decide(input: Option<Json>, own: Identity, clock: Option<string>, locked: bool): Verdict
    requires clock.Some? ==> IsStamp(clock.value)
  {
    var schema, id := Item(input, "schema_version"), Item(input, "command_id");
    var site, device := Item(input, "site_id"), Item(input, "device_id");
    var expiry, kind := Item(input, "expires_at"), Item(input, "kind");
    var parameters := Item(input, "parameters");
    var relay, timeout := Item(parameters, "relay_on"), Item(parameters, "timeout_s");
    if input.None? || !input.value.Object? then Ignored
    else if schema.None? || !schema.value.Number? || schema.value.number != 1.0
            || !IsText(id) || !IsUuid(id.value.text) then Ignored
    else if !IsText(site) || !IsText(device) || site.value.text != own.site || device.value.text != own.device then
      Answered("rejected", "IDENTITY_MISMATCH")
    else if !IsText(expiry) || !IsUtc(expiry.value.text) || clock.None? then Answered("failed", "CLOCK_UNSYNCHRONIZED")
    else if Expired(clock.value, expiry.value.text) then Answered("expired", "COMMAND_EXPIRED")
    else if !IsText(kind) || kind.value.text != "set_demo_relay" then Answered("rejected", "UNSUPPORTED_COMMAND")
    else if locked then Answered("rejected", "RELAY_LOCKED_REBOOT_GUARD")
    else if parameters.None? || !parameters.value.Object? || |parameters.value.members| != 2
            || relay.None? || !relay.value.Bool? || timeout.None? || !timeout.value.Number?
            || timeout.value.number < 1.0 || timeout.value.number > 30.0
            || timeout.value.number != timeout.value.number.Floor as real then
      Answered("rejected", "PARAMETERS_INVALID")
    else Apply(relay.value.value, timeout.value.number.Floor)
  }

  /** What a command must be to move the relay: unlocked, for this device, in time, and for 1 to 30 whole seconds. */
  lemma AppliedCommand(input: Option<Json>, own: Identity, clock: Option<string>, locked: bool)
    requires clock.Some? ==> IsStamp(clock.value)
    requires Decide(input, own, clock, locked).Apply?
    ensures var verdict := Decide(input, own, clock, locked);
            && !locked && 1 <= verdict.seconds <= 30
            && Item(input, "site_id") == Some(Text(own.site)) && Item(input, "device_id") == Some(Text(own.device))
            && clock.Some?
            && exists expiry :: Item(input, "expires_at") == Some(Text(expiry)) && IsUtc(expiry)
                                && Seconds(clock.value, 19) as real <= Instant(expiry)
  {
    hide IsUtc, IsUuid, IsStamp, Seconds, Instant, Item, Expired;
    var expiry := Item(input, "expires_at").value.text;
    ExpiredIsPast(clock.value, expiry);
  }

  // ----- the device as a state machine

  const SECOND: nat := 1_000_000
  const STABLE: nat := 60 * SECOND
  const LOCK_AT: nat := 3
  const UINT32_MAX: nat := 0xFFFF_FFFF

  /** Where the command task stands between its calls: timer stopped, then relay set, then timer started. */
  datatype Phase = Waiting | Stopped(enabled: bool, seconds: nat) | Switched(enabled: bool, seconds: nat)

  /**
   * Times are in microseconds. `timer` is the armed deadline, `due` says that its callback is dispatched
   * but has not switched the relay off, `settled` that the stability task of this boot has ended.
   */
  datatype State = State(relayOn: bool, timer: Option<nat>, due: bool, now: nat, phase: Phase,
                         locked: bool, reboots: UInt32, bootedAt: nat, settled: bool)

  /** `cleared` tells a boot from power-on, or with the guard's memory not marked, from a warm one. */
  datatype Action = Receive(input: Option<Json>, clock: Option<string>) | Switch | Arm
                  | Dispatch | ForceOff | Disconnect | Settle | Reboot(cleared: bool)
                  | Tick(elapsed: nat)

  type Command = a: Action | a.Receive? && a.clock.Some? ==> IsStamp(a.clock.value) witness Switch

  const INITIAL := State(false, None, false, 0, Waiting, false, 1, 0, false)

  function Boot(s: State, cleared: bool): State {
    var reboots: UInt32 := if cleared then 1 else if s.reboots < UINT32_MAX then s.reboots + 1 else s.reboots;
    State(false, None, false, s.now, Waiting, reboots >= LOCK_AT, reboots, s.now, false)
  }

  /** A step that is not enabled leaves the state alone; time does not pass an armed deadline or a due callback. */
  function Step(s: State, own: Identity, action: Command): State {
    match action
    case Receive(input, clock) =>
      if !s.phase.Waiting? then s
      else
        (match Decide(input, own, clock, s.locked)
         case Apply(enabled, seconds) => s.(timer := None, phase := Stopped(enabled, seconds))
         case _ => s)
    case Switch =>
      if !s.phase.Stopped? then s
      else s.(relayOn := s.phase.enabled, phase := Switched(s.phase.enabled, s.phase.seconds))
    case Arm =>
      if !s.phase.Switched? then s
      else if s.phase.enabled && s.timer.None? then
        s.(timer := Some(s.now + s.phase.seconds * SECOND), phase := Waiting)
      else s.(phase := Waiting)
    case Dispatch => if s.timer.Some? && s.timer.value <= s.now then s.(timer := None, due := true) else s
    case ForceOff => if s.due then s.(relayOn := false, due := false) else s
    case Disconnect => s.(relayOn := false)
    case Settle =>
      if !s.settled && s.now - s.bootedAt >= STABLE then s.(reboots := 0, locked := false, settled := true) else s
    case Reboot(cleared) => Boot(s, cleared)
    case Tick(elapsed) =>
      if s.due || (s.timer.Some? && s.timer.value < s.now + elapsed) then s else s.(now := s.now + elapsed)
  }

  function Run(own: Identity, actions: seq<Command>): State {
    if actions == [] then INITIAL
    else Step(Run(own, actions[..|actions| - 1]), own, actions[|actions| - 1])
  }

  // ----- what a command does and how it is answered

  /** The acknowledgement that is published, as status and code; None if the command is only logged. */
  function Acknowledgement(input: Option<Json>, own: Identity, clock: Option<string>, locked: bool):
    Option<(string, string)>
    requires clock.Some? ==> IsStamp(clock.value)
  {
    match Decide(input, own, clock, locked)
    case Ignored => None
    case Answered(status, code) => Some((status, code))
    case Apply(enabled, _) => Some(("completed", if enabled then "RELAY_ON" else "RELAY_OFF"))
  }

  /** The command task alone, from the receipt of a command to the next wait. */
  function Handled(s: State, own: Identity, command: Command): State {
    Step(Step(Step(s, own, command), own, Switch), own, Arm)
  }

  // ----- safety

  /** Step `i` completed an ON command that still covers the end of the run. */
  ghost predicate Covers(own: Identity, actions: seq<Command>, i: nat, end: State)
    requires i < |actions|
  {
    var before := Run(own, actions[..i]);
    && actions[i] == Arm && before.phase.Switched? && before.phase.enabled
    && 1 <= before.phase.seconds <= 30 && end.now <= before.now + before.phase.seconds * SECOND
    && (end.timer == Some(before.now + before.phase.seconds * SECOND) || end.due)
    && forall j | i < j < |actions| :: !actions[j].Disconnect? && !actions[j].Reboot?
  }

  ghost predicate Covered(own: Identity, actions: seq<Command>) {
    var end := Run(own, actions);
    end.relayOn && end.phase.Waiting? ==> exists i | 0 <= i < |actions| :: Covers(own, actions, i, end)
  }

  ghost predicate Sound(s: State) {
    && (s.locked ==> !s.relayOn && s.phase.Waiting?)
    && (s.locked <==> s.reboots >= LOCK_AT)
    && (!s.phase.Waiting? ==> s.timer.None? && 1 <= s.phase.seconds <= 30)
    && (s.phase.Switched? && s.relayOn ==> s.phase.enabled)
    && (s.timer.Some? ==> s.now <= s.timer.value <= s.now + 30_000_000)
    && (s.relayOn && s.phase.Waiting? ==> s.timer.Some? || s.due)
  }

  lemma StepSound(s: State, own: Identity, action: Command)
    requires Sound(s)
    ensures Sound(Step(s, own, action))
  {
    if action.Receive? && Decide(action.input, own, action.clock, s.locked).Apply? {
      AppliedCommand(action.input, own, action.clock, s.locked);
    }
    hide Decide;
  }

  /** In every reachable state a locked relay is off, and an idle one that is on is switched off within 30 s. */
  lemma {:induction false} RunSound(own: Identity, actions: seq<Command>)
    ensures Sound(Run(own, actions))
  {
    if actions != [] {
      RunSound(own, actions[..|actions| - 1]);
      StepSound(Run(own, actions[..|actions| - 1]), own, actions[|actions| - 1]);
    }
  }

  lemma IdleStep(s: State, own: Identity, action: Command, deadline: nat)
    requires s.relayOn && s.phase.Waiting? && s.now <= deadline && (s.timer == Some(deadline) || s.due)
    requires Step(s, own, action).relayOn && Step(s, own, action).phase.Waiting?
    ensures var end := Step(s, own, action);
            end.now <= deadline && (end.timer == Some(deadline) || end.due)
            && !action.Disconnect? && !action.Reboot?
  {
    hide Decide;
  }

  lemma CompletingStep(s: State, own: Identity, action: Command)
    requires Sound(s) && !(s.relayOn && s.phase.Waiting?)
    requires Step(s, own, action).relayOn && Step(s, own, action).phase.Waiting?
    ensures action == Arm && s.phase.Switched? && s.phase.enabled && 1 <= s.phase.seconds <= 30
    ensures Step(s, own, action).now == s.now
            && Step(s, own, action).timer == Some(s.now + s.phase.seconds * SECOND)
  {
    hide Decide;
  }

  lemma CoverKept(own: Identity, actions: seq<Command>, i: nat, before: State, end: State)
    requires actions != [] && i < |actions| - 1 && Sound(before)
    requires before == Run(own, actions[..|actions| - 1]) && end == Step(before, own, actions[|actions| - 1])
    requires before.relayOn && before.phase.Waiting? && end.relayOn && end.phase.Waiting?
    requires Covers(own, actions[..|actions| - 1], i, before)
    ensures Covers(own, actions, i, end)
  {
    hide Run, Step, Sound;
    var start := Run(own, actions[..i]);
    assert actions[..|actions| - 1][..i] == actions[..i];
    IdleStep(before, own, actions[|actions| - 1], start.now + start.phase.seconds * SECOND);
  }

  lemma CoverStarts(own: Identity, actions: seq<Command>, before: State, end: State)
    requires actions != [] && Sound(before) && !(before.relayOn && before.phase.Waiting?)
    requires before == Run(own, actions[..|actions| - 1]) && end == Step(before, own, actions[|actions| - 1])
    requires end.relayOn && end.phase.Waiting?
    ensures Covers(own, actions, |actions| - 1, end)
  {
    hide Run, Step, Sound;
    CompletingStep(before, own, actions[|actions| - 1]);
  }

  /** An idle relay is on only within the time of an ON command completed since the last disconnect and reboot. */
  lemma {:induction false} OnlyWithinTimeout(own: Identity, actions: seq<Command>)
    ensures Covered(own, actions)
  {
    if actions != [] {
      var last := |actions| - 1;
      var before, end := Run(own, actions[..last]), Run(own, actions);
      assert end == Step(before, own, actions[last]);
      OnlyWithinTimeout(own, actions[..last]);
      RunSound(own, actions[..last]);
      hide Run, Step, Sound, Covers;
      if end.relayOn && end.phase.Waiting? {
        if before.relayOn && before.phase.Waiting? {
          var i :| 0 <= i < last && Covers(own, actions[..last], i, before);
          CoverKept(own, actions, i, before, end);
        } else {
          CoverStarts(own, actions, before, end);
        }
      }
    }
  }

  // ----- the reboot guard

  /** The time of the last boot. */
  function Booted(own: Identity, actions: seq<Command>): nat {
    if actions == [] then 0
    else if actions[|actions| - 1].Reboot? then Run(own, actions[..|actions| - 1]).now
    else Booted(own, actions[..|actions| - 1])
  }

  /** Boots since the device was last up for a minute or powered on, counting the power-on. */
  function Streak(own: Identity, actions: seq<Command>): nat {
    if actions == [] then 1
    else
      var before, rest := Run(own, actions[..|actions| - 1]), Streak(own, actions[..|actions| - 1]);
      match actions[|actions| - 1]
      case Reboot(cleared) => if cleared then 1 else rest + 1
      case Settle => if before.now - Booted(own, actions[..|actions| - 1]) >= 60_000_000 then 0 else rest
      case _ => rest
  }

  lemma GuardStep(s: State, own: Identity, action: Command)
    ensures Step(s, own, action).reboots ==
            match action
            case Reboot(cleared) => if cleared then 1 else if s.reboots < UINT32_MAX then s.reboots + 1 else s.reboots
            case Settle => if !s.settled && s.now - s.bootedAt >= STABLE then 0 else s.reboots
            case _ => s.reboots
  {
    hide Decide;
  }

  lemma BootStep(s: State, own: Identity, action: Command)
    requires s.settled ==> s.reboots == 0
    ensures var after := Step(s, own, action);
            && after.bootedAt == (if action.Reboot? then s.now else s.bootedAt)
            && (after.settled ==> after.reboots == 0)
  {
    hide Decide;
  }

  lemma {:induction false} BootTimes(own: Identity, actions: seq<Command>)
    ensures Run(own, actions).bootedAt == Booted(own, actions)
    ensures Run(own, actions).settled ==> Run(own, actions).reboots == 0
  {
    hide Step;
    if actions != [] {
      BootTimes(own, actions[..|actions| - 1]);
      BootStep(Run(own, actions[..|actions| - 1]), own, actions[|actions| - 1]);
    }
  }

  lemma LockedIsCount(s: State)
    requires Sound(s)
    ensures s.locked <==> s.reboots >= LOCK_AT
  {
  }

  /** The guard locks the relay exactly from the third boot without a stable minute until the next one. */
  lemma {:induction false} GuardCountsBoots(own: Identity, actions: seq<Command>)
    ensures var streak := Streak(own, actions);
            && Run(own, actions).reboots == (if streak < UINT32_MAX then streak else UINT32_MAX)
            && (Run(own, actions).locked <==> streak >= 3)
  {
    RunSound(own, actions);
    LockedIsCount(Run(own, actions));
    if actions != [] {
      var before, last := actions[..|actions| - 1], actions[|actions| - 1];
      GuardCountsBoots(own, before);
      BootTimes(own, before);
      assert Run(own, actions) == Step(Run(own, before), own, last) by {
        hide Step;
      }
      GuardStep(Run(own, before), own, last);
      hide Decide, Sound, Step, Run, Booted;
    }
  }

  // ----- the tasks

  const REBOOT_GUARD_MAGIC: UInt32 := 0x5242_4744

  class Gateway {
    const own: Identity
    var relayOn: bool
    var timer: Option<nat>
    var due: bool
    var now: nat
    ghost var phase: Phase
    var relayLocked: bool
    var rebootGuardMagic: UInt32
    var consecutiveReboots: UInt32
    var bootedAt: nat
    var settled: bool

    constructor (own: Identity)
      ensures this.own == own && Value() == INITIAL
    {
      this.own := own;
      relayOn, timer, due, now, phase := false, None, false, 0, Waiting;
      relayLocked, rebootGuardMagic, consecutiveReboots := false, REBOOT_GUARD_MAGIC, 1;
      bootedAt, settled := 0, false;
    }

    ghost function Value(): State
      reads this
    {
      State(relayOn, timer, due, now, phase, relayLocked, consecutiveReboots, bootedAt, settled)
    }

    method Judge(input: Option<Json>, clock: Option<string>) returns (verdict: Verdict)
      requires clock.Some? ==> IsStamp(clock.value)
      ensures verdict == Decide(input, own, clock, relayLocked)
    {
      hide IsUuid, IsUtc, IsStamp, Expired, Item;
      if input.None? || !input.value.Object? {
        return Ignored;
      }
      var schema, id := Item(input, "schema_version"), Item(input, "command_id");
      var site, device := Item(input, "site_id"), Item(input, "device_id");
      var expiry, kind := Item(input, "expires_at"), Item(input, "kind");
      var parameters := Item(input, "parameters");
      if schema.None? || !schema.value.Number? || schema.value.number != 1.0 || !IsText(id) {
        return Ignored;
      }
      var idValid := UuidIsValid(id.value.text);
      if !idValid {
        return Ignored;
      }
      if !IsText(site) || !IsText(device) || site.value.text != own.site || device.value.text != own.device {
        return Answered("rejected", "IDENTITY_MISMATCH");
      }
      if !IsText(expiry) {
        return Answered("failed", "CLOCK_UNSYNCHRONIZED");
      }
      var expiryValid := UtcValueIsValid(expiry.value.text);
      if !expiryValid || clock.None? {
        return Answered("failed", "CLOCK_UNSYNCHRONIZED");
      }
      if Expired(clock.value, expiry.value.text) {
        return Answered("expired", "COMMAND_EXPIRED");
      }
      if !IsText(kind) || kind.value.text != "set_demo_relay" {
        return Answered("rejected", "UNSUPPORTED_COMMAND");
      }
      if relayLocked {
        return Answered("rejected", "RELAY_LOCKED_REBOOT_GUARD");
      }
      var relay, timeout := Item(parameters, "relay_on"), Item(parameters, "timeout_s");
      if parameters.None? || !parameters.value.Object? || |parameters.value.members| != 2
         || relay.None? || !relay.value.Bool? || timeout.None? || !timeout.value.Number?
         || timeout.value.number < 1.0 || timeout.value.number > 30.0
         || timeout.value.number != timeout.value.number.Floor as real {
        return Answered("rejected", "PARAMETERS_INVALID");
      }
      return Apply(relay.value.value, timeout.value.number.Floor);
    }

    /** One received command, with no other task running between its calls. */
    method HandleCommand(input: Option<Json>, clock: Option<string>) returns (reply: Option<(string, string)>)
      requires phase == Waiting && (clock.Some? ==> IsStamp(clock.value))
      modifies this
      ensures Value() == Handled(old(Value()), own, Receive(input, clock))
      ensures reply == Acknowledgement(input, own, clock, old(relayLocked))
    {
      var verdict := Judge(input, clock);
      hide Decide, IsStamp;
      match verdict {
        case Ignored => reply := None;
        case Answered(status, code) => reply := Some((status, code));
        case Apply(enabled, seconds) =>
          timer := None;
          relayOn := enabled;
          if enabled {
            timer := Some(now + seconds * SECOND);
          }
          reply := Some(("completed", if enabled then "RELAY_ON" else "RELAY_OFF"));
      }
    }

    method RelayTimeout()
      requires due
      modifies this
      ensures Value() == Step(old(Value()), own, ForceOff)
    {
      relayOn, due := false, false;
    }

    method NetworkLost()
      modifies this
      ensures Value() == Step(old(Value()), own, Disconnect)
    {
      relayOn := false;
    }

    method InitializeRebootGuard(powerOn: bool)
      modifies this
      ensures Value() == Step(old(Value()), own, Reboot(powerOn || old(rebootGuardMagic) != REBOOT_GUARD_MAGIC))
      ensures rebootGuardMagic == REBOOT_GUARD_MAGIC
    {
      hide Decide;
      relayOn, timer, due, phase := false, None, false, Waiting;
      bootedAt, settled := now, false;
      if rebootGuardMagic != REBOOT_GUARD_MAGIC || powerOn {
        rebootGuardMagic := REBOOT_GUARD_MAGIC;
        consecutiveReboots := 1;
      } else if consecutiveReboots < UINT32_MAX {
        consecutiveReboots := consecutiveReboots + 1;
      }
      relayLocked := consecutiveReboots >= LOCK_AT;
    }

    method Stability()
      requires !settled && now - bootedAt >= STABLE
      modifies this
      ensures Value() == Step(old(Value()), own, Settle)
    {
      consecutiveReboots := 0;
      relayLocked := false;
      settled := true;
    }
  }
}

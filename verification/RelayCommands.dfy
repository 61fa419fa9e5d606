/** How the relay's commands are answered and what they do, and what switches the relay on and off in any run. */
module RelayCommands {
  import opened CommandTime
  import opened Options
  import opened Relay

  // ----- the members of a command

  /** Member `i` is what a name stands for exactly if it is the first one of that name. */
  lemma {:induction false} FindIsFirst(members: seq<(string, Json)>, name: string, i: nat)
    requires i < |members| && members[i].0 == name && forall j | 0 <= j < i :: members[j].0 != name
    ensures Find(members, name) == Some(members[i].1)
  {
    if i > 0 {
      assert members[0].0 != name;
      FindIsFirst(members[1..], name, i - 1);
    }
  }

  lemma {:induction false} FindNothing(members: seq<(string, Json)>, name: string)
    ensures Find(members, name).None? <==> forall member | member in members :: member.0 != name
  {
    if members != [] {
      FindNothing(members[1..], name);
      assert members == [members[0]] + members[1..];
    }
  }

  function TextOf(json: Option<Json>, name: string): Option<string> {
    var item := Item(json, name);
    if IsText(item) then Some(item.value.text) else None
  }

  predicate Identified(input: Option<Json>) {
    && Item(input, "schema_version") == Some(Number(1.0))
    && var id := TextOf(input, "command_id"); id.Some? && IsUuid(id.value)
  }

  predicate Addressed(input: Option<Json>, own: Identity) {
    TextOf(input, "site_id") == Some(own.site) && TextOf(input, "device_id") == Some(own.device)
  }

  predicate Dated(input: Option<Json>, clock: Option<string>) {
    clock.Some? && var expiry := TextOf(input, "expires_at"); expiry.Some? && IsUtc(expiry.value)
  }

  /** The clock, cut to the second, is before the expiry, or at one written with a fraction. */
  predicate InTime(input: Option<Json>, clock: Option<string>)
    requires clock.Some? ==> IsStamp(clock.value)
  {
    && Dated(input, clock)
    && var expiry, now := TextOf(input, "expires_at").value, Seconds(clock.value, 19) as real;
    now < Instant(expiry) || (now == Instant(expiry) && |expiry| > 20)
  }

  /** The parameters are two members that ask for the relay on or off, for a whole number of seconds up to 30. */
  predicate Asks(input: Option<Json>, on: bool, seconds: nat) {
    var parameters := Item(input, "parameters");
    && parameters.Some? && parameters.value.Object? && |parameters.value.members| == 2
    && Item(parameters, "relay_on") == Some(Bool(on))
    && Item(parameters, "timeout_s") == Some(Number(seconds as real)) && 1 <= seconds <= 30
  }

  /** The checks a command must pass, in order, and how the first that fails is answered. */
  ghost function Checks(input: Option<Json>, own: Identity, clock: Option<string>, locked: bool): seq<bool>
    requires clock.Some? ==> IsStamp(clock.value)
  {
    [Identified(input), Addressed(input, own), Dated(input, clock), InTime(input, clock),
     TextOf(input, "kind") == Some("set_demo_relay"), !locked, exists on, seconds :: Asks(input, on, seconds)]
  }

  const REFUSALS: seq<Option<(string, string)>> :=
    [None, Some(("rejected", "IDENTITY_MISMATCH")), Some(("failed", "CLOCK_UNSYNCHRONIZED")),
     Some(("expired", "COMMAND_EXPIRED")), Some(("rejected", "UNSUPPORTED_COMMAND")),
     Some(("rejected", "RELAY_LOCKED_REBOOT_GUARD")), Some(("rejected", "PARAMETERS_INVALID"))]

  lemma AppliedAsks(input: Option<Json>, own: Identity, clock: Option<string>, locked: bool)
    requires clock.Some? ==> IsStamp(clock.value)
    ensures var verdict := Decide(input, own, clock, locked);
            verdict.Apply? ==> Asks(input, verdict.enabled, verdict.seconds)
  {
    hide IsUtc, IsUuid, IsStamp, Expired, Item;
  }

  lemma AsksOnce(input: Option<Json>, on: bool, seconds: nat, on': bool, seconds': nat)
    requires Asks(input, on, seconds) && Asks(input, on', seconds')
    ensures on == on' && seconds == seconds'
  {
    hide Item;
    assert (seconds as real).Floor == seconds && (seconds' as real).Floor == seconds';
  }

  lemma InTimeUnlessExpired(input: Option<Json>, clock: Option<string>)
    requires Dated(input, clock) && IsStamp(clock.value)
    ensures InTime(input, clock) <==> !Expired(clock.value, TextOf(input, "expires_at").value)
  {
    ExpiredIsPast(clock.value, TextOf(input, "expires_at").value);
    hide IsUtc, IsStamp, Expired, Item, Seconds, Instant;
  }

  lemma NotAsked(input: Option<Json>, own: Identity, clock: Option<string>)
    requires clock.Some? ==> IsStamp(clock.value)
    requires Identified(input) && Addressed(input, own) && InTime(input, clock)
    requires TextOf(input, "kind") == Some("set_demo_relay")
    ensures var verdict := Decide(input, own, clock, false);
            if exists on, seconds :: Asks(input, on, seconds) then verdict.Apply?
            else verdict == Answered("rejected", "PARAMETERS_INVALID")
  {
    InTimeUnlessExpired(input, clock);
    hide IsUtc, IsUuid, IsStamp, Expired, Item, InTime;
    AppliedAsks(input, own, clock, false);
    if on, seconds :| Asks(input, on, seconds) {
      assert (seconds as real).Floor == seconds;
    }
  }

  lemma FirstFailure(input: Option<Json>, own: Identity, clock: Option<string>, locked: bool, k: nat)
    requires (clock.Some? ==> IsStamp(clock.value)) && k < |REFUSALS|
    requires var checks := Checks(input, own, clock, locked); !checks[k] && forall j | 0 <= j < k :: checks[j]
    ensures !Decide(input, own, clock, locked).Apply? && Acknowledgement(input, own, clock, locked) == REFUSALS[k]
  {
    var checks := Checks(input, own, clock, locked);
    assert k > 0 ==> checks[0];
    assert k > 1 ==> checks[1];
    assert k > 2 ==> checks[2];
    assert k > 3 ==> checks[3];
    assert k > 4 ==> checks[4];
    if k > 5 {
      assert checks[5];
      NotAsked(input, own, clock);
    }
    if k > 2 {
      InTimeUnlessExpired(input, clock);
    }
    hide IsUtc, IsUuid, IsStamp, Expired, Item, InTime, Asks;
  }

  /** A command that fails a check is answered as the first one it fails, and changes nothing. */
  lemma RefusedCommand(s: State, own: Identity, input: Option<Json>, clock: Option<string>, k: nat)
    requires s.phase.Waiting? && (clock.Some? ==> IsStamp(clock.value)) && k < |REFUSALS|
    requires var checks := Checks(input, own, clock, s.locked); !checks[k] && forall j | 0 <= j < k :: checks[j]
    ensures Acknowledgement(input, own, clock, s.locked) == REFUSALS[k]
    ensures Handled(s, own, Receive(input, clock)) == s
  {
    FirstFailure(input, own, clock, s.locked, k);
    hide Decide, Checks, IsStamp, Acknowledgement;
  }

  /**
   * A command that passes every check sets the relay as it asks, replaces the timer by one for the seconds it asks if
   * it switches on, and is answered accordingly.
   */
  lemma CompletedCommand(s: State, own: Identity, input: Option<Json>, clock: Option<string>, on: bool, seconds: nat)
    requires s.phase.Waiting? && (clock.Some? ==> IsStamp(clock.value))
    requires forall k | 0 <= k < |REFUSALS| :: Checks(input, own, clock, s.locked)[k]
    requires Asks(input, on, seconds)
    ensures Acknowledgement(input, own, clock, s.locked) ==
            Some(("completed", if on then "RELAY_ON" else "RELAY_OFF"))
    ensures Handled(s, own, Receive(input, clock)) ==
            s.(relayOn := on, timer := if on then Some(s.now + seconds * 1_000_000) else None)
  {
    var checks := Checks(input, own, clock, s.locked);
    assert checks[0] && checks[1] && checks[2] && checks[3] && checks[4] && checks[5];
    NotAsked(input, own, clock);
    AppliedAsks(input, own, clock, s.locked);
    var verdict := Decide(input, own, clock, s.locked);
    hide Decide, Checks, Item;
    AsksOnce(input, on, seconds, verdict.enabled, verdict.seconds);
  }

  // ----- commands in a run

  /** Action `i` received a command of this device, in time, that asks for the relay on or off for `seconds`. */
  ghost predicate Received(own: Identity, actions: seq<Command>, i: nat, on: bool, seconds: nat) {
    && i < |actions| && actions[i].Receive?
    && var Receive(input, clock) := actions[i];
    Addressed(input, own) && InTime(input, clock) && Asks(input, on, seconds) && !Run(own, actions[..i]).locked
  }

  lemma ReceivedStep(s: State, own: Identity, action: Command)
    requires s.phase.Waiting? && !Step(s, own, action).phase.Waiting?
    ensures var after := Step(s, own, action);
            && action.Receive? && after.phase.Stopped? && !s.locked
            && Addressed(action.input, own) && InTime(action.input, action.clock)
            && Asks(action.input, after.phase.enabled, after.phase.seconds)
  {
    if action.Receive? {
      AppliedAsks(action.input, own, action.clock, s.locked);
      if Decide(action.input, own, action.clock, s.locked).Apply? {
        InTimeUnlessExpired(action.input, action.clock);
      }
      hide IsUtc, IsUuid, IsStamp, Expired, Item, InTime, Asks;
    }
  }

  lemma PendingStep(s: State, own: Identity, action: Command)
    requires !s.phase.Waiting? && !Step(s, own, action).phase.Waiting?
    ensures var after := Step(s, own, action);
            after.phase.enabled == s.phase.enabled && after.phase.seconds == s.phase.seconds
  {
    hide Decide;
  }

  /** What the command task is about to do is what a command asked that it received while unlocked. */
  lemma {:induction false} PendingWasReceived(own: Identity, actions: seq<Command>)
    ensures var phase := Run(own, actions).phase;
            !phase.Waiting? ==>
              exists i | 0 <= i < |actions| :: Received(own, actions, i, phase.enabled, phase.seconds)
  {
    if actions != [] {
      var last := |actions| - 1;
      var before, end := Run(own, actions[..last]), Run(own, actions);
      assert end == Step(before, own, actions[last]);
      PendingWasReceived(own, actions[..last]);
      hide Run, Step, InTime, Asks, Addressed;
      if !end.phase.Waiting? {
        if before.phase.Waiting? {
          ReceivedStep(before, own, actions[last]);
          assert Received(own, actions, last, end.phase.enabled, end.phase.seconds);
        } else {
          PendingStep(before, own, actions[last]);
          var i :| 0 <= i < last && Received(own, actions[..last], i, end.phase.enabled, end.phase.seconds);
          assert actions[..last][..i] == actions[..i];
          assert Received(own, actions, i, end.phase.enabled, end.phase.seconds);
        }
      }
    }
  }

  /** Only an unlocked command that asks for it turns the relay on, whatever runs between its calls. */
  lemma OnlyCommandsSwitchOn(own: Identity, actions: seq<Command>, action: Command)
    requires !Run(own, actions).relayOn && Run(own, actions + [action]).relayOn
    ensures action == Switch && !Run(own, actions).locked && !Run(own, actions + [action]).locked
    ensures exists i, seconds :: 0 <= i < |actions| && Received(own, actions, i, true, seconds)
  {
    assert (actions + [action])[..|actions|] == actions;
    RunSound(own, actions);
    PendingWasReceived(own, actions);
    hide Received, Decide;
    var phase := Run(own, actions).phase;
    var i :| 0 <= i < |actions| && Received(own, actions, i, phase.enabled, phase.seconds);
  }

  // ----- what switches the relay off

  /** Step `i` completed an ON command whose time ends at `deadline`. */
  ghost predicate Armed(own: Identity, actions: seq<Command>, i: nat, deadline: nat) {
    && i < |actions| && actions[i] == Arm
    && var before := Run(own, actions[..i]);
    && before.phase.Switched? && before.phase.enabled
    && deadline == before.now + before.phase.seconds * 1_000_000
  }

  ghost predicate SomeArmed(own: Identity, actions: seq<Command>, deadline: nat) {
    exists i: nat :: Armed(own, actions, i, deadline)
  }

  /** The time of some completed ON command is over. */
  ghost predicate Elapsed(own: Identity, actions: seq<Command>, now: nat) {
    exists deadline: nat :: SomeArmed(own, actions, deadline) && deadline <= now
  }

  /** An armed timer is for the deadline of a completed ON command; so is a callback that is due, and it has passed. */
  ghost predicate Deadlines(own: Identity, actions: seq<Command>, s: State) {
    && (s.timer.Some? ==> SomeArmed(own, actions, s.timer.value))
    && (s.due ==> Elapsed(own, actions, s.now))
  }

  lemma TimerStep(s: State, own: Identity, action: Command)
    ensures var after := Step(s, own, action);
            && s.now <= after.now
            && (after.timer.Some? ==>
                  after.timer == s.timer ||
                  (action == Arm && s.phase.Switched? && s.phase.enabled
                   && after.timer.value == s.now + s.phase.seconds * 1_000_000))
            && (after.due ==> s.due || (s.timer.Some? && s.timer.value <= after.now))
  {
    hide Decide;
  }

  lemma ArmedKept(own: Identity, actions: seq<Command>, action: Command, deadline: nat)
    requires SomeArmed(own, actions, deadline)
    ensures SomeArmed(own, actions + [action], deadline)
  {
    hide Run;
    var i: nat :| Armed(own, actions, i, deadline);
    assert (actions + [action])[..i] == actions[..i];
    assert Armed(own, actions + [action], i, deadline);
  }

  lemma ElapsedKept(own: Identity, actions: seq<Command>, action: Command, now: nat, later: nat)
    requires Elapsed(own, actions, now) && now <= later
    ensures Elapsed(own, actions + [action], later)
  {
    hide SomeArmed;
    var deadline: nat :| SomeArmed(own, actions, deadline) && deadline <= now;
    ArmedKept(own, actions, action, deadline);
  }

  lemma JustArmed(own: Identity, actions: seq<Command>, s: State)
    requires s == Run(own, actions) && s.phase.Switched? && s.phase.enabled
    ensures SomeArmed(own, actions + [Arm], s.now + s.phase.seconds * 1_000_000)
  {
    hide Run;
    assert (actions + [Arm])[..|actions|] == actions;
    assert Armed(own, actions + [Arm], |actions|, s.now + s.phase.seconds * 1_000_000);
  }

  lemma DeadlineStep(own: Identity, actions: seq<Command>, action: Command, s: State)
    requires s == Run(own, actions) && Deadlines(own, actions, s)
    ensures Deadlines(own, actions + [action], Step(s, own, action))
  {
    TimerStep(s, own, action);
    hide Run, Step, SomeArmed, Elapsed;
    var after := Step(s, own, action);
    if s.timer.Some? {
      ArmedKept(own, actions, action, s.timer.value);
      if s.timer.value <= after.now {
        assert Elapsed(own, actions + [action], after.now) by {
          JustElapsed(own, actions + [action], s.timer.value, after.now);
        }
      }
    }
    if s.due {
      ElapsedKept(own, actions, action, s.now, after.now);
    }
    if action == Arm && s.phase.Switched? && s.phase.enabled {
      JustArmed(own, actions, s);
    }
  }

  lemma JustElapsed(own: Identity, actions: seq<Command>, deadline: nat, now: nat)
    requires SomeArmed(own, actions, deadline) && deadline <= now
    ensures Elapsed(own, actions, now)
  {
  }

  lemma {:induction false} DeadlinesHold(own: Identity, actions: seq<Command>)
    ensures Deadlines(own, actions, Run(own, actions))
  {
    if actions != [] {
      var before, last := actions[..|actions| - 1], actions[|actions| - 1];
      hide Deadlines, Step;
      DeadlinesHold(own, before);
      DeadlineStep(own, before, last, Run(own, before));
      assert actions == before + [last];
    }
  }

  /**
   * The relay goes off only by a command that asks for it, a lost network, a reboot, or a callback after the time of a
   * completed ON command has passed.
   */
  lemma SwitchedOffForReason(own: Identity, actions: seq<Command>, action: Command)
    requires Run(own, actions).relayOn && !Run(own, actions + [action]).relayOn
    ensures || (action == Switch &&
                exists i, seconds :: 0 <= i < |actions| && Received(own, actions, i, false, seconds))
            || action.Disconnect? || action.Reboot?
            || (action == ForceOff && Elapsed(own, actions, Run(own, actions).now))
  {
    assert (actions + [action])[..|actions|] == actions;
    DeadlinesHold(own, actions);
    PendingWasReceived(own, actions);
    hide Received, SomeArmed, Elapsed, Decide;
    var phase := Run(own, actions).phase;
    if !phase.Waiting? {
      var i :| 0 <= i < |actions| && Received(own, actions, i, phase.enabled, phase.seconds);
    }
  }
}

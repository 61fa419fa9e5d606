/** Idempotent storage of telemetry, delivered at least once and in any order. */
module Ingestion {
  import opened Options
  import opened Thresholds
  import opened CloudAlarms

  datatype Quality = Good | Degraded | Bad

  datatype Envelope = Envelope(messageId: string, siteId: string, deviceId: string, sequence: nat,
                               firmwareVersion: string, quality: Quality, faultFlags: seq<string>, replayed: bool,
                               temperature: Option<real>, vibrationRms: Option<real>, current: Option<real>)

  datatype Row = Row(envelope: Envelope, receivedAt: nat)

  datatype Device = Device(siteId: string, firmwareVersion: string, online: bool, lastSeenAt: nat,
                           activeFaults: seq<string>)

  datatype ThresholdConfig = ThresholdConfig(temperature: Limits, vibration: Limits, current: Limits)

  const DEFAULT_THRESHOLDS: ThresholdConfig :=
    ThresholdConfig(Limits(65.0, 75.0, 5.0), Limits(4.5, 7.0, 5.0), Limits(1.4, 1.8, 5.0))

  const TEMPERATURE_CODE: string := "TEMPERATURE_THRESHOLD"
  const VIBRATION_CODE: string := "VIBRATION_THRESHOLD"
  const CURRENT_CODE: string := "CURRENT_THRESHOLD"

  datatype Tables = Tables(rows: seq<Row>, devices: map<string, Device>, thresholds: map<string, ThresholdConfig>,
                           alarms: seq<Alarm>)

  const EMPTY_TABLES: Tables := Tables([], map[], map[], [])

  datatype Outcome = Inserted | Duplicate | SequenceCollision | SiteMismatch | IntegrityError

  predicate HasMessage(rows: seq<Row>, messageId: string) {
    exists row | row in rows :: row.envelope.messageId == messageId
  }

  predicate HasSequence(rows: seq<Row>, deviceId: string, sequence: nat) {
    exists row | row in rows :: row.envelope.deviceId == deviceId && row.envelope.sequence == sequence
  }

  function ConfigFor(thresholds: map<string, ThresholdConfig>, deviceId: string): ThresholdConfig {
    if deviceId in thresholds then thresholds[deviceId] else DEFAULT_THRESHOLDS
  }

  /** The three metrics in the order the code applies them. */
  function ApplyThresholds(alarms: seq<Alarm>, config: ThresholdConfig, e: Envelope, now: nat): seq<Alarm> {
    var a := ApplyMetric(alarms, e.deviceId, TEMPERATURE_CODE, e.temperature, config.temperature, now);
    var b := ApplyMetric(a, e.deviceId, VIBRATION_CODE, e.vibrationRms, config.vibration, now);
    ApplyMetric(b, e.deviceId, CURRENT_CODE, e.current, config.current, now)
  }

  function Store(t: Tables, e: Envelope, now: nat): Tables {
    var config := ConfigFor(t.thresholds, e.deviceId);
    Tables(t.rows + [Row(e, now)],
           t.devices[e.deviceId := Device(e.siteId, e.firmwareVersion, e.quality.Good?, now, e.faultFlags)],
           t.thresholds[e.deviceId := config],
           ApplyThresholds(t.alarms, config, e, now))
  }

  // ----- one delivery

  /**
   * What the queries of a session see: all rows but the last `lag`, and the device's own row and its
   * thresholds, if they exist and the flag is set. Other sessions may have committed the rest meanwhile.
   */
  datatype View = View(lag: nat, device: bool, config: bool)

  function SeenRows(rows: seq<Row>, view: View): seq<Row> {
    if view.lag < |rows| then rows[..|rows| - view.lag] else []
  }

  predicate ConfigSeen(t: Tables, view: View, deviceId: string) { view.config && deviceId in t.thresholds }

  /** The session adds a device or its thresholds that another session has added already. */
  predicate Overlaps(t: Tables, view: View, deviceId: string) {
    (deviceId in t.devices && !view.device) || (deviceId in t.thresholds && !view.config)
  }

  /** Some row the session adds has a key that is taken. */
  predicate Clashes(t: Tables, view: View, e: Envelope) {
    HasMessage(t.rows, e.messageId) || HasSequence(t.rows, e.deviceId, e.sequence) || Overlaps(t, view, e.deviceId)
  }

  /**
   * A key that is taken fails the commit, after which a stored message is reported as a duplicate; but a session
   * that adds thresholds writes its rows before, and fails there.
   */
  function Persist(t: Tables, view: View, e: Envelope, now: nat): (Tables, Outcome) {
    var seen := SeenRows(t.rows, view);
    if HasMessage(seen, e.messageId) then (t, Duplicate)
    else if HasSequence(seen, e.deviceId, e.sequence) then (t, SequenceCollision)
    else if view.device && e.deviceId in t.devices && t.devices[e.deviceId].siteId != e.siteId then (t, SiteMismatch)
    else if Clashes(t, view, e) then
      (t, if ConfigSeen(t, view, e.deviceId) && HasMessage(t.rows, e.messageId) then Duplicate else IntegrityError)
    else (Store(t, e, now), Inserted)
  }

  class Database {
    var rows: seq<Row>
    var devices: map<string, Device>
    var thresholds: map<string, ThresholdConfig>
    var alarms: seq<Alarm>

    ghost function Value(): Tables
      reads this
    {
      Tables(rows, devices, thresholds, alarms)
    }

    constructor ()
      ensures Value() == EMPTY_TABLES
    {
      rows, devices, thresholds, alarms := [], map[], map[], [];
    }

    method ApplyMetricAlarm(deviceId: string, code: string, value: Option<real>, limits: Limits, now: nat)
      modifies this`alarms
      ensures alarms == ApplyMetric(old(alarms), deviceId, code, value, limits, now)
    {
      if value.None? {
        return;
      }
      var index := FindActive(alarms, deviceId, code);
      var desired := Desired(limits, value.value);
      if desired.Some? {
        if index == |alarms| {
          alarms := alarms + [Alarm(deviceId, code, desired.value, true, now, None)];
        } else {
          alarms := alarms[index := alarms[index].(severity := desired.value)];
        }
        return;
      }
      var clearBelow := ClearLevel(limits.warning, limits.hysteresisPercent);
      if index < |alarms| && value.value < clearBelow {
        alarms := alarms[index := alarms[index].(active := false, clearedAt := Some(now))];
      }
    }

    /** `clashes` tells that writing the rows so far meets a key that is taken, which fails the session. */
    method ApplyThresholdAlarms(view: View, clashes: bool, e: Envelope, now: nat) returns (ok: bool)
      modifies this`alarms, this`thresholds
      ensures ok == (old(ConfigSeen(Value(), view, e.deviceId)) || !clashes)
      ensures ok ==> thresholds == old(thresholds)[e.deviceId := if old(ConfigSeen(Value(), view, e.deviceId))
                                                                 then old(thresholds)[e.deviceId]
                                                                 else DEFAULT_THRESHOLDS]
      ensures ok ==> alarms == ApplyThresholds(old(alarms), thresholds[e.deviceId], e, now)
    {
      hide ApplyMetric;
      if !(view.config && e.deviceId in thresholds) {
        if clashes {
          return false;
        }
        thresholds := thresholds[e.deviceId := DEFAULT_THRESHOLDS];
      }
      var config := thresholds[e.deviceId];
      ApplyMetricAlarm(e.deviceId, TEMPERATURE_CODE, e.temperature, config.temperature, now);
      ApplyMetricAlarm(e.deviceId, VIBRATION_CODE, e.vibrationRms, config.vibration, now);
      ApplyMetricAlarm(e.deviceId, CURRENT_CODE, e.current, config.current, now);
      ok := true;
    }

    method PersistTelemetry(view: View, e: Envelope, now: nat) returns (outcome: Outcome)
      modifies this
      ensures (Value(), outcome) == Persist(old(Value()), view, e, now)
    {
      hide HasMessage, HasSequence, ApplyThresholds;
      if HasMessage(SeenRows(rows, view), e.messageId) {
        return Duplicate;
      }
      if HasSequence(SeenRows(rows, view), e.deviceId, e.sequence) {
        return SequenceCollision;
      }
      if view.device && e.deviceId in devices && devices[e.deviceId].siteId != e.siteId {
        return SiteMismatch;
      }
      var committed := Tables(rows, devices, thresholds, alarms);
      var clashes := Clashes(committed, view, e);
      devices := devices[e.deviceId := Device(e.siteId, e.firmwareVersion, e.quality.Good?, now, e.faultFlags)];
      rows := rows + [Row(e, now)];
      var written := ApplyThresholdAlarms(view, clashes, e, now);
      if !written || clashes {
        rows, devices, thresholds, alarms := committed.rows, committed.devices, committed.thresholds, committed.alarms;
        return if written && HasMessage(rows, e.messageId) then Duplicate else IntegrityError;
      }
      outcome := Inserted;
    }

    /** An operator sets the thresholds of a device, which must exist. */
    method UpdateThresholds(deviceId: string, config: ThresholdConfig) returns (found: bool)
      modifies this`thresholds
      ensures Value() == Handle(old(Value()), SetThresholds(deviceId, config), 0) && found == (deviceId in devices)
    {
      found := deviceId in devices;
      if found {
        thresholds := thresholds[deviceId := config];
      }
    }
  }

  // ----- unique keys

  ghost predicate KeysUnique(rows: seq<Row>) {
    forall i, j | 0 <= i < j < |rows| ::
      && rows[i].envelope.messageId != rows[j].envelope.messageId
      && (rows[i].envelope.deviceId, rows[i].envelope.sequence) !=
         (rows[j].envelope.deviceId, rows[j].envelope.sequence)
  }

  lemma PersistKeepsKeys(t: Tables, view: View, e: Envelope, now: nat)
    requires KeysUnique(t.rows)
    ensures KeysUnique(Persist(t, view, e, now).0.rows)
    ensures Persist(t, view, e, now).1 != Inserted ==> Persist(t, view, e, now).0 == t
  {
    hide ApplyThresholds;
  }

  // ----- runs

  datatype Event = Delivery(envelope: Envelope, view: View) | SetThresholds(deviceId: string, config: ThresholdConfig)

  function Handle(t: Tables, event: Event, now: nat): Tables {
    match event
    case Delivery(e, view) => Persist(t, view, e, now).0
    case SetThresholds(deviceId, config) =>
      if deviceId in t.devices then t.(thresholds := t.thresholds[deviceId := config]) else t
  }

  function Run(events: seq<Event>): Tables {
    if events == [] then EMPTY_TABLES
    else Handle(Run(events[..|events| - 1]), events[|events| - 1], |events|)
  }

  /** Message ids and (device, sequence) pairs are one-to-one, and a device keeps its site. */
  ghost predicate Faithful(events: seq<Event>) {
    forall a, b | a in events && b in events && a.Delivery? && b.Delivery? ::
      && (a.envelope.messageId == b.envelope.messageId <==>
            a.envelope.deviceId == b.envelope.deviceId && a.envelope.sequence == b.envelope.sequence)
      && (a.envelope.deviceId == b.envelope.deviceId ==> a.envelope.siteId == b.envelope.siteId)
  }

  ghost predicate Came(events: seq<Event>, e: Envelope) {
    exists d | d in events :: d.Delivery? && d.envelope == e
  }

  /** The device is registered at a site that one of its deliveries named. */
  ghost predicate Registered(events: seq<Event>, deviceId: string, siteId: string) {
    exists d | d in events :: d.Delivery? && d.envelope.deviceId == deviceId && d.envelope.siteId == siteId
  }

  /** Keys are unique, every row was delivered, every device is where its deliveries say. */
  ghost predicate Stored(t: Tables, events: seq<Event>) {
    && KeysUnique(t.rows)
    && (forall row | row in t.rows :: Came(events, row.envelope))
    && (forall id | id in t.devices :: Registered(events, id, t.devices[id].siteId))
  }

  /**
   * A faithful delivery is stored, recognised, or fails on a key. It fails exactly if its queries missed the message,
   * and either the message is new and the session overlaps another's first contact, or it is not new and the session
   * adds thresholds.
   */
  lemma StepOutcome(t: Tables, before: seq<Event>, last: Event, now: nat)
    requires last.Delivery? && Stored(t, before) && Faithful(before + [last])
    ensures var Delivery(e, view) := last;
            var (after, outcome) := Persist(t, view, e, now);
            && (outcome == Inserted || outcome == Duplicate || outcome == IntegrityError)
            && (outcome == Inserted <==> !HasMessage(t.rows, e.messageId) && !Overlaps(t, view, e.deviceId))
            && (outcome == IntegrityError <==>
                  !HasMessage(SeenRows(t.rows, view), e.messageId) &&
                  if HasMessage(t.rows, e.messageId) then !ConfigSeen(t, view, e.deviceId)
                  else Overlaps(t, view, e.deviceId))
            && (after.rows == if outcome == Inserted then t.rows + [Row(e, now)] else t.rows)
  {
    var Delivery(e, view) := last;
    SequenceMeansMessage(t, before, last);
    SiteKnown(t, before, last);
    assert forall row | row in SeenRows(t.rows, view) :: row in t.rows;
    hide ApplyThresholds, KeysUnique, Faithful, Stored, ConfigFor;
  }

  lemma SequenceMeansMessage(t: Tables, before: seq<Event>, last: Event)
    requires last.Delivery? && Stored(t, before) && Faithful(before + [last])
    ensures forall row | row in t.rows :: row.envelope.messageId == last.envelope.messageId <==>
              row.envelope.deviceId == last.envelope.deviceId && row.envelope.sequence == last.envelope.sequence
  {
    hide KeysUnique, Registered;
    assert last in before + [last] && forall d | d in before :: d in before + [last];
    forall row | row in t.rows
      ensures row.envelope.messageId == last.envelope.messageId <==>
              row.envelope.deviceId == last.envelope.deviceId && row.envelope.sequence == last.envelope.sequence
    {
      assert Came(before, row.envelope);
    }
  }

  lemma SiteKnown(t: Tables, before: seq<Event>, last: Event)
    requires last.Delivery? && Stored(t, before) && Faithful(before + [last])
    ensures last.envelope.deviceId in t.devices ==> t.devices[last.envelope.deviceId].siteId == last.envelope.siteId
  {
    hide KeysUnique, Came;
    assert last in before + [last] && forall d | d in before :: d in before + [last];
    if last.envelope.deviceId in t.devices {
      assert Registered(before, last.envelope.deviceId, t.devices[last.envelope.deviceId].siteId);
    }
  }

  lemma StepStores(t: Tables, before: seq<Event>, last: Event, now: nat)
    requires Stored(t, before)
    ensures Stored(Handle(t, last, now), before + [last])
  {
    hide ApplyThresholds, HasMessage, HasSequence, KeysUnique;
    var all, after := before + [last], Handle(t, last, now);
    assert last in all && forall d | d in before :: d in all;
    if last.Delivery? {
      PersistKeepsKeys(t, last.view, last.envelope, now);
    }
    forall row | row in after.rows
      ensures Came(all, row.envelope)
    {
      if row in t.rows {
        assert Came(before, row.envelope);
      } else {
        assert row == Row(last.envelope, now);
      }
    }
    forall id | id in after.devices
      ensures Registered(all, id, after.devices[id].siteId)
    {
      if id in t.devices && after.devices[id] == t.devices[id] {
        assert Registered(before, id, t.devices[id].siteId);
      } else {
        assert id == last.envelope.deviceId && after.devices[id].siteId == last.envelope.siteId;
      }
    }
  }

  lemma {:induction false} RunStores(events: seq<Event>)
    ensures Stored(Run(events), events)
  {
    hide Handle, Stored;
    if events == [] {
      EmptyStored();
    } else {
      var before, last := events[..|events| - 1], events[|events| - 1];
      assert events == before + [last];
      RunStores(before);
      StepStores(Run(before), before, last, |events|);
    }
  }

  lemma EmptyStored()
    ensures Stored(EMPTY_TABLES, [])
  {
  }

  // ----- what is stored

  /** Event `n` delivered the message in a session that overlapped no other's first contact with the device. */
  ghost predicate LandsAt(events: seq<Event>, messageId: string, n: nat) {
    && n < |events| && events[n].Delivery? && events[n].envelope.messageId == messageId
    && !Overlaps(Run(events[..n]), events[n].view, events[n].envelope.deviceId)
  }

  ghost predicate Lands(events: seq<Event>, messageId: string) {
    exists n | 0 <= n < |events| :: LandsAt(events, messageId, n)
  }

  lemma LandsSnoc(events: seq<Event>, messageId: string)
    requires events != []
    ensures var n := |events| - 1;
            Lands(events, messageId) <==> Lands(events[..n], messageId) || LandsAt(events, messageId, n)
  {
    hide Run, Overlaps;
    var n := |events| - 1;
    forall i | 0 <= i < n
      ensures LandsAt(events, messageId, i) <==> LandsAt(events[..n], messageId, i)
    {
      assert events[..n][..i] == events[..i];
    }
    if Lands(events, messageId) && !LandsAt(events, messageId, n) {
      var i :| 0 <= i < |events| && LandsAt(events, messageId, i);
      assert LandsAt(events[..n], messageId, i);
    }
  }

  lemma StepLands(t: Tables, before: seq<Event>, last: Event, now: nat, messageId: string)
    requires Stored(t, before) && Faithful(before + [last])
    ensures HasMessage(Handle(t, last, now).rows, messageId) <==>
            HasMessage(t.rows, messageId) ||
            (last.Delivery? && last.envelope.messageId == messageId && !Overlaps(t, last.view, last.envelope.deviceId))
  {
    if last.Delivery? {
      StepOutcome(t, before, last, now);
      hide Persist, Stored, Faithful, Overlaps;
      var after := Persist(t, last.view, last.envelope, now).0;
      assert forall row | row in t.rows :: row in after.rows;
      if |after.rows| > |t.rows| {
        assert after.rows[|t.rows|] == Row(last.envelope, now);
      }
    }
  }

  /** A message is stored exactly if one of its deliveries came in a session that overlapped no first contact. */
  lemma {:induction false} StoredExactly(events: seq<Event>, messageId: string)
    requires Faithful(events)
    ensures HasMessage(Run(events).rows, messageId) <==> Lands(events, messageId)
  {
    if events != [] {
      var before, last := events[..|events| - 1], events[|events| - 1];
      assert events == before + [last];
      assert Faithful(before) by { assert forall d | d in before :: d in events; }
      hide Handle, Stored, Faithful, HasMessage, Overlaps;
      StoredExactly(before, messageId);
      RunStores(before);
      LandsSnoc(events, messageId);
      StepLands(Run(before), before, last, |events|, messageId);
    }
  }

  function MessageIds(rows: seq<Row>): set<string> { set row | row in rows :: row.envelope.messageId }

  function Delivered(events: seq<Event>): set<string> {
    set d | d in events && d.Delivery? :: d.envelope.messageId
  }

  /**
   * Exactly once: for any faithful deliveries, with repeats, in any order and handled by sessions that overlap,
   * each stored id is in one row, and all delivered ids are stored if and only if each has a delivery that lands.
   */
  lemma ExactlyOnce(events: seq<Event>)
    requires Faithful(events)
    ensures var rows := Run(events).rows;
            && |rows| == |MessageIds(rows)|
            && MessageIds(rows) <= Delivered(events)
            && (forall id | id in Delivered(events) :: id in MessageIds(rows) <==> Lands(events, id))
            && (MessageIds(rows) == Delivered(events) <==> forall id | id in Delivered(events) :: Lands(events, id))
  {
    hide Run, Lands;
    RunStores(events);
    var rows := Run(events).rows;
    forall row | row in rows
      ensures row.envelope.messageId in Delivered(events)
    {
      assert Came(events, row.envelope);
    }
    DistinctIdsCount(rows);
    forall id | id in Delivered(events)
      ensures id in MessageIds(rows) <==> Lands(events, id)
    {
      StoredExactly(events, id);
    }
  }

  /** Sessions that see a device and its thresholds once they exist, as all do that run one after the other. */
  ghost predicate KnowDevices(events: seq<Event>) {
    forall d | d in events && d.Delivery? :: d.view.device && d.view.config
  }

  lemma KnownDevicesLand(events: seq<Event>)
    requires Faithful(events) && KnowDevices(events)
    ensures MessageIds(Run(events).rows) == Delivered(events)
  {
    ExactlyOnce(events);
    hide Run;
    forall id | id in Delivered(events)
      ensures Lands(events, id)
    {
      var n :| 0 <= n < |events| && events[n].Delivery? && events[n].envelope.messageId == id;
      assert LandsAt(events, id, n);
    }
  }

  /** Two sessions that first meet a device together store one message; the other fails and is not stored. */
  lemma OverlapLosesMessage(a: Envelope, b: Envelope, config: bool)
    requires a.deviceId == b.deviceId && a.messageId != b.messageId && a.sequence != b.sequence && a.siteId == b.siteId
    ensures var events := [Delivery(a, View(0, true, true))] + [Delivery(b, View(1, false, config))];
            Faithful(events) && HasMessage(Run(events).rows, a.messageId) && !HasMessage(Run(events).rows, b.messageId)
  {
    var first := [Delivery(a, View(0, true, true))];
    var events := first + [Delivery(b, View(1, false, config))];
    assert events[..1] == first && first[..0] == [];
    var t := Run(first);
    assert t == Handle(Run(first[..0]), first[0], 1) && Run([]) == EMPTY_TABLES;
    assert Run(events) == Handle(t, events[1], 2);
    hide Run, ApplyThresholds, ConfigFor;
    assert t.rows == [] + [Row(a, 1)] && a.deviceId in t.devices;
    assert t.rows[0] == Row(a, 1);
  }

  lemma {:induction false} DistinctIdsCount(rows: seq<Row>)
    requires KeysUnique(rows)
    ensures |rows| == |MessageIds(rows)|
  {
    if rows != [] {
      var before, last := rows[..|rows| - 1], rows[|rows| - 1];
      DistinctIdsCount(before);
      assert rows == before + [last];
      assert MessageIds(rows) == MessageIds(before) + {last.envelope.messageId};
    }
  }

  /**
   * Delivering a stored message again, even in a session that does not see it yet, changes nothing. It is reported
   * as a duplicate unless the session sees neither the message nor the device's thresholds.
   */
  lemma RedeliveryIsIdempotent(events: seq<Event>, again: Event, now: nat)
    requires Faithful(events + [again]) && again.Delivery? && HasMessage(Run(events).rows, again.envelope.messageId)
    ensures var Delivery(e, view) := again;
            var t := Run(events);
            var (after, outcome) := Persist(t, view, e, now);
            && after == t
            && outcome == if HasMessage(SeenRows(t.rows, view), e.messageId) || ConfigSeen(t, view, e.deviceId)
                          then Duplicate else IntegrityError
  {
    RunStores(events);
    StepOutcome(Run(events), events, again, now);
    PersistKeepsKeys(Run(events), again.view, again.envelope, now) by {
      hide Persist, Registered, Came, Run;
    }
    hide Run, Persist, HasMessage;
  }

  // ----- alarms, for sessions that see every committed row

  ghost predicate AlarmsSingle(alarms: seq<Alarm>) {
    forall deviceId, code :: AtMostOneActive(alarms, deviceId, code)
  }

  ghost predicate LimitsValid(config: ThresholdConfig) {
    config.temperature.Valid() && config.vibration.Valid() && config.current.Valid()
  }

  lemma MetricKeepsSingle(alarms: seq<Alarm>, deviceId: string, code: string, value: Option<real>, limits: Limits,
                          now: nat)
    requires AlarmsSingle(alarms)
    ensures AlarmsSingle(ApplyMetric(alarms, deviceId, code, value, limits, now))
  {
    hide ApplyMetric, AtMostOneActive;
    forall d, c
      ensures AtMostOneActive(ApplyMetric(alarms, deviceId, code, value, limits, now), d, c)
    {
      assert AtMostOneActive(alarms, d, c);
      if (d, c) == (deviceId, code) {
        MetricKeepsOne(alarms, deviceId, code, value, limits, now);
      } else {
        MetricFrame(alarms, deviceId, code, value, limits, now, d, c);
      }
    }
  }

  /** Ingestion never holds two active alarms of one code for one device. */
  lemma PersistKeepsSingleAlarms(t: Tables, view: View, e: Envelope, now: nat)
    requires AlarmsSingle(t.alarms)
    ensures AlarmsSingle(Persist(t, view, e, now).0.alarms)
  {
    hide ApplyMetric, AlarmsSingle, HasMessage, HasSequence;
    var config := ConfigFor(t.thresholds, e.deviceId);
    MetricKeepsSingle(t.alarms, e.deviceId, TEMPERATURE_CODE, e.temperature, config.temperature, now);
    var a := ApplyMetric(t.alarms, e.deviceId, TEMPERATURE_CODE, e.temperature, config.temperature, now);
    MetricKeepsSingle(a, e.deviceId, VIBRATION_CODE, e.vibrationRms, config.vibration, now);
    var b := ApplyMetric(a, e.deviceId, VIBRATION_CODE, e.vibrationRms, config.vibration, now);
    MetricKeepsSingle(b, e.deviceId, CURRENT_CODE, e.current, config.current, now);
  }

  /** Whatever thresholds operators set in between, valid or not. */
  lemma {:induction false} RunKeepsSingleAlarms(events: seq<Event>)
    ensures AlarmsSingle(Run(events).alarms)
  {
    if events != [] {
      hide AlarmsSingle, Persist;
      var before, last := Run(events[..|events| - 1]), events[|events| - 1];
      RunKeepsSingleAlarms(events[..|events| - 1]);
      if last.Delivery? {
        PersistKeepsSingleAlarms(before, last.view, last.envelope, |events|);
      }
    } else {
      NoAlarms();
    }
  }

  lemma NoAlarms()
    ensures AlarmsSingle([])
  {
  }

  /** Storing a reading moves each of its three alarms by the hysteresis rule of its own metric alone. */
  lemma StoredReadingMovesAlarms(alarms: seq<Alarm>, config: ThresholdConfig, e: Envelope, now: nat)
    requires AlarmsSingle(alarms) && LimitsValid(config)
    ensures var after := ApplyThresholds(alarms, config, e, now);
            && FollowsRule(alarms, after, e.deviceId, TEMPERATURE_CODE, e.temperature, config.temperature)
            && FollowsRule(alarms, after, e.deviceId, VIBRATION_CODE, e.vibrationRms, config.vibration)
            && FollowsRule(alarms, after, e.deviceId, CURRENT_CODE, e.current, config.current)
  {
    hide ApplyMetric, IsActive, AtMostOneActive, Band;
    assert TEMPERATURE_CODE[0] == 'T' && VIBRATION_CODE[0] == 'V' && CURRENT_CODE[0] == 'C';
    var d := e.deviceId;
    var a := ApplyMetric(alarms, d, TEMPERATURE_CODE, e.temperature, config.temperature, now);
    var b := ApplyMetric(a, d, VIBRATION_CODE, e.vibrationRms, config.vibration, now);
    MetricStep(alarms, d, TEMPERATURE_CODE, e.temperature, config.temperature, now);
    MetricFrame(alarms, d, TEMPERATURE_CODE, e.temperature, config.temperature, now, d, VIBRATION_CODE);
    MetricFrame(alarms, d, TEMPERATURE_CODE, e.temperature, config.temperature, now, d, CURRENT_CODE);
    MetricStep(a, d, VIBRATION_CODE, e.vibrationRms, config.vibration, now);
    MetricFrame(a, d, VIBRATION_CODE, e.vibrationRms, config.vibration, now, d, TEMPERATURE_CODE);
    MetricFrame(a, d, VIBRATION_CODE, e.vibrationRms, config.vibration, now, d, CURRENT_CODE);
    MetricStep(b, d, CURRENT_CODE, e.current, config.current, now);
    MetricFrame(b, d, CURRENT_CODE, e.current, config.current, now, d, TEMPERATURE_CODE);
    MetricFrame(b, d, CURRENT_CODE, e.current, config.current, now, d, VIBRATION_CODE);
  }

  /** After the reading the alarm is active at the warning level, or if it was and the value is inside the band. */
  ghost predicate FollowsRule(before: seq<Alarm>, after: seq<Alarm>, deviceId: string, code: string,
                              value: Option<real>, limits: Limits)
  {
    IsActive(after, deviceId, code) <==>
      if value.None? then IsActive(before, deviceId, code)
      else value.value >= limits.warning ||
           (IsActive(before, deviceId, code) && value.value >= limits.warning - Band(limits))
  }
}

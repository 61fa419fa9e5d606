/** What the stored tables say of a device: its record, its limits and its alarms, over every run of deliveries. */
module DeviceRecords {
  import opened Options
  import Thresholds
  import opened CloudAlarms
  import opened Ingestion

  /** The delivery put its message into the rows. */
  predicate Inserts(t: Tables, e: Envelope, view: View, now: nat) {
    !HasMessage(t.rows, e.messageId) && HasMessage(Handle(t, Delivery(e, view), now).rows, e.messageId)
  }

  lemma InsertsIsStore(t: Tables, e: Envelope, view: View, now: nat)
    ensures Handle(t, Delivery(e, view), now) == if Inserts(t, e, view, now) then Store(t, e, now) else t
  {
    hide Store, HasSequence, Overlaps;
    var after := Handle(t, Delivery(e, view), now);
    if after != t {
      StoreAppends(t, e, now);
      assert after.rows[|t.rows|] == Row(e, now);
    }
  }

  lemma StoreAppends(t: Tables, e: Envelope, now: nat)
    ensures Store(t, e, now).rows == t.rows + [Row(e, now)]
  {
    hide ApplyThresholds;
  }

  /**
   * What a session that sees every committed row, device and limits answers: a message that is stored is a duplicate,
   * one whose number belongs to another message collides, one from another site than its device's is refused, and all
   * others are inserted. Only an insertion changes the tables.
   */
  lemma SeeingSession(t: Tables, e: Envelope, now: nat)
    ensures var (after, outcome) := Persist(t, View(0, true, true), e, now);
            var stored := exists row | row in t.rows :: row.envelope.messageId == e.messageId;
            var numbered := exists row | row in t.rows ::
                              row.envelope.deviceId == e.deviceId && row.envelope.sequence == e.sequence;
            var elsewhere := e.deviceId in t.devices && t.devices[e.deviceId].siteId != e.siteId;
            && (outcome == Duplicate <==> stored)
            && (outcome == SequenceCollision <==> !stored && numbered)
            && (outcome == SiteMismatch <==> !stored && !numbered && elsewhere)
            && (outcome == Inserted <==> !stored && !numbered && !elsewhere)
            && (outcome == Inserted <==> after.rows == t.rows + [Row(e, now)])
            && (outcome != Inserted ==> after == t)
  {
    assert SeenRows(t.rows, View(0, true, true)) == t.rows;
    StoreAppends(t, e, now);
    hide Store;
  }

  // ----- the device's record

  /** The record says what the row reports. */
  predicate Shows(device: Device, row: Row) {
    && device.siteId == row.envelope.siteId && device.firmwareVersion == row.envelope.firmwareVersion
    && (device.online <==> row.envelope.quality == Good)
    && device.lastSeenAt == row.receivedAt && device.activeFaults == row.envelope.faultFlags
  }

  /** The alarm rows of a device, in order. */
  function AlarmsOf(alarms: seq<Alarm>, deviceId: string): seq<Alarm> {
    if alarms == [] then []
    else
      AlarmsOf(alarms[..|alarms| - 1], deviceId) +
      if alarms[|alarms| - 1].deviceId == deviceId then [alarms[|alarms| - 1]] else []
  }

  lemma AddedElsewhere(alarms: seq<Alarm>, added: Alarm, deviceId: string)
    requires added.deviceId != deviceId
    ensures AlarmsOf(alarms + [added], deviceId) == AlarmsOf(alarms, deviceId)
  {
    assert (alarms + [added])[..|alarms|] == alarms;
  }

  lemma {:induction false} ChangedElsewhere(alarms: seq<Alarm>, i: nat, changed: Alarm, deviceId: string)
    requires i < |alarms| && alarms[i].deviceId != deviceId && changed.deviceId != deviceId
    ensures AlarmsOf(alarms[i := changed], deviceId) == AlarmsOf(alarms, deviceId)
  {
    var n := |alarms| - 1;
    if i < n {
      ChangedElsewhere(alarms[..n], i, changed, deviceId);
      assert alarms[i := changed][..n] == alarms[..n][i := changed];
    } else {
      assert alarms[i := changed][..n] == alarms[..n];
    }
  }

  lemma MetricElsewhere(alarms: seq<Alarm>, deviceId: string, code: string, value: Option<real>,
                        limits: Thresholds.Limits, now: nat, other: string)
    requires other != deviceId
    ensures AlarmsOf(ApplyMetric(alarms, deviceId, code, value, limits, now), other) == AlarmsOf(alarms, other)
  {
    hide Thresholds.ClearLevel, Desired, AlarmsOf;
    var index, after := FindActive(alarms, deviceId, code), ApplyMetric(alarms, deviceId, code, value, limits, now);
    if index < |alarms| {
      ChangedElsewhere(alarms, index, after[index], other);
      assert after == alarms || after == alarms[index := after[index]];
    } else if after != alarms {
      AddedElsewhere(alarms, after[|alarms|], other);
      assert after == alarms + [after[|alarms|]];
    }
  }

  lemma AlarmsElsewhere(alarms: seq<Alarm>, config: ThresholdConfig, e: Envelope, now: nat, other: string)
    requires other != e.deviceId
    ensures AlarmsOf(ApplyThresholds(alarms, config, e, now), other) == AlarmsOf(alarms, other)
  {
    hide ApplyMetric, AlarmsOf;
    var a := ApplyMetric(alarms, e.deviceId, TEMPERATURE_CODE, e.temperature, config.temperature, now);
    var b := ApplyMetric(a, e.deviceId, VIBRATION_CODE, e.vibrationRms, config.vibration, now);
    MetricElsewhere(alarms, e.deviceId, TEMPERATURE_CODE, e.temperature, config.temperature, now, other);
    MetricElsewhere(a, e.deviceId, VIBRATION_CODE, e.vibrationRms, config.vibration, now, other);
    MetricElsewhere(b, e.deviceId, CURRENT_CODE, e.current, config.current, now, other);
  }

  ghost predicate OthersSame(t: Tables, after: Tables, deviceId: string) {
    forall other: string | other != deviceId ::
      && (other in after.devices <==> other in t.devices)
      && (other in t.devices ==> after.devices[other] == t.devices[other])
      && (other in after.thresholds <==> other in t.thresholds)
      && (other in t.thresholds ==> after.thresholds[other] == t.thresholds[other])
      && AlarmsOf(after.alarms, other) == AlarmsOf(t.alarms, other)
  }

  /** A delivery that is inserted adds its row, sets its device's record, and touches no other device. */
  lemma InsertionShows(t: Tables, e: Envelope, view: View, now: nat)
    ensures var after := Handle(t, Delivery(e, view), now);
            if Inserts(t, e, view, now) then
              && after.rows == t.rows + [Row(e, now)]
              && e.deviceId in after.devices && Shows(after.devices[e.deviceId], Row(e, now))
              && OthersSame(t, after, e.deviceId)
            else after == t
  {
    InsertsIsStore(t, e, view, now);
    hide Handle, Inserts, ApplyThresholds, AlarmsOf;
    forall other: string | other != e.deviceId
      ensures AlarmsOf(Store(t, e, now).alarms, other) == AlarmsOf(t.alarms, other)
    {
      AlarmsElsewhere(t.alarms, ConfigFor(t.thresholds, e.deviceId), e, now, other);
    }
  }

  /** The last row stored for a device. */
  function LastRow(rows: seq<Row>, deviceId: string): Option<Row> {
    if rows == [] then None
    else if rows[|rows| - 1].envelope.deviceId == deviceId then Some(rows[|rows| - 1])
    else LastRow(rows[..|rows| - 1], deviceId)
  }

  ghost predicate RecordIsLast(t: Tables, deviceId: string) {
    var last := LastRow(t.rows, deviceId);
    (deviceId in t.devices <==> last.Some?) && (last.Some? ==> Shows(t.devices[deviceId], last.value))
  }

  /** Over every run a device is known exactly if a row of it is stored, and its record shows its last stored row. */
  lemma {:induction false} RecordShowsLastRow(events: seq<Event>, deviceId: string)
    ensures RecordIsLast(Run(events), deviceId)
  {
    if events != [] {
      var before, last := Run(events[..|events| - 1]), events[|events| - 1];
      RecordShowsLastRow(events[..|events| - 1], deviceId);
      if last.Delivery? {
        InsertionShows(before, last.envelope, last.view, |events|);
        assert Run(events) == Handle(before, Delivery(last.envelope, last.view), |events|);
        hide Run, Handle, Shows, AlarmsOf, Inserts;
        var rows := before.rows + [Row(last.envelope, |events|)];
        assert rows[..|rows| - 1] == before.rows;
      } else {
        assert Run(events).rows == before.rows && Run(events).devices == before.devices;
        hide Run, Handle;
      }
    }
  }

  // ----- the limits a reading is judged by

  /** What an operator chose last for a device once it was known; until then the limits every device starts with. */
  ghost function Chosen(events: seq<Event>, deviceId: string): ThresholdConfig {
    if events == [] then
      ThresholdConfig(Thresholds.Limits(65.0, 75.0, 5.0), Thresholds.Limits(4.5, 7.0, 5.0),
                      Thresholds.Limits(1.4, 1.8, 5.0))
    else
      var before, last := events[..|events| - 1], events[|events| - 1];
      if last.SetThresholds? && last.deviceId == deviceId && deviceId in Run(before).devices then last.config
      else Chosen(before, deviceId)
  }

  ghost predicate LimitsAre(t: Tables, deviceId: string, chosen: ThresholdConfig) {
    && (deviceId in t.thresholds <==> deviceId in t.devices)
    && ConfigFor(t.thresholds, deviceId) == chosen
  }

  lemma InsertionKeepsLimits(t: Tables, e: Envelope, view: View, now: nat, deviceId: string, chosen: ThresholdConfig)
    requires LimitsAre(t, deviceId, chosen)
    ensures LimitsAre(Handle(t, Delivery(e, view), now), deviceId, chosen)
  {
    InsertsIsStore(t, e, view, now);
    hide Handle, Inserts, ApplyThresholds;
  }

  lemma {:induction false} LimitsAreChosen(events: seq<Event>, deviceId: string)
    ensures LimitsAre(Run(events), deviceId, Chosen(events, deviceId))
  {
    if events != [] {
      var before, last := events[..|events| - 1], events[|events| - 1];
      LimitsAreChosen(before, deviceId);
      if last.Delivery? {
        InsertionKeepsLimits(Run(before), last.envelope, last.view, |events|, deviceId, Chosen(before, deviceId));
        hide Handle, LimitsAre;
        assert Run(events) == Handle(Run(before), Delivery(last.envelope, last.view), |events|);
      }
    }
  }

  /** The next stored reading of a device moves its alarms by the limits chosen last. */
  lemma JudgedByChosen(events: seq<Event>, e: Envelope, view: View, now: nat)
    requires Inserts(Run(events), e, view, now) && LimitsValid(Chosen(events, e.deviceId))
    ensures var (t, config) := (Run(events), Chosen(events, e.deviceId));
            var after := Handle(t, Delivery(e, view), now).alarms;
            && FollowsRule(t.alarms, after, e.deviceId, "TEMPERATURE_THRESHOLD", e.temperature, config.temperature)
            && FollowsRule(t.alarms, after, e.deviceId, "VIBRATION_THRESHOLD", e.vibrationRms, config.vibration)
            && FollowsRule(t.alarms, after, e.deviceId, "CURRENT_THRESHOLD", e.current, config.current)
  {
    LimitsAreChosen(events, e.deviceId);
    InsertsIsStore(Run(events), e, view, now);
    RunKeepsSingleAlarms(events);
    StoredReadingMovesAlarms(Run(events).alarms, Chosen(events, e.deviceId), e, now);
    hide Run, Handle, Inserts, Chosen, FollowsRule, ApplyThresholds, AlarmsSingle, LimitsValid;
  }

  /** Limits set for a known device stay chosen until they are set again. */
  lemma {:induction false} ChoiceStays(events: seq<Event>, deviceId: string, config: ThresholdConfig, later: seq<Event>)
    requires deviceId in Run(events).devices
    requires forall event | event in later :: event.SetThresholds? ==> event.deviceId != deviceId
    ensures Chosen(events + [SetThresholds(deviceId, config)] + later, deviceId) == config
    decreases |later|
  {
    hide Run;
    var all := events + [SetThresholds(deviceId, config)] + later;
    if later == [] {
      assert all[..|all| - 1] == events;
    } else {
      var before := later[..|later| - 1];
      assert all[..|all| - 1] == events + [SetThresholds(deviceId, config)] + before;
      assert later == before + [later[|later| - 1]];
      ChoiceStays(events, deviceId, config, before);
    }
  }

  /** A device nobody set limits for is judged by the limits it starts with. */
  lemma {:induction false} NeverChosen(events: seq<Event>, deviceId: string)
    requires forall event | event in events :: event.SetThresholds? ==> event.deviceId != deviceId
    ensures Chosen(events, deviceId) == ThresholdConfig(Thresholds.Limits(65.0, 75.0, 5.0),
                                                        Thresholds.Limits(4.5, 7.0, 5.0),
                                                        Thresholds.Limits(1.4, 1.8, 5.0))
    ensures LimitsValid(Chosen(events, deviceId))
  {
    hide Run;
    if events != [] {
      assert events == events[..|events| - 1] + [events[|events| - 1]];
      NeverChosen(events[..|events| - 1], deviceId);
    }
  }

  // ----- the life of an alarm

  /** Some stored row of the device was received then. */
  ghost predicate ReadAt(rows: seq<Row>, deviceId: string, time: nat) {
    exists row | row in rows :: row.envelope.deviceId == deviceId && row.receivedAt == time
  }

  /** An alarm is opened by a reading of its device, and is active until a later or the same one clears it. */
  ghost predicate Lived(alarm: Alarm, rows: seq<Row>) {
    && ReadAt(rows, alarm.deviceId, alarm.openedAt)
    && (alarm.active <==> alarm.clearedAt.None?)
    && (alarm.clearedAt.Some? ==>
          alarm.openedAt <= alarm.clearedAt.value && ReadAt(rows, alarm.deviceId, alarm.clearedAt.value))
  }

  ghost predicate AllLived(alarms: seq<Alarm>, rows: seq<Row>, now: nat) {
    forall alarm | alarm in alarms :: Lived(alarm, rows) && alarm.openedAt <= now
  }

  lemma MetricLives(alarms: seq<Alarm>, deviceId: string, code: string, value: Option<real>,
                    limits: Thresholds.Limits, now: nat, rows: seq<Row>)
    requires AllLived(alarms, rows, now) && ReadAt(rows, deviceId, now)
    ensures AllLived(ApplyMetric(alarms, deviceId, code, value, limits, now), rows, now)
  {
    hide Thresholds.ClearLevel, Desired, ReadAt;
    var index, after := FindActive(alarms, deviceId, code), ApplyMetric(alarms, deviceId, code, value, limits, now);
    forall alarm | alarm in after
      ensures Lived(alarm, rows) && alarm.openedAt <= now
    {
      if alarm !in alarms && index < |alarms| {
        assert alarms[index] in alarms && alarm == after[index];
      }
    }
  }

  lemma ThresholdsLive(alarms: seq<Alarm>, config: ThresholdConfig, e: Envelope, now: nat, rows: seq<Row>)
    requires AllLived(alarms, rows, now) && ReadAt(rows, e.deviceId, now)
    ensures AllLived(ApplyThresholds(alarms, config, e, now), rows, now)
  {
    hide ApplyMetric, AllLived, ReadAt;
    var a := ApplyMetric(alarms, e.deviceId, TEMPERATURE_CODE, e.temperature, config.temperature, now);
    var b := ApplyMetric(a, e.deviceId, VIBRATION_CODE, e.vibrationRms, config.vibration, now);
    MetricLives(alarms, e.deviceId, TEMPERATURE_CODE, e.temperature, config.temperature, now, rows);
    MetricLives(a, e.deviceId, VIBRATION_CODE, e.vibrationRms, config.vibration, now, rows);
    MetricLives(b, e.deviceId, CURRENT_CODE, e.current, config.current, now, rows);
  }

  lemma LaterLived(alarms: seq<Alarm>, rows: seq<Row>, more: seq<Row>, now: nat, later: nat)
    requires AllLived(alarms, rows, now) && now <= later
    ensures AllLived(alarms, rows + more, later)
  {
    var all := rows + more;
    assert forall row | row in rows :: row in all;
    forall alarm | alarm in alarms
      ensures Lived(alarm, all) && alarm.openedAt <= later
    {
      assert Lived(alarm, rows);
      SeenAlso(rows, all, alarm.deviceId, alarm.openedAt);
      if alarm.clearedAt.Some? {
        SeenAlso(rows, all, alarm.deviceId, alarm.clearedAt.value);
      }
    }
  }

  lemma SeenAlso(rows: seq<Row>, all: seq<Row>, deviceId: string, time: nat)
    requires ReadAt(rows, deviceId, time) && forall row | row in rows :: row in all
    ensures ReadAt(all, deviceId, time)
  {
  }

  /** Over every run each alarm row was opened, and if it is not active cleared, by stored readings of its device. */
  lemma {:induction false} RunLives(events: seq<Event>)
    ensures AllLived(Run(events).alarms, Run(events).rows, |events|)
  {
    if events != [] {
      var before, last, now := Run(events[..|events| - 1]), events[|events| - 1], |events|;
      RunLives(events[..|events| - 1]);
      LaterLived(before.alarms, before.rows, [], now - 1, now);
      assert before.rows + [] == before.rows;
      if last.Delivery? && Inserts(before, last.envelope, last.view, now) {
        var e := last.envelope;
        InsertsIsStore(before, e, last.view, now);
        LaterLived(before.alarms, before.rows, [Row(e, now)], now - 1, now);
        assert (before.rows + [Row(e, now)])[|before.rows|] == Row(e, now);
        ThresholdsLive(before.alarms, ConfigFor(before.thresholds, e.deviceId), e, now, before.rows + [Row(e, now)]);
        hide ApplyThresholds, AllLived, Handle, Inserts;
        assert Run(events) == Handle(before, Delivery(e, last.view), now);
      } else {
        if last.Delivery? {
          InsertsIsStore(before, last.envelope, last.view, now);
        }
        hide AllLived, Inserts, Persist, Store;
      }
    }
  }
}

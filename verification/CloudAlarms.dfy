/** Threshold alarms as rows of the cloud database, and their agreement with the firmware. */
module CloudAlarms {
  import opened Options
  import opened Thresholds

  datatype Severity = WarningSeverity | CriticalSeverity

  datatype Alarm = Alarm(deviceId: string, code: string, severity: Severity, active: bool,
                         openedAt: nat, clearedAt: Option<nat>)

  predicate Matches(alarm: Alarm, deviceId: string, code: string) {
    alarm.deviceId == deviceId && alarm.code == code && alarm.active
  }

  /** The row the query for the active alarm returns, or the number of rows when there is none. */
  function FindActive(alarms: seq<Alarm>, deviceId: string, code: string): (index: nat)
    ensures index <= |alarms|
    ensures index < |alarms| ==> Matches(alarms[index], deviceId, code)
    ensures forall i | 0 <= i < index :: !Matches(alarms[i], deviceId, code)
  {
    if alarms == [] || Matches(alarms[0], deviceId, code) then 0
    else 1 + FindActive(alarms[1..], deviceId, code)
  }

  predicate IsActive(alarms: seq<Alarm>, deviceId: string, code: string) {
    FindActive(alarms, deviceId, code) < |alarms|
  }

  function Desired(limits: Limits, value: real): Option<Severity> {
    if value >= limits.critical then Some(CriticalSeverity)
    else if value >= limits.warning then Some(WarningSeverity)
    else None
  }

  /** The alarm rows after one reading of one metric. */
  function ApplyMetric(alarms: seq<Alarm>, deviceId: string, code: string, value: Option<real>,
                       limits: Limits, now: nat): seq<Alarm>
  {
    if value.None? then alarms
    else
      var index, desired := FindActive(alarms, deviceId, code), Desired(limits, value.value);
      if desired.Some? then
        if index == |alarms| then alarms + [Alarm(deviceId, code, desired.value, true, now, None)]
        else alarms[index := alarms[index].(severity := desired.value)]
      else if index < |alarms| && value.value < ClearLevel(limits.warning, limits.hysteresisPercent) then
        alarms[index := alarms[index].(active := false, clearedAt := Some(now))]
      else alarms
  }

  ghost predicate AtMostOneActive(alarms: seq<Alarm>, deviceId: string, code: string) {
    forall i, j | 0 <= i < |alarms| && 0 <= j < |alarms| &&
                  Matches(alarms[i], deviceId, code) && Matches(alarms[j], deviceId, code) :: i == j
  }

  /** One reading keeps at most one active alarm, whatever the limits. */
  lemma MetricKeepsOne(alarms: seq<Alarm>, deviceId: string, code: string, value: Option<real>, limits: Limits,
                       now: nat)
    requires AtMostOneActive(alarms, deviceId, code)
    ensures AtMostOneActive(ApplyMetric(alarms, deviceId, code, value, limits, now), deviceId, code)
  {
    hide ClearLevel, Desired;
  }

  /** With valid limits that alarm tracks the hysteresis rule. */
  lemma MetricStep(alarms: seq<Alarm>, deviceId: string, code: string, value: Option<real>, limits: Limits, now: nat)
    requires AtMostOneActive(alarms, deviceId, code) && limits.Valid()
    ensures var after := ApplyMetric(alarms, deviceId, code, value, limits, now);
            && AtMostOneActive(after, deviceId, code)
            && (value.None? ==> after == alarms)
            && (value.Some? ==>
                  (IsActive(after, deviceId, code) <==>
                     value.value >= limits.warning ||
                     (IsActive(alarms, deviceId, code) && value.value >= limits.warning - Band(limits))))
  {
    hide Band, ClearLevel;
    BandEdge(limits);
    var after := ApplyMetric(alarms, deviceId, code, value, limits, now);
    var index := FindActive(alarms, deviceId, code);
    if value.Some? && Desired(limits, value.value).Some? {
      assert Matches(after[index], deviceId, code);
    }
  }

  /** Rows of other devices and codes are not touched. */
  lemma MetricFrame(alarms: seq<Alarm>, deviceId: string, code: string, value: Option<real>, limits: Limits, now: nat,
                    otherDevice: string, otherCode: string)
    requires (otherDevice, otherCode) != (deviceId, code)
    ensures var after := ApplyMetric(alarms, deviceId, code, value, limits, now);
            && |alarms| <= |after|
            && (forall i | 0 <= i < |alarms| ::
                  Matches(after[i], otherDevice, otherCode) <==> Matches(alarms[i], otherDevice, otherCode))
            && (forall i | |alarms| <= i < |after| :: !Matches(after[i], otherDevice, otherCode))
            && (AtMostOneActive(alarms, otherDevice, otherCode) ==> AtMostOneActive(after, otherDevice, otherCode))
            && (IsActive(after, otherDevice, otherCode) <==> IsActive(alarms, otherDevice, otherCode))
  {
    hide ClearLevel, Desired;
    var after := ApplyMetric(alarms, deviceId, code, value, limits, now);
    var i, j := FindActive(alarms, otherDevice, otherCode), FindActive(after, otherDevice, otherCode);
  }

  // ----- agreement with the firmware

  function CloudRun(alarms: seq<Alarm>, deviceId: string, code: string, limits: Limits,
                    readings: seq<Option<real>>): seq<Alarm>
  {
    if readings == [] then alarms
    else ApplyMetric(CloudRun(alarms, deviceId, code, limits, readings[..|readings| - 1]), deviceId, code,
                     readings[|readings| - 1], limits, |readings|)
  }

  predicate Sided(firmware: Option<real>, cloud: Option<real>) {
    firmware == cloud || firmware.None? || cloud.None?
  }

  /**
   * What the two sides make of the same windows: where both judge a value it is the same one, but the firmware
   * skips windows that were not wholly valid, and the cloud those that do not meet its contract.
   */
  ghost predicate SameWindows(firmware: seq<Option<real>>, cloud: seq<Option<real>>) {
    |firmware| == |cloud| && forall i | 0 <= i < |firmware| :: Sided(firmware[i], cloud[i])
  }

  lemma {:induction false} CloudHoldsOne(deviceId: string, code: string, limits: Limits, readings: seq<Option<real>>)
    ensures AtMostOneActive(CloudRun([], deviceId, code, limits, readings), deviceId, code)
  {
    if readings != [] {
      var before := readings[..|readings| - 1];
      CloudHoldsOne(deviceId, code, limits, before);
      MetricKeepsOne(CloudRun([], deviceId, code, limits, before), deviceId, code, readings[|readings| - 1], limits,
                     |readings|);
    }
  }

  ghost predicate AgreeOnAlarm(limits: Limits, deviceId: string, code: string,
                               firmware: seq<Option<real>>, cloud: seq<Option<real>>)
  {
    IsActive(CloudRun([], deviceId, code, limits, cloud), deviceId, code) <==> Run(limits, Normal, firmware) != Normal
  }

  /** A value that only one side judges raises no alarm where there is none, and clears none where there is one. */
  predicate Harmless(limits: Limits, state: State, firmware: Option<real>, cloud: Option<real>) {
    firmware == cloud || Neutral(limits, state, if firmware.Some? then firmware else cloud)
  }

  predicate Neutral(limits: Limits, state: State, reading: Option<real>) {
    reading.None? ||
    if state.Normal? then reading.value < limits.warning
    else reading.value >= limits.warning || reading.value >= limits.warning - Band(limits)
  }

  lemma AlarmStep(limits: Limits, deviceId: string, code: string, firmware: seq<Option<real>>, cloud: seq<Option<real>>)
    requires limits.Valid() && SameWindows(firmware, cloud) && firmware != []
    requires var n := |firmware| - 1; AgreeOnAlarm(limits, deviceId, code, firmware[..n], cloud[..n])
    ensures var n := |firmware| - 1;
            AgreeOnAlarm(limits, deviceId, code, firmware, cloud) <==>
            Harmless(limits, Run(limits, Normal, firmware[..n]), firmware[n], cloud[n])
  {
    var n := |firmware| - 1;
    var before, state := CloudRun([], deviceId, code, limits, cloud[..n]), Run(limits, Normal, firmware[..n]);
    CloudHoldsOne(deviceId, code, limits, cloud[..n]);
    MetricStep(before, deviceId, code, cloud[n], limits, n + 1);
    if firmware[n].Some? {
      AlarmRule(limits, state, firmware[n].value);
    }
    hide IsActive, ApplyMetric, Band, AtMostOneActive, Limits.Valid;
  }

  /** After every window of the run both sides agree whether the alarm is active. */
  ghost predicate AlwaysAgreeOnAlarm(limits: Limits, deviceId: string, code: string,
                                     firmware: seq<Option<real>>, cloud: seq<Option<real>>)
    requires |firmware| == |cloud|
  {
    forall n: nat | n <= |firmware| :: AgreeOnAlarm(limits, deviceId, code, firmware[..n], cloud[..n])
  }

  ghost predicate AllHarmless(limits: Limits, firmware: seq<Option<real>>, cloud: seq<Option<real>>)
    requires |firmware| == |cloud|
  {
    forall n: nat | n < |firmware| :: Harmless(limits, Run(limits, Normal, firmware[..n]), firmware[n], cloud[n])
  }

  /** Firmware and cloud agree throughout a run exactly when every value that only one of them judges is harmless. */
  lemma {:induction false} FirmwareAndCloudAgree(limits: Limits, deviceId: string, code: string,
                                                 firmware: seq<Option<real>>, cloud: seq<Option<real>>)
    requires limits.Valid() && SameWindows(firmware, cloud)
    ensures AlwaysAgreeOnAlarm(limits, deviceId, code, firmware, cloud) <==> AllHarmless(limits, firmware, cloud)
  {
    hide Harmless, Sided, Run, CloudRun, IsActive, Limits.Valid;
    if firmware == [] {
      assert AgreeOnAlarm(limits, deviceId, code, [], []) by { NothingYet(limits, deviceId, code); }
    } else {
      var n := |firmware| - 1;
      var f, c := firmware[..n], cloud[..n];
      FirmwareAndCloudAgree(limits, deviceId, code, f, c);
      PrefixesOf(firmware);
      PrefixesOf(cloud);
      if AgreeOnAlarm(limits, deviceId, code, f, c) {
        AlarmStep(limits, deviceId, code, firmware, cloud);
      }
      assert f[..n] == f && c[..n] == c;
      hide AgreeOnAlarm;
    }
  }

  lemma NothingYet(limits: Limits, deviceId: string, code: string)
    ensures AgreeOnAlarm(limits, deviceId, code, [], [])
  {
  }

  lemma PrefixesOf<T>(s: seq<T>)
    requires s != []
    ensures s[..|s|] == s
    ensures forall n: nat | n < |s| :: s[..|s| - 1][..n] == s[..n]
    ensures forall n: nat | n < |s| - 1 :: s[..|s| - 1][n] == s[n]
  {
  }

  // ----- agreement on the severity

  /** The severity of the active alarm, None when there is none. */
  function SeverityOf(alarms: seq<Alarm>, deviceId: string, code: string): Option<Severity> {
    var index := FindActive(alarms, deviceId, code);
    if index < |alarms| then Some(alarms[index].severity) else None
  }

  function StateSeverity(state: State): Option<Severity> {
    match state
    case Normal => None
    case Warning => Some(WarningSeverity)
    case Critical => Some(CriticalSeverity)
  }

  function NextSeverity(limits: Limits, before: Option<Severity>, value: Option<real>): Option<Severity> {
    if value.None? then before
    else if Desired(limits, value.value).Some? then Desired(limits, value.value)
    else if value.value < limits.warning - Band(limits) then None
    else before
  }

  /** The severity of the cloud's row follows its own rule, whatever other rows there are. */
  lemma SeverityStep(alarms: seq<Alarm>, deviceId: string, code: string, value: Option<real>, limits: Limits, now: nat)
    requires AtMostOneActive(alarms, deviceId, code)
    ensures SeverityOf(ApplyMetric(alarms, deviceId, code, value, limits, now), deviceId, code) ==
            NextSeverity(limits, SeverityOf(alarms, deviceId, code), value)
  {
    hide Band, ClearLevel;
    BandEdge(limits);
    var after := ApplyMetric(alarms, deviceId, code, value, limits, now);
    var index := FindActive(alarms, deviceId, code);
    if value.Some? && Desired(limits, value.value).Some? {
      assert Matches(after[index], deviceId, code);
    }
  }

  /**
   * Leaving the critical level divides the sides in two places: inside the critical band above the warning
   * level only the firmware stays critical; inside the warning band below it only the cloud does.
   */
  predicate Divides(limits: Limits, state: State, value: real) {
    && state.Critical? && value < limits.critical
    && var stays := value >= ClearLevel(limits.critical, limits.hysteresisPercent);
    if value >= limits.warning then stays else value >= limits.warning - Band(limits) && !stays
  }

  /** The severity the cloud would give the value is the one it has. */
  predicate Confirms(limits: Limits, state: State, value: real) {
    match state
    case Normal => value < limits.warning
    case Warning => value < limits.critical && (value >= limits.warning || value >= limits.warning - Band(limits))
    case Critical => value >= limits.critical || limits.warning - Band(limits) <= value < limits.warning
  }

  /** The firmware would stay in its state. */
  predicate Keeps(limits: Limits, state: State, value: real) {
    match state
    case Normal => value < limits.warning
    case Warning => value < limits.critical && (value >= limits.warning || value >= limits.warning - Band(limits))
    case Critical => value >= limits.critical || value >= ClearLevel(limits.critical, limits.hysteresisPercent)
  }

  predicate Alike(limits: Limits, state: State, firmware: Option<real>, cloud: Option<real>) {
    match (firmware, cloud)
    case (None, None) => true
    case (None, Some(value)) => Confirms(limits, state, value)
    case (Some(value), None) => Keeps(limits, state, value)
    case (Some(value), Some(_)) => !Divides(limits, state, value)
  }

  lemma SeverityRule(limits: Limits, state: State, firmware: Option<real>, cloud: Option<real>)
    requires limits.Valid() && Sided(firmware, cloud)
    ensures StateSeverity(Update(limits, state, firmware)) == NextSeverity(limits, StateSeverity(state), cloud)
            <==> Alike(limits, state, firmware, cloud)
  {
    BandEdge(limits);
    CriticalClearsHigher(limits);
    hide Band, ClearLevel;
  }

  ghost predicate AgreeOnSeverity(limits: Limits, deviceId: string, code: string,
                                  firmware: seq<Option<real>>, cloud: seq<Option<real>>)
  {
    SeverityOf(CloudRun([], deviceId, code, limits, cloud), deviceId, code) ==
    StateSeverity(Run(limits, Normal, firmware))
  }

  lemma AlikeStep(limits: Limits, deviceId: string, code: string, firmware: seq<Option<real>>, cloud: seq<Option<real>>)
    requires limits.Valid() && SameWindows(firmware, cloud) && firmware != []
    requires var n := |firmware| - 1; AgreeOnSeverity(limits, deviceId, code, firmware[..n], cloud[..n])
    ensures var n := |firmware| - 1;
            AgreeOnSeverity(limits, deviceId, code, firmware, cloud) <==>
            Alike(limits, Run(limits, Normal, firmware[..n]), firmware[n], cloud[n])
  {
    var n := |firmware| - 1;
    var before, state := CloudRun([], deviceId, code, limits, cloud[..n]), Run(limits, Normal, firmware[..n]);
    CloudHoldsOne(deviceId, code, limits, cloud[..n]);
    SeverityStep(before, deviceId, code, cloud[n], limits, n + 1);
    SeverityRule(limits, state, firmware[n], cloud[n]);
    hide SeverityOf, ApplyMetric, Update, NextSeverity, Alike, StateSeverity, AtMostOneActive;
  }

  ghost predicate AlwaysAgreeOnSeverity(limits: Limits, deviceId: string, code: string,
                                        firmware: seq<Option<real>>, cloud: seq<Option<real>>)
    requires |firmware| == |cloud|
  {
    forall n: nat | n <= |firmware| :: AgreeOnSeverity(limits, deviceId, code, firmware[..n], cloud[..n])
  }

  ghost predicate AllAlike(limits: Limits, firmware: seq<Option<real>>, cloud: seq<Option<real>>)
    requires |firmware| == |cloud|
  {
    forall n: nat | n < |firmware| :: Alike(limits, Run(limits, Normal, firmware[..n]), firmware[n], cloud[n])
  }

  /** The severities agree throughout a run exactly when no value meets the state it divides. */
  lemma {:induction false} SeveritiesAgree(limits: Limits, deviceId: string, code: string,
                                           firmware: seq<Option<real>>, cloud: seq<Option<real>>)
    requires limits.Valid() && SameWindows(firmware, cloud)
    ensures AlwaysAgreeOnSeverity(limits, deviceId, code, firmware, cloud) <==> AllAlike(limits, firmware, cloud)
  {
    hide Alike, Sided, Run, CloudRun, SeverityOf, StateSeverity, Limits.Valid;
    if firmware == [] {
      assert AgreeOnSeverity(limits, deviceId, code, [], []) by { NoSeverityYet(limits, deviceId, code); }
    } else {
      var n := |firmware| - 1;
      var f, c := firmware[..n], cloud[..n];
      SeveritiesAgree(limits, deviceId, code, f, c);
      PrefixesOf(firmware);
      PrefixesOf(cloud);
      if AgreeOnSeverity(limits, deviceId, code, f, c) {
        AlikeStep(limits, deviceId, code, firmware, cloud);
      }
      assert f[..n] == f && c[..n] == c;
      hide AgreeOnSeverity;
    }
  }

  lemma NoSeverityYet(limits: Limits, deviceId: string, code: string)
    ensures AgreeOnSeverity(limits, deviceId, code, [], [])
  {
  }

  /** Falling from critical into the dividing bands leaves the severities different; 58 is one for 60, 75, 5 percent. */
  lemma SeverityMayDiffer(limits: Limits, deviceId: string, code: string, value: real)
    requires limits.Valid() && Divides(limits, Critical, value)
    ensures !AgreeOnSeverity(limits, deviceId, code, [Some(limits.critical)] + [Some(value)],
                             [Some(limits.critical)] + [Some(value)])
    ensures Limits(60.0, 75.0, 5.0).Valid() && Divides(Limits(60.0, 75.0, 5.0), Critical, 58.0)
  {
    var first := [Some(limits.critical)];
    var both := first + [Some(value)];
    assert both[..1] == first && first[..0] == [];
    NoSeverityYet(limits, deviceId, code);
    AlikeStep(limits, deviceId, code, first, first);
    AlikeStep(limits, deviceId, code, both, both);
  }
}

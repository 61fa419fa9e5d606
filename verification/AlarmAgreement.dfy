/** From samples to alarms: the aggregation task, the readings each side takes from its windows, and their agreement. */
module AlarmAgreement {
  import opened Options
  import opened Thresholds
  import opened CloudAlarms
  import opened SampleWindow

  datatype Metric = Temperature | Vibration | Current

  function ValueOf(m: Measurements, metric: Metric): Option<real> {
    match metric
    case Temperature => m.temperature
    case Vibration => m.vibrationRms
    case Current => m.current
  }

  function QualityFor(m: Measurements, metric: Metric): Quality {
    match metric
    case Temperature => m.temperatureQuality
    case Vibration => m.vibrationQuality
    case Current => m.currentQuality
  }

  /** The firmware judges a value only if every sample behind it was good. */
  function FirmwareReading(m: Measurements, metric: Metric): Option<real> {
    if QualityFor(m, metric).status.Good? then ValueOf(m, metric) else None
  }

  /** The published contract; an envelope outside it is refused whole. */
  predicate MeetsContract(m: Measurements) {
    && InRange(m.temperature, -80.0, 200.0) && InRange(m.current, -0.1, 10.0)
    && InRange(m.vibrationRms, 0.0, RMS_MAXIMUM) && InRange(m.vibrationPeak, 0.0, 4000.0)
    && InRange(m.crestFactor, 0.0, 100.0)
  }

  /** The cloud judges every value it is sent, whatever its quality. */
  function CloudReading(m: Measurements, metric: Metric): Option<real> {
    if MeetsContract(m) then ValueOf(m, metric) else None
  }

  function FirmwareReadings(windows: seq<Measurements>, metric: Metric): seq<Option<real>> {
    seq(|windows|, i requires 0 <= i < |windows| => FirmwareReading(windows[i], metric))
  }

  function CloudReadings(windows: seq<Measurements>, metric: Metric): seq<Option<real>> {
    seq(|windows|, i requires 0 <= i < |windows| => CloudReading(windows[i], metric))
  }

  // ----- the aggregation task

  /** The measurements of consecutive windows of `expected` samples each. */
  function Windows(samples: seq<Sample>, expected: nat, sqrt: real -> real): seq<Measurements>
    requires expected > 0
    decreases |samples|
  {
    if |samples| < expected then []
    else [Finished(Gathered(expected, samples[..expected]), sqrt)] + Windows(samples[expected..], expected, sqrt)
  }

  /** The states the firmware's three thresholds are in after the windows `sent`. */
  ghost predicate Tracks(limits: Metric -> Limits, sent: seq<Measurements>,
                         temperature: State, vibration: State, current: State)
  {
    && temperature == Run(limits(Temperature), Normal, FirmwareReadings(sent, Temperature))
    && vibration == Run(limits(Vibration), Normal, FirmwareReadings(sent, Vibration))
    && current == Run(limits(Current), Normal, FirmwareReadings(sent, Current))
  }

  /** The task over the samples it receives: the windows it sends, and its three threshold states. */
  method Aggregate(samples: seq<Sample>, expected: nat, limits: Metric -> Limits, sqrt: real -> real)
    returns (sent: seq<Measurements>, temperature: State, vibration: State, current: State)
    requires expected > 0
    ensures sent == Windows(samples, expected, sqrt)
    ensures Tracks(limits, sent, temperature, vibration, current)
  {
    var window := new Window(expected);
    sent, temperature, vibration, current := [], Normal, Normal, Normal;
    var count := 0;
    hide Gathered, Finished, Update, FirmwareReading, Tracks, Windows, Window.Value;
    TrackNothing(limits);
    ghost var start, gathered: seq<Sample> := 0, [];
    assert samples[0..] == samples;
    for index := 0 to |samples|
      invariant fresh(window) && count < expected && start + count == index
      invariant gathered == samples[start..index] && window.Value() == Gathered(expected, gathered)
      invariant Windows(samples, expected, sqrt) == sent + Windows(samples[start..], expected, sqrt)
      invariant Tracks(limits, sent, temperature, vibration, current)
    {
      window.Add(samples[index], expected, gathered);
      gathered := gathered + [samples[index]];
      assert gathered == samples[start..index + 1];
      count := count + 1;
      if count == expected {
        var m := window.Finish(sqrt);
        WindowFull(samples, start, expected, sqrt, sent);
        TrackNext(limits, sent, m, temperature, vibration, current);
        temperature := Update(limits(Temperature), temperature, FirmwareReading(m, Temperature));
        vibration := Update(limits(Vibration), vibration, FirmwareReading(m, Vibration));
        current := Update(limits(Current), current, FirmwareReading(m, Current));
        sent := sent + [m];
        count := 0;
        start, gathered := index + 1, [];
        window.Begin(expected);
      }
    }
    WindowOpen(samples[start..], expected, sqrt);
  }

  lemma TrackNext(limits: Metric -> Limits, sent: seq<Measurements>, m: Measurements,
                  temperature: State, vibration: State, current: State)
    requires Tracks(limits, sent, temperature, vibration, current)
    ensures Tracks(limits, sent + [m], Update(limits(Temperature), temperature, FirmwareReading(m, Temperature)),
                   Update(limits(Vibration), vibration, FirmwareReading(m, Vibration)),
                   Update(limits(Current), current, FirmwareReading(m, Current)))
  {
    hide Update, FirmwareReading;
    forall metric: Metric
      ensures FirmwareReadings(sent + [m], metric)[..|sent|] == FirmwareReadings(sent, metric)
    {
    }
  }

  lemma TrackNothing(limits: Metric -> Limits)
    ensures Tracks(limits, [], Normal, Normal, Normal)
  {
  }

  lemma WindowFull(samples: seq<Sample>, start: nat, expected: nat, sqrt: real -> real, sent: seq<Measurements>)
    requires 0 < expected && start + expected <= |samples|
    ensures sent + Windows(samples[start..], expected, sqrt) ==
            sent + [Finished(Gathered(expected, samples[start..start + expected]), sqrt)] +
            Windows(samples[start + expected..], expected, sqrt)
  {
    hide Gathered, Finished;
    assert samples[start..][..expected] == samples[start..start + expected];
    assert samples[start..][expected..] == samples[start + expected..];
  }

  lemma WindowOpen(samples: seq<Sample>, expected: nat, sqrt: real -> real)
    requires |samples| < expected
    ensures Windows(samples, expected, sqrt) == []
  {
  }

  // ----- agreement over windows

  lemma BothSides(windows: seq<Measurements>, metric: Metric)
    ensures SameWindows(FirmwareReadings(windows, metric), CloudReadings(windows, metric))
  {
  }

  /** Over every sequence of windows alarm and severity agree throughout exactly under the conditions on single ones. */
  lemma WindowsAgree(limits: Limits, deviceId: string, code: string, metric: Metric, windows: seq<Measurements>)
    requires limits.Valid()
    ensures var firmware, cloud := FirmwareReadings(windows, metric), CloudReadings(windows, metric);
            && (AlwaysAgreeOnAlarm(limits, deviceId, code, firmware, cloud) <==> AllHarmless(limits, firmware, cloud))
            && (AlwaysAgreeOnSeverity(limits, deviceId, code, firmware, cloud) <==> AllAlike(limits, firmware, cloud))
  {
    var firmware, cloud := FirmwareReadings(windows, metric), CloudReadings(windows, metric);
    BothSides(windows, metric);
    FirmwareAndCloudAgree(limits, deviceId, code, firmware, cloud);
    SeveritiesAgree(limits, deviceId, code, firmware, cloud);
  }

  /** A value that is there and out of its published range. */
  predicate Outside(value: Option<real>, low: real, high: real) {
    value.Some? && (value.value < low || value.value > high)
  }

  /** One value outside its range keeps the cloud from judging any; otherwise it judges means and root mean square. */
  lemma OneOutsideRefusesAll(m: Measurements)
    ensures var refused := Outside(m.temperature, -80.0, 200.0) || Outside(m.current, -0.1, 10.0)
                           || Outside(m.vibrationRms, 0.0, 2000.0) || Outside(m.vibrationPeak, 0.0, 4000.0)
                           || Outside(m.crestFactor, 0.0, 100.0);
            && CloudReading(m, Temperature) == (if refused then None else m.temperature)
            && CloudReading(m, Vibration) == (if refused then None else m.vibrationRms)
            && CloudReading(m, Current) == (if refused then None else m.current)
  {
  }

  /**
   * What the sides judge of any window of a validated configuration: the firmware a channel's mean, or root mean
   * square, exactly if all its samples were accepted; the cloud all of them exactly if the RMS is within 2000.
   */
  lemma JudgedReadings(sampleMs: nat, telemetryMs: nat, samples: seq<Sample>, sqrt: real -> real)
    requires TimingValid(sampleMs, telemetryMs) && |samples| == telemetryMs / sampleMs && IsRoot(sqrt)
    ensures var m := Finished(Gathered(|samples|, samples), sqrt);
            var refused := Outside(m.vibrationRms, 0.0, 2000.0);
            && FirmwareReading(m, Temperature) ==
               (if AllAccepted(Temperatures(samples), -80.0, 200.0) then m.temperature else None)
            && FirmwareReading(m, Vibration) ==
               (if AllAccepted(Vibrations(samples), -4000.0, 4000.0) then m.vibrationRms else None)
            && FirmwareReading(m, Current) ==
               (if AllAccepted(Currents(samples), -0.1, 10.0) then m.current else None)
            && CloudReading(m, Temperature) == (if refused then None else m.temperature)
            && CloudReading(m, Vibration) == (if refused then None else m.vibrationRms)
            && CloudReading(m, Current) == (if refused then None else m.current)
  {
    WindowMeetsContract(sampleMs, telemetryMs, samples, sqrt);
    OneOutsideRefusesAll(Finished(Gathered(|samples|, samples), sqrt));
    hide Gathered, Finished, AllAccepted, IsRoot, CloudReading;
  }

  function Bounds(metric: Metric): (real, real) {
    match metric
    case Temperature => (TEMPERATURE_LOW, TEMPERATURE_HIGH)
    case Vibration => (-VIBRATION_HIGH, VIBRATION_HIGH)
    case Current => (CURRENT_LOW, CURRENT_HIGH)
  }

  function ReadingsOf(samples: seq<Sample>, metric: Metric): seq<Reading> {
    match metric
    case Temperature => Temperatures(samples)
    case Vibration => Vibrations(samples)
    case Current => Currents(samples)
  }

  function AcceptedIn(samples: seq<Sample>, metric: Metric): nat {
    CountAccepted(ReadingsOf(samples, metric), Bounds(metric).0, Bounds(metric).1)
  }

  /** A window of samples whose channel was accepted wholly or not at all. */
  ghost predicate Whole(samples: seq<Sample>, metric: Metric) {
    AcceptedIn(samples, metric) == 0 || AcceptedIn(samples, metric) == |samples|
  }

  /** Both sides take the same reading from a window exactly if it is whole, when the window meets the contract. */
  lemma SidesDifferOnPartialWindows(samples: seq<Sample>, metric: Metric, sqrt: real -> real)
    requires 0 < |samples| <= 6000
    ensures var m := Finished(Gathered(|samples|, samples), sqrt);
            MeetsContract(m) ==> (FirmwareReading(m, metric) == CloudReading(m, metric) <==> Whole(samples, metric))
  {
    var readings := ReadingsOf(samples, metric);
    ValidCounts(readings, Bounds(metric).0, Bounds(metric).1, metric.Vibration?);
    hide MeetsContract, Total, CountAccepted;
  }

  ghost predicate FromSamples(m: Measurements, samples: seq<Sample>, sqrt: real -> real) {
    m == Finished(Gathered(|samples|, samples), sqrt)
  }

  /** Whole windows that meet the contract keep both sides in agreement on the alarm, after every window. */
  lemma WholeWindowsAgree(limits: Limits, deviceId: string, code: string, metric: Metric,
                          windows: seq<Measurements>, sources: seq<seq<Sample>>, sqrt: real -> real)
    requires limits.Valid() && |sources| == |windows|
    requires forall i | 0 <= i < |windows| ::
               && 0 < |sources[i]| <= 6000 && FromSamples(windows[i], sources[i], sqrt)
               && Whole(sources[i], metric) && MeetsContract(windows[i])
    ensures AlwaysAgreeOnAlarm(limits, deviceId, code,
                               FirmwareReadings(windows, metric), CloudReadings(windows, metric))
  {
    var firmware, cloud := FirmwareReadings(windows, metric), CloudReadings(windows, metric);
    WindowsAgree(limits, deviceId, code, metric, windows);
    forall n: nat | n < |windows|
      ensures firmware[n] == cloud[n]
    {
      SidesDifferOnPartialWindows(sources[n], metric, sqrt);
    }
    hide FirmwareReadings, CloudReadings, Neutral;
  }

  lemma TwoReadings(a: Reading, b: Reading, low: real, high: real, squared: bool)
    ensures Total([a] + [b], low, high, squared) == AddTo(AddTo(FRESH, a, low, high, squared), b, low, high, squared)
  {
    hide AddTo;
    assert [a][..0] == [] && ([a] + [b])[..1] == [a];
    assert Total([a], low, high, squared) == AddTo(Total([], low, high, squared), a, low, high, squared);
  }

  /** One missing sample is enough: the firmware stays normal beside an active alarm of the cloud. */
  lemma PartialWindowDivides(limits: Limits, deviceId: string, code: string, value: real, sqrt: real -> real)
    requires limits.Valid() && limits.warning <= value && -80.0 <= value <= 200.0 && IsRoot(sqrt)
    ensures var ok, missing := Reading(Some(0.0), Good), Reading(None, Missing);
            var samples := [Sample(Reading(Some(value), Good), ok, ok)] + [Sample(missing, ok, ok)];
            var windows := [Finished(Gathered(2, samples), sqrt)];
            && MeetsContract(windows[0])
            && Run(limits, Normal, FirmwareReadings(windows, Temperature)) == Normal
            && IsActive(CloudRun([], deviceId, code, limits, CloudReadings(windows, Temperature)), deviceId, code)
  {
    var ok, missing := Reading(Some(0.0), Good), Reading(None, Missing);
    var samples := [Sample(Reading(Some(value), Good), ok, ok)] + [Sample(missing, ok, ok)];
    var m := Finished(Gathered(2, samples), sqrt);
    assert Temperatures(samples) == [Reading(Some(value), Good)] + [missing];
    assert Vibrations(samples) == [ok] + [ok];
    TwoReadings(Reading(Some(value), Good), missing, -80.0, 200.0, false);
    TwoReadings(ok, ok, -4000.0, 4000.0, true);
    WindowMeetsContract(10, 20, samples, sqrt);
    RmsMeetsContract(10, 20, samples, sqrt);
    hide Total;
    assert m.vibrationPeak == Some(0.0) && m.temperature == Some(value) && m.temperatureQuality.status == Missing;
    hide Gathered, Finished;
    var readings := CloudReadings([m], Temperature);
    assert readings == [Some(value)] && FirmwareReadings([m], Temperature) == [None];
    assert readings[..0] == [];
    MetricStep([], deviceId, code, Some(value), limits, 1);
    hide ApplyMetric, IsActive;
    assert CloudRun([], deviceId, code, limits, readings[..0]) == [];
    assert CloudRun([], deviceId, code, limits, readings) == ApplyMetric([], deviceId, code, Some(value), limits, 1);
  }
}

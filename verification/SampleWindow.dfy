/** One aggregation window of sensor samples, and the inequalities its measurements obey. */
module SampleWindow {
  import opened MachineWords
  import opened Options

  /** Ordered from best to worst; merging keeps the worse. */
  datatype SensorStatus = Good | Missing | Stuck | OutOfRange | Noisy | RateInvalid | DriverError {
    function Rank(): nat {
      match this
      case Good => 0
      case Missing => 1
      case Stuck => 2
      case OutOfRange => 3
      case Noisy => 4
      case RateInvalid => 5
      case DriverError => 6
    }
  }

  function Merge(current: SensorStatus, next: SensorStatus): SensorStatus {
    if next.Rank() > current.Rank() then next else current
  }

  /** A channel's reading; None stands for a value that is not finite. */
  datatype Reading = Reading(value: Option<real>, status: SensorStatus)

  datatype Sample = Sample(temperature: Reading, current: Reading, vibration: Reading)

  const TEMPERATURE_LOW: real := -80.0
  const TEMPERATURE_HIGH: real := 200.0
  const CURRENT_LOW: real := -0.1
  const CURRENT_HIGH: real := 10.0
  const VIBRATION_HIGH: real := 4000.0

  predicate Accepted(reading: Reading, low: real, high: real) {
    reading.status.Good? && reading.value.Some? && low <= reading.value.value <= high
  }

  /** The status a rejected reading counts with: a good one that is out of range or not finite is out of range. */
  function RejectedStatus(reading: Reading): SensorStatus {
    if reading.status.Good? then OutOfRange else reading.status
  }

  function Abs(x: real): real { if x < 0.0 then -x else x }

  // ----- one channel

  /** `sum` adds the readings, or their squares; in the latter case `peak` is the largest magnitude. */
  datatype Channel = Channel(sum: real, peak: real, valid: nat, status: SensorStatus)

  const FRESH: Channel := Channel(0.0, 0.0, 0, Good)

  function AddTo(c: Channel, reading: Reading, low: real, high: real, squared: bool): Channel {
    if Accepted(reading, low, high) then
      var x := reading.value.value;
      Channel(c.sum + (if squared then x * x else x), if squared && Abs(x) > c.peak then Abs(x) else c.peak,
              (c.valid + 1) % TWO_16, c.status)
    else c.(status := Merge(c.status, RejectedStatus(reading)))
  }

  function Total(readings: seq<Reading>, low: real, high: real, squared: bool): Channel {
    if readings == [] then FRESH
    else AddTo(Total(readings[..|readings| - 1], low, high, squared), readings[|readings| - 1], low, high, squared)
  }

  function CountAccepted(readings: seq<Reading>, low: real, high: real): nat {
    if readings == [] then 0
    else CountAccepted(readings[..|readings| - 1], low, high) +
         if Accepted(readings[|readings| - 1], low, high) then 1 else 0
  }

  lemma {:induction false} ValidCounts(readings: seq<Reading>, low: real, high: real, squared: bool)
    requires |readings| < TWO_16
    ensures var c := Total(readings, low, high, squared);
            && c.valid == CountAccepted(readings, low, high) <= |readings|
            && (c.status.Good? <==> c.valid == |readings|)
  {
    if readings != [] {
      ValidCounts(readings[..|readings| - 1], low, high, squared);
    }
  }

  ghost predicate SumBounds(c: Channel, low: real, high: real) {
    c.valid as real * low <= c.sum <= c.valid as real * high
  }

  /** The sum of accepted readings lies between the bounds times their number. */
  lemma {:induction false} SumBetween(readings: seq<Reading>, low: real, high: real)
    requires |readings| < TWO_16
    ensures SumBounds(Total(readings, low, high, false), low, high)
  {
    if readings != [] {
      var before := Total(readings[..|readings| - 1], low, high, false);
      SumBetween(readings[..|readings| - 1], low, high);
      ValidCounts(readings[..|readings| - 1], low, high, false);
      hide SumBounds, AddTo;
      SumStep(before, readings[|readings| - 1], low, high);
    }
  }

  lemma SumStep(c: Channel, reading: Reading, low: real, high: real)
    requires c.valid + 1 < TWO_16 && SumBounds(c, low, high)
    ensures SumBounds(AddTo(c, reading, low, high, false), low, high)
  {
    Distribute(c.valid, low);
    Distribute(c.valid, high);
  }

  lemma Distribute(n: nat, x: real)
    ensures (n + 1) as real * x == n as real * x + x
  {
    assert (n + 1) as real == n as real + 1.0;
  }

  lemma SquareBound(x: real, peak: real)
    requires Abs(x) <= peak
    ensures 0.0 <= x * x <= peak * peak
  {
    assert x * x == Abs(x) * Abs(x);
    assert peak * peak - Abs(x) * Abs(x) == (peak - Abs(x)) * (peak + Abs(x));
  }

  ghost predicate PeakBounds(c: Channel, high: real) {
    0.0 <= c.peak <= high && c.peak * c.peak <= c.sum <= c.valid as real * (c.peak * c.peak)
  }

  /** The peak squared is at most the sum of squares, which is at most `valid` times the peak squared. */
  lemma {:induction false} PeakBoundsSquares(readings: seq<Reading>, high: real)
    requires |readings| < TWO_16 && high >= 0.0
    ensures PeakBounds(Total(readings, -high, high, true), high)
  {
    if readings != [] {
      var before := Total(readings[..|readings| - 1], -high, high, true);
      PeakBoundsSquares(readings[..|readings| - 1], high);
      ValidCounts(readings[..|readings| - 1], -high, high, true);
      hide PeakBounds, AddTo;
      PeakBoundsStep(before, readings[|readings| - 1], high);
    }
  }

  lemma PeakBoundsStep(c: Channel, reading: Reading, high: real)
    requires c.valid + 1 < TWO_16 && high >= 0.0 && PeakBounds(c, high)
    ensures PeakBounds(AddTo(c, reading, -high, high, true), high)
  {
    if Accepted(reading, -high, high) {
      PeakStep(c.sum, c.peak, c.valid, reading.value.value);
    }
  }

  lemma PeakStep(sum: real, peak: real, valid: nat, x: real)
    requires 0.0 <= peak && peak * peak <= sum <= valid as real * (peak * peak)
    ensures var next := if Abs(x) > peak then Abs(x) else peak;
            next * next <= sum + x * x <= (valid + 1) as real * (next * next)
  {
    var next := if Abs(x) > peak then Abs(x) else peak;
    SquareBound(x, next);
    SquareBound(peak, next);
    assert x * x == Abs(x) * Abs(x);
    Distribute(valid, next * next);
    MulMonotone(valid as real, peak * peak, next * next);
  }

  lemma MulMonotone(n: real, a: real, b: real)
    requires n >= 0.0 && a <= b
    ensures n * a <= n * b
  {
    assert n * (b - a) >= 0.0;
  }

  // ----- the window

  datatype Quality = Quality(status: SensorStatus, valid: nat, expected: nat)

  datatype Measurements = Measurements(temperature: Option<real>, current: Option<real>, vibrationRms: Option<real>,
                                       vibrationPeak: Option<real>, crestFactor: Option<real>,
                                       temperatureQuality: Quality, currentQuality: Quality, vibrationQuality: Quality)

  datatype Sums = Sums(expected: nat, temperature: Channel, current: Channel, vibration: Channel)

  function QualityOf(c: Channel, expected: nat): Quality {
    Quality(if c.status.Good? && c.valid < expected then Missing else c.status, c.valid, expected)
  }

  function MeanOf(c: Channel): Option<real> {
    if c.valid > 0 then Some(c.sum / c.valid as real) else None
  }

  /** `sqrt` is the square root the platform provides. */
  function RmsOf(c: Channel, sqrt: real -> real): Option<real> {
    if c.valid > 0 then Some(sqrt(c.sum / c.valid as real)) else None
  }

  function CrestOf(c: Channel, sqrt: real -> real): Option<real> {
    var rms := RmsOf(c, sqrt);
    if rms.Some? && rms.value > 0.000001 then Some(c.peak / rms.value) else None
  }

  function Finished(w: Sums, sqrt: real -> real): Measurements {
    Measurements(MeanOf(w.temperature), MeanOf(w.current), RmsOf(w.vibration, sqrt),
                 if w.vibration.valid > 0 then Some(w.vibration.peak) else None, CrestOf(w.vibration, sqrt),
                 QualityOf(w.temperature, w.expected), QualityOf(w.current, w.expected),
                 QualityOf(w.vibration, w.expected))
  }

  function Temperatures(samples: seq<Sample>): seq<Reading> {
    seq(|samples|, i requires 0 <= i < |samples| => samples[i].temperature)
  }

  function Currents(samples: seq<Sample>): seq<Reading> {
    seq(|samples|, i requires 0 <= i < |samples| => samples[i].current)
  }

  function Vibrations(samples: seq<Sample>): seq<Reading> {
    seq(|samples|, i requires 0 <= i < |samples| => samples[i].vibration)
  }

  /** The sums of a window after `samples`. */
  function Gathered(expected: nat, samples: seq<Sample>): Sums {
    Sums(if expected == 0 then 1 else expected,
         Total(Temperatures(samples), TEMPERATURE_LOW, TEMPERATURE_HIGH, false),
         Total(Currents(samples), CURRENT_LOW, CURRENT_HIGH, false),
         Total(Vibrations(samples), -VIBRATION_HIGH, VIBRATION_HIGH, true))
  }

  class Window {
    var temperatureSum: real
    var currentSum: real
    var vibrationSquareSum: real
    var vibrationPeak: real
    var temperatureValid: nat
    var currentValid: nat
    var vibrationValid: nat
    var expectedSamples: nat
    var temperatureStatus: SensorStatus
    var currentStatus: SensorStatus
    var vibrationStatus: SensorStatus

    ghost function Value(): Sums
      reads this
    {
      Sums(expectedSamples, Channel(temperatureSum, 0.0, temperatureValid, temperatureStatus),
           Channel(currentSum, 0.0, currentValid, currentStatus),
           Channel(vibrationSquareSum, vibrationPeak, vibrationValid, vibrationStatus))
    }

    constructor (expected: nat)
      ensures Value() == Gathered(expected, [])
    {
      temperatureSum, currentSum, vibrationSquareSum, vibrationPeak := 0.0, 0.0, 0.0, 0.0;
      temperatureValid, currentValid, vibrationValid := 0, 0, 0;
      temperatureStatus, currentStatus, vibrationStatus := Good, Good, Good;
      expectedSamples := if expected == 0 then 1 else expected;
    }

    method Begin(expected: nat)
      modifies this
      ensures Value() == Gathered(expected, [])
    {
      temperatureSum, currentSum, vibrationSquareSum, vibrationPeak := 0.0, 0.0, 0.0, 0.0;
      temperatureValid, currentValid, vibrationValid := 0, 0, 0;
      temperatureStatus, currentStatus, vibrationStatus := Good, Good, Good;
      expectedSamples := if expected == 0 then 1 else expected;
    }

    /** Adding a sample to a window that gathered `samples`. */
    method Add(sample: Sample, ghost expected: nat, ghost samples: seq<Sample>)
      requires Value() == Gathered(expected, samples)
      modifies this
      ensures Value() == Gathered(expected, samples + [sample])
    {
      GatherOne(expected, samples, sample);
      hide Merge, RejectedStatus, Abs, Total, Gathered;
      if Accepted(sample.temperature, TEMPERATURE_LOW, TEMPERATURE_HIGH) {
        temperatureSum := temperatureSum + sample.temperature.value.value;
        temperatureValid := (temperatureValid + 1) % TWO_16;
      } else {
        temperatureStatus := Merge(temperatureStatus, RejectedStatus(sample.temperature));
      }
      if Accepted(sample.current, CURRENT_LOW, CURRENT_HIGH) {
        currentSum := currentSum + sample.current.value.value;
        currentValid := (currentValid + 1) % TWO_16;
      } else {
        currentStatus := Merge(currentStatus, RejectedStatus(sample.current));
      }
      if Accepted(sample.vibration, -VIBRATION_HIGH, VIBRATION_HIGH) {
        var x := sample.vibration.value.value;
        vibrationSquareSum := vibrationSquareSum + x * x;
        if Abs(x) > vibrationPeak {
          vibrationPeak := Abs(x);
        }
        vibrationValid := (vibrationValid + 1) % TWO_16;
      } else {
        vibrationStatus := Merge(vibrationStatus, RejectedStatus(sample.vibration));
      }
    }

    method Finish(sqrt: real -> real) returns (result: Measurements)
      ensures result == Finished(Value(), sqrt)
    {
      var rms, peak := None, None;
      if vibrationValid > 0 {
        rms := Some(sqrt(vibrationSquareSum / vibrationValid as real));
        peak := Some(vibrationPeak);
      }
      var crest := if rms.Some? && rms.value > 0.000001 then Some(vibrationPeak / rms.value) else None;
      result := Measurements(
        if temperatureValid > 0 then Some(temperatureSum / temperatureValid as real) else None,
        if currentValid > 0 then Some(currentSum / currentValid as real) else None, rms, peak, crest,
        QualityOf(Channel(temperatureSum, 0.0, temperatureValid, temperatureStatus), expectedSamples),
        QualityOf(Channel(currentSum, 0.0, currentValid, currentStatus), expectedSamples),
        QualityOf(Channel(vibrationSquareSum, vibrationPeak, vibrationValid, vibrationStatus), expectedSamples));
    }
  }

  lemma GatherOne(expected: nat, samples: seq<Sample>, sample: Sample)
    ensures var w, next := Gathered(expected, samples), Gathered(expected, samples + [sample]);
            && next.expected == w.expected
            && next.temperature == AddTo(w.temperature, sample.temperature, TEMPERATURE_LOW, TEMPERATURE_HIGH, false)
            && next.current == AddTo(w.current, sample.current, CURRENT_LOW, CURRENT_HIGH, false)
            && next.vibration == AddTo(w.vibration, sample.vibration, -VIBRATION_HIGH, VIBRATION_HIGH, true)
  {
    var all := samples + [sample];
    var n := |samples|;
    assert Temperatures(all)[..n] == Temperatures(samples);
    assert Currents(all)[..n] == Currents(samples);
    assert Vibrations(all)[..n] == Vibrations(samples);
  }

  // ----- configuration limits and published bounds

  /** The timing limits a configuration must meet. */
  predicate TimingValid(sampleMs: nat, telemetryMs: nat) {
    10 <= sampleMs <= 1000 && sampleMs <= telemetryMs <= 60000 && telemetryMs % sampleMs == 0
  }

  /** A validated configuration aggregates between 1 and 6000 samples. */
  lemma ExpectedSamples(sampleMs: nat, telemetryMs: nat)
    requires TimingValid(sampleMs, telemetryMs)
    ensures 1 <= telemetryMs / sampleMs <= 6000
  {
    var n := telemetryMs / sampleMs;
    assert telemetryMs == n * sampleMs;
    assert n * (sampleMs - 10) >= 0;
  }

  /** `sqrt` is the non-negative root. */
  ghost predicate IsRoot(sqrt: real -> real) {
    forall x: real | x >= 0.0 :: sqrt(x) >= 0.0 && sqrt(x) * sqrt(x) == x
  }

  lemma SquaresOrder(a: real, b: real)
    requires b >= 0.0 && a * a <= b * b
    ensures a <= b
  {
    if a > b {
      SquaresGrow(a, b);
      assert false;
    }
  }

  lemma SquaresGrow(a: real, b: real)
    requires a > b >= 0.0
    ensures a * a > b * b
  {
    PositiveProduct(a - b, a + b);
    assert (a - b) * (a + b) == a * a - b * b;
  }

  lemma PositiveProduct(a: real, b: real)
    requires a > 0.0 && b > 0.0
    ensures a * b > 0.0
  {
  }

  lemma MulStrict(n: real, a: real, b: real)
    requires n > 0.0 && a > b
    ensures n * a > n * b
  {
    PositiveProduct(n, a - b);
  }

  /** Root mean square and peak of `n` samples whose squares sum to `sum`. */
  lemma RmsBounds(n: nat, sum: real, peak: real, rms: real)
    requires n > 0 && 0.0 <= peak && peak * peak <= sum <= n as real * (peak * peak)
    requires rms >= 0.0 && rms * rms == sum / n as real
    ensures rms <= peak && peak * peak <= n as real * (rms * rms)
  {
    assert sum == n as real * (rms * rms);
    DivideOut(n as real, rms * rms, peak * peak);
    SquaresOrder(rms, peak);
  }

  lemma DivideOut(n: real, a: real, b: real)
    requires n > 0.0 && n * a <= n * b
    ensures a <= b
  {
    if a > b {
      MulStrict(n, a, b);
      assert false;
    }
  }

  lemma MeanBetween(n: nat, sum: real, low: real, high: real)
    requires n > 0 && n as real * low <= sum <= n as real * high
    ensures low <= sum / n as real <= high
  {
    var mean := sum / n as real;
    assert sum == n as real * mean;
    DivideOut(n as real, low, mean);
    DivideOut(n as real, mean, high);
  }

  lemma CrestBounds(n: nat, peak: real, rms: real)
    requires 0 < n <= 6000 && 0.0 < rms <= peak && peak * peak <= n as real * (rms * rms)
    ensures 1.0 <= peak / rms <= 78.0
  {
    var crest := peak / rms;
    CrestSquared(n as real, peak, rms, crest);
    SquaresOrder(crest, 78.0);
    DivideOut(rms, 1.0, crest);
  }

  lemma CrestSquared(n: real, peak: real, rms: real, crest: real)
    requires rms > 0.0 && peak == rms * crest && peak * peak <= n * (rms * rms)
    ensures crest * crest <= n
  {
    var square, crestSquare := rms * rms, crest * crest;
    ProductPositive(rms, rms, square);
    assert square * crestSquare == peak * peak by {
      assert (rms * rms) * (crest * crest) == (rms * crest) * (rms * crest);
    }
    assert square * crestSquare <= square * n;
    DivideOut(square, crestSquare, n);
  }

  lemma ProductPositive(a: real, b: real, product: real)
    requires a > 0.0 && b > 0.0 && product == a * b
    ensures product > 0.0
  {
    PositiveProduct(a, b);
  }

  /** The published contract, where a null value is always accepted. */
  predicate InRange(value: Option<real>, low: real, high: real) {
    value.None? || low <= value.value <= high
  }

  /** The rule that reports a vibration peak below its RMS. */
  predicate PeakBelowRms(m: Measurements) {
    m.vibrationPeak.Some? && m.vibrationRms.Some? && m.vibrationPeak.value + 0.000000001 < m.vibrationRms.value
  }

  /**
   * Every window of a validated configuration meets the contract ranges of temperature,
   * current, peak and crest factor, cannot raise the peak-below-RMS diagnostic, and is
   * of good quality exactly where every expected sample was accepted.
   */
  lemma WindowMeetsContract(sampleMs: nat, telemetryMs: nat, samples: seq<Sample>, sqrt: real -> real)
    requires TimingValid(sampleMs, telemetryMs) && |samples| == telemetryMs / sampleMs && IsRoot(sqrt)
    ensures var m := Finished(Gathered(|samples|, samples), sqrt);
            && InRange(m.temperature, -80.0, 200.0) && InRange(m.current, -0.1, 10.0)
            && InRange(m.vibrationPeak, 0.0, 4000.0) && InRange(m.crestFactor, 1.0, 78.0)
            && !PeakBelowRms(m) && (m.vibrationRms.Some? ==> m.vibrationRms.value <= m.vibrationPeak.value)
            && (m.temperatureQuality.status.Good? <==> AllAccepted(Temperatures(samples), -80.0, 200.0))
            && (m.currentQuality.status.Good? <==> AllAccepted(Currents(samples), -0.1, 10.0))
            && (m.vibrationQuality.status.Good? <==> AllAccepted(Vibrations(samples), -4000.0, 4000.0))
  {
    hide Total, AllAccepted, CrestOf, MeanOf, QualityOf;
    ExpectedSamples(sampleMs, telemetryMs);
    MeanChannel(Temperatures(samples), -80.0, 200.0);
    MeanChannel(Currents(samples), -0.1, 10.0);
    VibrationContract(Vibrations(samples), sqrt);
  }

  lemma VibrationContract(readings: seq<Reading>, sqrt: real -> real)
    requires 0 < |readings| <= 6000 && IsRoot(sqrt)
    ensures var c := Total(readings, -4000.0, 4000.0, true);
            && 0.0 <= c.peak <= 4000.0 && InRange(CrestOf(c, sqrt), 1.0, 78.0)
            && (c.valid > 0 ==> RmsOf(c, sqrt).value <= c.peak)
            && (QualityOf(c, |readings|).status.Good? <==> AllAccepted(readings, -4000.0, 4000.0))
  {
    hide Total, AllAccepted;
    ValidCounts(readings, -4000.0, 4000.0, true);
    VibrationChannel(readings, sqrt);
  }

  ghost predicate AllAccepted(readings: seq<Reading>, low: real, high: real) {
    forall reading | reading in readings :: Accepted(reading, low, high)
  }

  lemma {:induction false} AllAcceptedCounts(readings: seq<Reading>, low: real, high: real)
    ensures AllAccepted(readings, low, high) <==> CountAccepted(readings, low, high) == |readings|
    ensures CountAccepted(readings, low, high) <= |readings|
  {
    if readings != [] {
      AllAcceptedCounts(readings[..|readings| - 1], low, high);
      assert readings == readings[..|readings| - 1] + [readings[|readings| - 1]];
    }
  }

  lemma MeanChannel(readings: seq<Reading>, low: real, high: real)
    requires 0 < |readings| <= 6000
    ensures var c := Total(readings, low, high, false);
            && InRange(MeanOf(c), low, high)
            && (QualityOf(c, |readings|).status.Good? <==> AllAccepted(readings, low, high))
  {
    hide Total, Accepted;
    SumBetween(readings, low, high);
    ValidCounts(readings, low, high, false);
    AllAcceptedCounts(readings, low, high);
    var c := Total(readings, low, high, false);
    if c.valid > 0 {
      MeanBetween(c.valid, c.sum, low, high);
    }
  }

  /** In every window RMS <= peak and peak^2 <= valid * RMS^2; up to 6000 samples bound the crest factor. */
  lemma VibrationChannel(readings: seq<Reading>, sqrt: real -> real)
    requires 0 < |readings| < TWO_16 && IsRoot(sqrt)
    ensures var c := Total(readings, -4000.0, 4000.0, true);
            && 0.0 <= c.peak <= 4000.0
            && (QualityOf(c, |readings|).status.Good? <==> AllAccepted(readings, -4000.0, 4000.0))
            && (c.valid > 0 ==> RmsInBounds(c, sqrt(c.sum / c.valid as real)))
  {
    hide Total, Accepted, AllAccepted, RmsInBounds;
    PeakBoundsSquares(readings, 4000.0);
    ValidCounts(readings, -4000.0, 4000.0, true);
    AllAcceptedCounts(readings, -4000.0, 4000.0);
    RootInBounds(Total(readings, -4000.0, 4000.0, true), sqrt);
  }

  ghost predicate RmsInBounds(c: Channel, rms: real) {
    && rms <= c.peak && c.peak * c.peak <= c.valid as real * (rms * rms)
    && (rms > 0.000001 && c.valid <= 6000 ==> 1.0 <= c.peak / rms <= 78.0)
  }

  lemma RootInBounds(c: Channel, sqrt: real -> real)
    requires PeakBounds(c, 4000.0) && IsRoot(sqrt)
    ensures c.valid > 0 ==> RmsInBounds(c, sqrt(c.sum / c.valid as real))
  {
    if c.valid > 0 {
      var square, rms := c.sum / c.valid as real, sqrt(c.sum / c.valid as real);
      assert c.peak * c.peak >= 0.0;
      assert square >= 0.0;
      RmsBounds(c.valid, c.sum, c.peak, rms);
      if rms > 0.000001 && c.valid <= 6000 {
        CrestBounds(c.valid, c.peak, rms);
      }
    }
  }

  // ----- what the measurements are, written on the readings

  /** The accepted readings, added up. */
  function AcceptedSum(readings: seq<Reading>, low: real, high: real): real {
    if readings == [] then 0.0
    else
      var last, before := readings[|readings| - 1], AcceptedSum(readings[..|readings| - 1], low, high);
      if Accepted(last, low, high) then before + last.value.value else before
  }

  /** The squares of the accepted readings, added up. */
  function Energy(readings: seq<Reading>, low: real, high: real): real {
    if readings == [] then 0.0
    else
      var last, before := readings[|readings| - 1], Energy(readings[..|readings| - 1], low, high);
      if Accepted(last, low, high) then before + last.value.value * last.value.value else before
  }

  lemma {:induction false} SumIsAccepted(readings: seq<Reading>, low: real, high: real)
    ensures Total(readings, low, high, false).sum == AcceptedSum(readings, low, high)
  {
    if readings != [] {
      SumIsAccepted(readings[..|readings| - 1], low, high);
    }
  }

  lemma {:induction false} SumIsEnergy(readings: seq<Reading>, low: real, high: real)
    ensures Total(readings, low, high, true).sum == Energy(readings, low, high)
  {
    if readings != [] {
      SumIsEnergy(readings[..|readings| - 1], low, high);
    }
  }

  /** The peak is the magnitude of some accepted reading, and no accepted reading has a larger one. */
  ghost predicate IsPeak(readings: seq<Reading>, high: real, peak: real) {
    && (exists r | r in readings :: Accepted(r, -high, high) && Abs(r.value.value) == peak)
    && (forall r | r in readings && Accepted(r, -high, high) :: Abs(r.value.value) <= peak)
  }

  /** No peak yet, or the peak. */
  ghost predicate PeakSoFar(readings: seq<Reading>, high: real, peak: real) {
    if CountAccepted(readings, -high, high) == 0
    then peak == 0.0 && forall r | r in readings :: !Accepted(r, -high, high)
    else IsPeak(readings, high, peak)
  }

  lemma PeakSoFarStep(before: seq<Reading>, last: Reading, high: real, peak: real)
    requires PeakSoFar(before, high, peak)
    ensures var larger := Accepted(last, -high, high) && Abs(last.value.value) > peak;
            PeakSoFar(before + [last], high, if larger then Abs(last.value.value) else peak)
  {
    var all, n := before + [last], CountAccepted(before, -high, high);
    assert all[..|all| - 1] == before;
    hide Abs;
    assert last in all && forall r | r in before :: r in all;
    if n == 0 && Accepted(last, -high, high) {
      AbsNonNegative(last.value.value);
    } else if n > 0 {
      var r :| r in before && Accepted(r, -high, high) && Abs(r.value.value) == peak;
    }
  }

  lemma AbsNonNegative(x: real)
    ensures Abs(x) >= 0.0 && (Abs(x) == 0.0 <==> x == 0.0)
  {
  }

  lemma {:induction false} PeakIsLargest(readings: seq<Reading>, high: real)
    ensures PeakSoFar(readings, high, Total(readings, -high, high, true).peak)
  {
    if readings != [] {
      var before, last := readings[..|readings| - 1], readings[|readings| - 1];
      assert readings == before + [last];
      PeakIsLargest(before, high);
      PeakSoFarStep(before, last, high, Total(before, -high, high, true).peak);
      hide PeakSoFar, Abs;
    }
  }

  /** From best to worst. */
  const STATUSES: seq<SensorStatus> := [Good, Missing, Stuck, OutOfRange, Noisy, RateInvalid, DriverError]

  /** A rejected reading counts with its own status, and as out of range if that is good. */
  ghost predicate Blames(reading: Reading, status: SensorStatus) {
    if reading.status == Good then status == OutOfRange else status == reading.status
  }

  /** Some rejected reading counts with status number `k`, and none with a worse one. */
  ghost predicate WorstIs(readings: seq<Reading>, low: real, high: real, k: nat)
    requires k < |STATUSES|
  {
    && (exists r | r in readings :: !Accepted(r, low, high) && Blames(r, STATUSES[k]))
    && (forall r | r in readings && !Accepted(r, low, high) :: exists j | 0 <= j <= k :: Blames(r, STATUSES[j]))
  }

  ghost predicate IsWorst(readings: seq<Reading>, low: real, high: real, status: SensorStatus) {
    exists k | 0 <= k < |STATUSES| :: status == STATUSES[k] && WorstIs(readings, low, high, k)
  }

  /** In terms of the code's ranks. */
  ghost predicate RankedWorst(readings: seq<Reading>, low: real, high: real, status: SensorStatus) {
    && (status != Good ==> exists r | r in readings :: !Accepted(r, low, high) && RejectedStatus(r) == status)
    && (forall r | r in readings && !Accepted(r, low, high) :: RejectedStatus(r).Rank() <= status.Rank())
  }

  lemma {:induction false} StatusIsRankedWorst(readings: seq<Reading>, low: real, high: real, squared: bool)
    ensures RankedWorst(readings, low, high, Total(readings, low, high, squared).status)
  {
    if readings != [] {
      var before, last := readings[..|readings| - 1], readings[|readings| - 1];
      assert readings == before + [last];
      StatusIsRankedWorst(before, low, high, squared);
      RankedWorstStep(before, last, low, high, Total(before, low, high, squared).status);
      hide RankedWorst, Merge, RejectedStatus;
    }
  }

  lemma RankedWorstStep(before: seq<Reading>, last: Reading, low: real, high: real, status: SensorStatus)
    requires RankedWorst(before, low, high, status)
    ensures RankedWorst(before + [last], low, high,
                        if Accepted(last, low, high) then status else Merge(status, RejectedStatus(last)))
  {
    var all := before + [last];
    assert last in all && forall r | r in before :: r in all;
    if status != Good {
      var r :| r in before && !Accepted(r, low, high) && RejectedStatus(r) == status;
    }
    hide Accepted, RejectedStatus;
  }

  lemma RankIsPlace(reading: Reading)
    ensures RejectedStatus(reading).Rank() < |STATUSES| && RejectedStatus(reading) != Good
    ensures forall k | 0 <= k < |STATUSES| :: Blames(reading, STATUSES[k]) <==> RejectedStatus(reading).Rank() == k
    ensures STATUSES[RejectedStatus(reading).Rank()] == RejectedStatus(reading)
  {
  }

  lemma WorstFromRank(readings: seq<Reading>, low: real, high: real, status: SensorStatus)
    requires RankedWorst(readings, low, high, status) && status != Good
    ensures IsWorst(readings, low, high, status)
  {
    hide Accepted, RejectedStatus, Blames;
    var worst :| worst in readings && !Accepted(worst, low, high) && RejectedStatus(worst) == status;
    RankIsPlace(worst);
    var k := status.Rank();
    forall r | r in readings && !Accepted(r, low, high)
      ensures exists j | 0 <= j <= k :: Blames(r, STATUSES[j])
    {
      RankIsPlace(r);
      assert Blames(r, STATUSES[RejectedStatus(r).Rank()]);
    }
    assert WorstIs(readings, low, high, k);
  }

  /** The reported status, and how many readings of how many expected ones were accepted. */
  ghost predicate Reports(q: Quality, readings: seq<Reading>, low: real, high: real, expected: nat) {
    && q.valid == CountAccepted(readings, low, high) && q.expected == expected
    && if AllAccepted(readings, low, high) then q.status == if q.valid < expected then Missing else Good
       else IsWorst(readings, low, high, q.status)
  }

  lemma QualityReports(readings: seq<Reading>, low: real, high: real, squared: bool, expected: nat)
    requires |readings| < TWO_16
    ensures Reports(QualityOf(Total(readings, low, high, squared), expected), readings, low, high, expected)
  {
    ValidCounts(readings, low, high, squared);
    AllAcceptedCounts(readings, low, high);
    StatusIsRankedWorst(readings, low, high, squared);
    hide Total, AllAccepted, CountAccepted, IsWorst, RankedWorst;
    var status := Total(readings, low, high, squared).status;
    if status != Good {
      WorstFromRank(readings, low, high, status);
    }
  }

  /** The mean of the accepted readings; None if there are none. */
  ghost predicate IsMean(mean: Option<real>, readings: seq<Reading>, low: real, high: real) {
    var n := CountAccepted(readings, low, high);
    && (mean.Some? <==> n > 0)
    && (mean.Some? ==> n as real * mean.value == AcceptedSum(readings, low, high))
  }

  lemma MeanIsMean(readings: seq<Reading>, low: real, high: real)
    requires |readings| < TWO_16
    ensures IsMean(MeanOf(Total(readings, low, high, false)), readings, low, high)
  {
    ValidCounts(readings, low, high, false);
    SumIsAccepted(readings, low, high);
    hide Total, AcceptedSum, CountAccepted;
  }

  /** `n` times the square of `bound`. */
  function Budget(n: nat, bound: real): real { n as real * (bound * bound) }

  /** The root of the mean square of the accepted readings; None if there are none. */
  ghost predicate IsRms(rms: Option<real>, readings: seq<Reading>, high: real) {
    var n := CountAccepted(readings, -high, high);
    && (rms.Some? <==> n > 0)
    && (rms.Some? ==> rms.value >= 0.0 && Budget(n, rms.value) == Energy(readings, -high, high))
  }

  /** The ratio of peak and root mean square, where the latter is not nearly zero. */
  ghost predicate IsCrest(crest: Option<real>, rms: Option<real>, peak: real) {
    && (crest.Some? <==> rms.Some? && rms.value > 0.000001)
    && (crest.Some? ==> crest.value * rms.value == peak)
  }

  ghost predicate Vibrates(m: Measurements, readings: seq<Reading>, high: real) {
    var (n, peak) := (CountAccepted(readings, -high, high), m.vibrationPeak);
    && IsRms(m.vibrationRms, readings, high)
    && (peak.Some? <==> n > 0) && (peak.Some? ==> IsPeak(readings, high, peak.value))
    && IsCrest(m.crestFactor, m.vibrationRms, if peak.Some? then peak.value else 0.0)
  }

  lemma MultiplyBack(n: real, quotient: real, x: real)
    requires n != 0.0 && quotient == x / n
    ensures n * quotient == x && quotient * n == x
  {
  }

  lemma RootSpendsSum(c: Channel, high: real, sqrt: real -> real)
    requires PeakBounds(c, high) && IsRoot(sqrt) && c.valid > 0
    ensures var rms := sqrt(c.sum / c.valid as real); rms >= 0.0 && Budget(c.valid, rms) == c.sum
  {
    RootFacts(c, high, sqrt);
    var rms := sqrt(c.sum / c.valid as real);
    hide IsRoot, PeakBounds;
    MultiplyBack(c.valid as real, rms * rms, c.sum);
  }

  lemma RmsIsRms(readings: seq<Reading>, high: real, sqrt: real -> real)
    requires |readings| < TWO_16 && high >= 0.0 && IsRoot(sqrt)
    ensures IsRms(RmsOf(Total(readings, -high, high, true), sqrt), readings, high)
  {
    PeakBoundsSquares(readings, high);
    ValidCounts(readings, -high, high, true);
    SumIsEnergy(readings, -high, high);
    hide Total, Energy, CountAccepted, Budget, IsRoot, PeakBounds;
    var c := Total(readings, -high, high, true);
    if c.valid > 0 {
      RootSpendsSum(c, high, sqrt);
    }
  }

  lemma CrestIsRatio(c: Channel, sqrt: real -> real)
    ensures IsCrest(CrestOf(c, sqrt), RmsOf(c, sqrt), c.peak)
  {
    hide RmsOf;
    var rms := RmsOf(c, sqrt);
    if rms.Some? && rms.value > 0.000001 {
      MultiplyBack(rms.value, c.peak / rms.value, c.peak);
    }
  }

  lemma VibrationIsMeasured(expected: nat, samples: seq<Sample>, sqrt: real -> real)
    requires |samples| < TWO_16 && IsRoot(sqrt)
    ensures Vibrates(Finished(Gathered(expected, samples), sqrt), Vibrations(samples), 4000.0)
  {
    var readings := Vibrations(samples);
    var c := Total(readings, -4000.0, 4000.0, true);
    PeakIsLargest(readings, 4000.0);
    ValidCounts(readings, -4000.0, 4000.0, true);
    RmsIsRms(readings, 4000.0, sqrt);
    CrestIsRatio(c, sqrt);
    assert c.valid == 0 ==> RmsOf(c, sqrt).None? && CrestOf(c, sqrt).None?;
    hide Total, CountAccepted, IsPeak, IsRoot, MeanOf, RmsOf, CrestOf, QualityOf, IsRms;
  }

  /**
   * Whatever samples a window is given: it reports their means, root mean square, peak and crest factor, how many were
   * accepted, and the worst fault among those that were not.
   */
  lemma WindowMeasures(expected: nat, samples: seq<Sample>, sqrt: real -> real)
    requires |samples| < TWO_16 && IsRoot(sqrt)
    ensures var m := Finished(Gathered(expected, samples), sqrt);
            var (t, c, v) := (Temperatures(samples), Currents(samples), Vibrations(samples));
            var n := if expected == 0 then 1 else expected;
            && IsMean(m.temperature, t, -80.0, 200.0) && IsMean(m.current, c, -0.1, 10.0) && Vibrates(m, v, 4000.0)
            && Reports(m.temperatureQuality, t, -80.0, 200.0, n) && Reports(m.currentQuality, c, -0.1, 10.0, n)
            && Reports(m.vibrationQuality, v, -4000.0, 4000.0, n)
  {
    var n := if expected == 0 then 1 else expected;
    MeanIsMean(Temperatures(samples), -80.0, 200.0);
    MeanIsMean(Currents(samples), -0.1, 10.0);
    VibrationIsMeasured(expected, samples, sqrt);
    QualityReports(Temperatures(samples), -80.0, 200.0, false, n);
    QualityReports(Currents(samples), -0.1, 10.0, false, n);
    QualityReports(Vibrations(samples), -4000.0, 4000.0, true, n);
    hide Total, IsMean, MeanOf, Vibrates, Reports, QualityOf, IsRoot;
  }

  // ----- the contract's bound on RMS

  const RMS_MAXIMUM: real := 2000.0

  lemma RootWithin(n: nat, sum: real, rms: real, bound: real)
    requires n > 0 && rms >= 0.0 && rms * rms == sum / n as real && bound >= 0.0
    ensures rms <= bound <==> sum <= Budget(n, bound)
  {
    assert sum == n as real * (rms * rms);
    if rms <= bound {
      SquareBound(rms, bound);
      MulMonotone(n as real, rms * rms, bound * bound);
    }
    if sum <= n as real * (bound * bound) {
      DivideOut(n as real, rms * rms, bound * bound);
      SquaresOrder(rms, bound);
    }
  }

  /** RMS over readings accepted up to `high` stays within `bound`, or there is none. */
  ghost predicate RmsWithin(readings: seq<Reading>, high: real, bound: real, sqrt: real -> real) {
    InRange(RmsOf(Total(readings, -high, high, true), sqrt), 0.0, bound)
  }

  lemma RootFacts(c: Channel, high: real, sqrt: real -> real)
    requires PeakBounds(c, high) && IsRoot(sqrt) && c.valid > 0
    ensures var rms := sqrt(c.sum / c.valid as real);
            0.0 <= rms <= high && rms * rms == c.sum / c.valid as real
  {
    var square := c.sum / c.valid as real;
    assert c.peak * c.peak >= 0.0;
    assert square >= 0.0;
    RmsBounds(c.valid, c.sum, c.peak, sqrt(square));
  }

  /** Exactly the windows whose accepted squares add up to at most bound^2 each keep RMS within the bound. */
  lemma RmsWithinBound(readings: seq<Reading>, high: real, bound: real, sqrt: real -> real)
    requires |readings| < TWO_16 && high >= 0.0 && bound >= 0.0 && IsRoot(sqrt)
    ensures RmsWithin(readings, high, bound, sqrt) <==>
            Energy(readings, -high, high) <= Budget(CountAccepted(readings, -high, high), bound)
  {
    PeakBoundsSquares(readings, high);
    ValidCounts(readings, -high, high, true);
    SumIsEnergy(readings, -high, high);
    hide Total, Energy, CountAccepted;
    var c := Total(readings, -high, high, true);
    if c.valid > 0 {
      RootFacts(c, high, sqrt);
      hide PeakBounds, IsRoot, Budget;
      RootWithin(c.valid, c.sum, sqrt(c.sum / c.valid as real), bound);
    } else {
      hide Budget;
      NothingAccepted(c, high);
    }
  }

  lemma NothingAccepted(c: Channel, high: real)
    requires PeakBounds(c, high) && c.valid == 0
    ensures c.sum == 0.0
    ensures forall bound: real :: Budget(0, bound) == 0.0
  {
    assert c.peak * c.peak >= 0.0;
  }

  /**
   * The contract's RMS maximum of 2000 holds exactly for windows whose accepted squares add up to at most
   * four million times their number; a peak of at most 2000 suffices.
   */
  lemma RmsMeetsContract(sampleMs: nat, telemetryMs: nat, samples: seq<Sample>, sqrt: real -> real)
    requires TimingValid(sampleMs, telemetryMs) && |samples| == telemetryMs / sampleMs && IsRoot(sqrt)
    ensures var m, readings := Finished(Gathered(|samples|, samples), sqrt), Vibrations(samples);
            && (InRange(m.vibrationRms, 0.0, RMS_MAXIMUM) <==>
                  Energy(readings, -4000.0, 4000.0) <= CountAccepted(readings, -4000.0, 4000.0) as real * 4_000_000.0)
            && (InRange(m.vibrationPeak, 0.0, RMS_MAXIMUM) ==> InRange(m.vibrationRms, 0.0, RMS_MAXIMUM))
  {
    hide Total, Energy, CountAccepted;
    ExpectedSamples(sampleMs, telemetryMs);
    RmsWithinBound(Vibrations(samples), 4000.0, RMS_MAXIMUM, sqrt);
    assert RMS_MAXIMUM * RMS_MAXIMUM == 4_000_000.0;
    WindowMeetsContract(sampleMs, telemetryMs, samples, sqrt);
    RootNonNegative(Vibrations(samples), sqrt);
  }

  lemma RootNonNegative(readings: seq<Reading>, sqrt: real -> real)
    requires |readings| < TWO_16 && IsRoot(sqrt)
    ensures var rms := RmsOf(Total(readings, -4000.0, 4000.0, true), sqrt); rms.Some? ==> rms.value >= 0.0
  {
    PeakBoundsSquares(readings, 4000.0);
    hide Total, PeakBounds, IsRoot;
    var c := Total(readings, -4000.0, 4000.0, true);
    if c.valid > 0 {
      RootFacts(c, 4000.0, sqrt);
    }
  }

  lemma OneReading(x: real, high: real)
    requires 0.0 <= x <= high
    ensures Energy([Reading(Some(x), Good)], -high, high) == x * x
    ensures CountAccepted([Reading(Some(x), Good)], -high, high) == 1
  {
    var readings := [Reading(Some(x), Good)];
    assert readings[..0] == [] && Accepted(readings[0], -high, high);
  }

  /** 2000 is the largest acceptance limit under which every window meets the contract; the code accepts up to 4000. */
  lemma LargestSafeLimit(high: real, sqrt: real -> real)
    requires high >= 0.0 && IsRoot(sqrt)
    ensures (forall readings | |readings| < TWO_16 :: RmsWithin(readings, high, RMS_MAXIMUM, sqrt)) <==>
            high <= RMS_MAXIMUM
  {
    hide Total, Energy, CountAccepted, RmsWithin;
    if high <= RMS_MAXIMUM {
      forall readings | |readings| < TWO_16
        ensures RmsWithin(readings, high, RMS_MAXIMUM, sqrt)
      {
        LimitSuffices(readings, high, sqrt);
      }
    } else {
      var readings := [Reading(Some(high), Good)];
      OneReading(high, high);
      RmsWithinBound(readings, high, RMS_MAXIMUM, sqrt);
      SquaresGrow(high, RMS_MAXIMUM);
      assert !RmsWithin(readings, high, RMS_MAXIMUM, sqrt);
    }
  }

  lemma LimitSuffices(readings: seq<Reading>, high: real, sqrt: real -> real)
    requires |readings| < TWO_16 && 0.0 <= high <= RMS_MAXIMUM && IsRoot(sqrt)
    ensures RmsWithin(readings, high, RMS_MAXIMUM, sqrt)
  {
    PeakBoundsSquares(readings, high);
    hide Total, PeakBounds, IsRoot;
    var c := Total(readings, -high, high, true);
    if c.valid > 0 {
      RootFacts(c, high, sqrt);
    }
  }

  /** With the code's limit of 4000 one accepted sample is enough to exceed it, in a window of good quality. */
  lemma RmsMayExceedContract(x: real, sqrt: real -> real)
    requires RMS_MAXIMUM < x <= VIBRATION_HIGH && IsRoot(sqrt)
    ensures var ok := Reading(Some(0.0), Good);
            var m := Finished(Gathered(1, [Sample(ok, ok, Reading(Some(x), Good))]), sqrt);
            m.vibrationRms.Some? && m.vibrationRms.value > RMS_MAXIMUM && m.vibrationQuality.status.Good?
  {
    var readings, ok := [Reading(Some(x), Good)], Reading(Some(0.0), Good);
    assert Vibrations([Sample(ok, ok, Reading(Some(x), Good))]) == readings;
    OneReading(x, VIBRATION_HIGH);
    ValidCounts(readings, -VIBRATION_HIGH, VIBRATION_HIGH, true);
    RmsWithinBound(readings, VIBRATION_HIGH, RMS_MAXIMUM, sqrt);
    SquaresGrow(x, RMS_MAXIMUM);
    RootNonNegative(readings, sqrt);
    hide Total, Energy, CountAccepted;
  }
}

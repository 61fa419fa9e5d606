/** The firmware's three-state threshold with hysteresis, and a bound on its chatter. */
module Thresholds {
  import opened Options

  datatype Limits = Limits(warning: real, critical: real, hysteresisPercent: real) {
    /** What both sides' configuration checks guarantee about a threshold pair. */
    predicate Valid() {
      warning < critical && 1.0 <= hysteresisPercent <= 25.0
    }
  }

  datatype State = Normal | Warning | Critical

  function ClearLevel(level: real, hysteresisPercent: real): real {
    level * (1.0 - hysteresisPercent / 100.0)
  }

  /** `reading` is None when the sample is invalid or not finite. */
  function Update(limits: Limits, previous: State, reading: Option<real>): State {
    if reading.None? then previous
    else
      var value := reading.value;
      if value >= limits.critical then Critical
      else if previous.Critical? && value >= ClearLevel(limits.critical, limits.hysteresisPercent) then Critical
      else if value >= limits.warning then Warning
      else if !previous.Normal? && value >= ClearLevel(limits.warning, limits.hysteresisPercent) then Warning
      else Normal
  }

  function Run(limits: Limits, start: State, readings: seq<Option<real>>): State {
    if readings == [] then start
    else Update(limits, Run(limits, start, readings[..|readings| - 1]), readings[|readings| - 1])
  }

  // ----- chatter

  /** How often a run of valid readings goes from NORMAL into alarm. */
  function Entries(limits: Limits, state: State, readings: seq<real>): nat
    decreases |readings|
  {
    if readings == [] then 0
    else
      var next := Update(limits, state, Some(readings[0]));
      (if state.Normal? && !next.Normal? then 1 else 0) + Entries(limits, next, readings[1..])
  }

  function Distance(a: real, b: real): real { if a < b then b - a else a - b }

  /** Total variation of the readings that follow `last`. */
  function VariationFrom(last: real, readings: seq<real>): real
    decreases |readings|
  {
    if readings == [] then 0.0 else Distance(last, readings[0]) + VariationFrom(readings[0], readings[1..])
  }

  function Variation(readings: seq<real>): real {
    if readings == [] then 0.0 else VariationFrom(readings[0], readings[1..])
  }

  /** The width of the warning band. */
  function Band(limits: Limits): real { limits.warning * limits.hysteresisPercent / 100.0 }

  lemma BandEdge(limits: Limits)
    ensures ClearLevel(limits.warning, limits.hysteresisPercent) == limits.warning - Band(limits)
  {
  }

  /** The critical level clears above the warning level's clearing level. */
  lemma CriticalClearsHigher(limits: Limits)
    requires limits.Valid()
    ensures ClearLevel(limits.critical, limits.hysteresisPercent) >=
            ClearLevel(limits.warning, limits.hysteresisPercent)
  {
    var share := 1.0 - limits.hysteresisPercent / 100.0;
    assert (limits.critical - limits.warning) * share >= 0.0;
  }

  /** In alarm exactly when at the warning level, or still inside the band. */
  lemma AlarmRule(limits: Limits, previous: State, value: real)
    requires limits.Valid()
    ensures Update(limits, previous, Some(value)) != Normal <==>
            value >= limits.warning || (previous != Normal && value >= limits.warning - Band(limits))
  {
    BandEdge(limits);
    CriticalClearsHigher(limits);
  }

  lemma BandPositive(limits: Limits)
    requires limits.Valid() && limits.warning > 0.0
    ensures Band(limits) > 0.0
  {
  }

  /** `n` times `b`. */
  function Times(n: nat, b: real): real {
    if n == 0 then 0.0 else b + Times(n - 1, b)
  }

  lemma {:induction false} TimesIsProduct(n: nat, b: real)
    ensures Times(n, b) == n as real * b
  {
    if n > 0 {
      TimesIsProduct(n - 1, b);
      OneMoreTime(n - 1, b);
    }
  }

  lemma OneMoreTime(n: nat, b: real)
    ensures (n + 1) as real * b == b + n as real * b
  {
    assert (n + 1) as real == n as real + 1.0;
  }

  /** What the readings after `last` must vary by to enter alarm `Entries` more times. */
  lemma {:induction false} ChatterFrom(limits: Limits, state: State, last: real, readings: seq<real>)
    requires limits.Valid() && limits.warning > 0.0
    requires state.Normal? ==> last < limits.warning
    requires !state.Normal? ==> last >= limits.warning - Band(limits)
    ensures var k := Entries(limits, state, readings);
            k >= 1 ==>
              VariationFrom(last, readings) >=
                if state.Normal? then limits.warning - last + 2.0 * Times(k - 1, Band(limits))
                else last - limits.warning + 2.0 * Times(k, Band(limits))
    decreases |readings|
  {
    hide Band, Update, Limits.Valid;
    if readings != [] {
      var value, rest := readings[0], readings[1..];
      var next := Update(limits, state, Some(value));
      AlarmRule(limits, state, value);
      BandPositive(limits);
      ChatterFrom(limits, next, value, rest);
      VariationNonNegative(value, rest);
    }
  }

  lemma {:induction false} VariationNonNegative(last: real, readings: seq<real>)
    ensures VariationFrom(last, readings) >= 0.0
    decreases |readings|
  {
    if readings != [] {
      VariationNonNegative(readings[0], readings[1..]);
    }
  }

  lemma ChatterTimes(limits: Limits, readings: seq<real>)
    requires limits.Valid() && limits.warning > 0.0
    ensures var k := Entries(limits, Normal, readings);
            k >= 1 ==> Variation(readings) >= 2.0 * Times(k - 1, Band(limits))
  {
    assert Times(0, Band(limits)) == 0.0;
    hide Band, Update, Limits.Valid, Times;
    if readings != [] {
      var first, rest := readings[0], readings[1..];
      var next := Update(limits, Normal, Some(first));
      AlarmRule(limits, Normal, first);
      BandPositive(limits);
      ChatterFrom(limits, next, first, rest);
      VariationNonNegative(first, rest);
    }
  }

  lemma TwiceTimes(n: nat, b: real)
    ensures 2.0 * Times(n, b) == 2.0 * (n as real * b)
  {
    TimesIsProduct(n, b);
    hide Times;
  }

  /** Entering alarm k >= 1 times from NORMAL takes a total variation of at least 2 (k - 1) bands. */
  lemma ChatterBound(limits: Limits, readings: seq<real>)
    requires limits.Valid() && limits.warning > 0.0
    ensures var k := Entries(limits, Normal, readings);
            k >= 1 ==> Variation(readings) >= 2.0 * ((k - 1) as real * Band(limits))
  {
    hide Band, Entries, Limits.Valid, Times, Variation;
    var k := Entries(limits, Normal, readings);
    if k >= 1 {
      ChatterTimes(limits, readings);
      TwiceTimes(k - 1, Band(limits));
    }
  }

  /** `n` times down to `bottom` and back to `top`. */
  function Zigzag(top: real, bottom: real, n: nat): seq<real> {
    if n == 0 then [] else [bottom, top] + Zigzag(top, bottom, n - 1)
  }

  lemma {:induction false} ZigzagRuns(limits: Limits, bottom: real, n: nat)
    requires limits.Valid() && bottom < limits.warning - Band(limits) && bottom < limits.warning
    ensures Entries(limits, Warning, Zigzag(limits.warning, bottom, n)) == n
    ensures VariationFrom(limits.warning, Zigzag(limits.warning, bottom, n)) ==
            2.0 * Times(n, limits.warning - bottom)
  {
    hide Band;
    if n > 0 {
      var w, rest := limits.warning, Zigzag(limits.warning, bottom, n - 1);
      ZigzagRuns(limits, bottom, n - 1);
      AlarmRule(limits, Warning, bottom);
      assert Zigzag(w, bottom, n)[1..] == [w] + rest;
      assert ([w] + rest)[1..] == rest;
      assert Entries(limits, Normal, [w] + rest) == 1 + Entries(limits, Warning, rest);
    }
  }

  /** The bound is sharp: for every margin a run enters alarm k times with 2 (k - 1) (band + margin). */
  lemma ChatterBoundSharp(limits: Limits, k: nat, margin: real)
    requires limits.Valid() && limits.warning > 0.0 && k >= 1 && margin > 0.0
    ensures exists readings ::
              && Entries(limits, Normal, readings) == k
              && Variation(readings) == 2.0 * ((k - 1) as real * (Band(limits) + margin))
  {
    hide Band;
    var w := limits.warning;
    var bottom := w - Band(limits) - margin;
    BandPositive(limits);
    ZigzagRuns(limits, bottom, k - 1);
    TimesIsProduct(k - 1, w - bottom);
    var readings := [w] + Zigzag(w, bottom, k - 1);
    assert readings[1..] == Zigzag(w, bottom, k - 1);
    assert Entries(limits, Normal, readings) == k;
    assert w - bottom == Band(limits) + margin;
  }
}

/** Causal rolling feature windows over one device's samples. */
module Features {
  import opened Options

  datatype Sample = Sample(id: int, time: real, temperature: Option<real>, vibrationRms: Option<real>,
                           vibrationPeak: Option<real>, crestFactor: Option<real>, current: Option<real>,
                           goodQuality: bool, faulty: bool) {
    predicate Finite() {
      temperature.Some? && vibrationRms.Some? && vibrationPeak.Some? && crestFactor.Some? && current.Some?
    }

    predicate Healthy() { goodQuality && !faulty && Finite() }
  }

  /** Window size, smallest usable window, largest gap in seconds, and whether every sample must be healthy. */
  datatype Settings = Settings(windowSize: nat, minimumWindow: nat, maximumGap: real, healthyOnly: bool) {
    predicate Valid() { windowSize >= minimumWindow >= 2 }
  }

  const DEFAULT_SETTINGS: Settings := Settings(12, 6, 30.0, false)

  datatype FeatureRow<V> = FeatureRow(sampleId: int, time: real, values: V)

  // ----- order by (timestamp, id)

  predicate Precedes(a: Sample, b: Sample) {
    a.time < b.time || (a.time == b.time && a.id <= b.id)
  }

  ghost predicate Ordered(s: seq<Sample>) {
    forall i, j | 0 <= i < j < |s| :: Precedes(s[i], s[j])
  }

  function Insert(s: seq<Sample>, x: Sample): (r: seq<Sample>)
    ensures multiset(r) == multiset(s) + multiset{x}
  {
    if s == [] || !Precedes(s[|s| - 1], x) then
      if s == [] then [x]
      else
        assert s == s[..|s| - 1] + [s[|s| - 1]];
        Insert(s[..|s| - 1], x) + [s[|s| - 1]]
    else s + [x]
  }

  /** A stable sort by (timestamp, id). */
  function Sort(s: seq<Sample>): (r: seq<Sample>)
    ensures multiset(r) == multiset(s)
  {
    if s == [] then []
    else
      assert s == s[..|s| - 1] + [s[|s| - 1]];
      Insert(Sort(s[..|s| - 1]), s[|s| - 1])
  }

  lemma {:induction false} InsertOrders(s: seq<Sample>, x: Sample)
    requires Ordered(s)
    ensures Ordered(Insert(s, x))
  {
    if s != [] && !Precedes(s[|s| - 1], x) {
      var r := Insert(s[..|s| - 1], x);
      InsertOrders(s[..|s| - 1], x);
      forall k | 0 <= k < |r|
        ensures Precedes(r[k], s[|s| - 1])
      {
        assert r[k] in multiset(r);
        assert r[k] in s[..|s| - 1] || r[k] == x;
      }
    } else if s != [] {
      forall k | 0 <= k < |s|
        ensures Precedes(s[k], x)
      {
        assert k == |s| - 1 || Precedes(s[k], s[|s| - 1]);
      }
    }
  }

  /** Earlier samples come first, and at one time those of smaller id. */
  lemma {:induction false} SortOrders(s: seq<Sample>)
    ensures Ordered(Sort(s))
    ensures var r := Sort(s);
            forall i, j | 0 <= i < j < |r| :: r[i].time < r[j].time || (r[i].time == r[j].time && r[i].id <= r[j].id)
  {
    if s != [] {
      SortOrders(s[..|s| - 1]);
      InsertOrders(Sort(s[..|s| - 1]), s[|s| - 1]);
    }
  }

  lemma {:induction false} SortKeepsOrdered(s: seq<Sample>)
    requires Ordered(s)
    ensures Sort(s) == s
  {
    if s != [] {
      SortKeepsOrdered(s[..|s| - 1]);
      if |s| > 1 {
        assert Precedes(s[|s| - 2], s[|s| - 1]);
      }
      assert s == s[..|s| - 1] + [s[|s| - 1]];
    }
  }

  // ----- windows

  predicate Gap(s: seq<Sample>, i: nat, settings: Settings)
    requires 0 < i < |s|
  {
    s[i].time - s[i - 1].time > settings.maximumGap
  }

  /** Where the window that ends at `i` begins. */
  function Start(s: seq<Sample>, i: nat, settings: Settings): (start: nat)
    requires i < |s| && settings.Valid()
    ensures start <= i
  {
    if i == 0 || Gap(s, i, settings) then i
    else
      var before := Start(s, i - 1, settings);
      if i + 1 - before > settings.windowSize then before + 1 else before
  }

  function Window(s: seq<Sample>, i: nat, settings: Settings): seq<Sample>
    requires i < |s| && settings.Valid()
  {
    s[Start(s, i, settings)..i + 1]
  }

  /** `start` begins the longest gap-free suffix ending at `i`, cut to the window size. */
  ghost predicate IsStart(s: seq<Sample>, i: nat, settings: Settings, start: nat)
    requires i < |s|
  {
    && start <= i && i + 1 - start <= settings.windowSize
    && (forall k | start < k <= i :: !Gap(s, k, settings))
    && (start == 0 || i + 1 - start == settings.windowSize || Gap(s, start, settings))
  }

  lemma {:induction false} StartIsStart(s: seq<Sample>, i: nat, settings: Settings)
    requires i < |s| && settings.Valid()
    ensures IsStart(s, i, settings, Start(s, i, settings))
  {
    if i != 0 && !Gap(s, i, settings) {
      StartIsStart(s, i - 1, settings);
    }
  }

  lemma StartUnique(s: seq<Sample>, i: nat, settings: Settings, a: nat, b: nat)
    requires i < |s| && IsStart(s, i, settings, a) && IsStart(s, i, settings, b)
    ensures a == b
  {
  }

  /** How the code's segment moves: clear at a gap, append, drop the oldest beyond the window size. */
  lemma WindowStep(s: seq<Sample>, i: nat, settings: Settings)
    requires i < |s| && settings.Valid()
    ensures var kept := if i == 0 || Gap(s, i, settings) then [] else Window(s, i - 1, settings);
            Window(s, i, settings) ==
              if |kept + [s[i]]| > settings.windowSize then (kept + [s[i]])[1..] else kept + [s[i]]
  {
    if i != 0 && !Gap(s, i, settings) {
      var before := Start(s, i - 1, settings);
      assert s[before..i] + [s[i]] == s[before..i + 1];
    }
  }

  predicate Usable(window: seq<Sample>, settings: Settings) {
    && |window| >= settings.minimumWindow
    && (forall x | x in window :: x.Finite())
    && (settings.healthyOnly ==> forall x | x in window :: x.Healthy())
  }

  /** The features at index `i`: none when the window is not usable or a feature is not finite. */
  function FeaturesAt<V>(s: seq<Sample>, i: nat, settings: Settings, extract: seq<Sample> -> Option<V>): Option<V>
    requires i < |s| && settings.Valid()
  {
    if Usable(Window(s, i, settings), settings) then extract(Window(s, i, settings)) else None
  }

  /** The rows of the first `n` indices. */
  function Rows<V>(s: seq<Sample>, n: nat, settings: Settings, extract: seq<Sample> -> Option<V>): seq<FeatureRow<V>>
    requires n <= |s| && settings.Valid()
  {
    if n == 0 then []
    else
      var values := FeaturesAt(s, n - 1, settings, extract);
      Rows(s, n - 1, settings, extract) +
      if values.Some? then [FeatureRow(s[n - 1].id, s[n - 1].time, values.value)] else []
  }

  datatype Result<V> = Failure | Success(rows: seq<FeatureRow<V>>)

  /** `extract` computes the features of a window; None when one of them is not finite. */
  method GenerateFeatures<V>(samples: seq<Sample>, settings: Settings, extract: seq<Sample> -> Option<V>)
    returns (result: Result<V>)
    ensures result == if settings.Valid()
                      then Success(Rows(Sort(samples), |Sort(samples)|, settings, extract)) else Failure
  {
    if settings.windowSize < settings.minimumWindow || settings.minimumWindow < 2 {
      return Failure;
    }
    var ordered := Sort(samples);
    var rows: seq<FeatureRow<V>> := [];
    var segment: seq<Sample> := [];
    var previousTime: Option<real> := None;
    for index := 0 to |ordered|
      invariant rows == Rows(ordered, index, settings, extract)
      invariant previousTime == if index == 0 then None else Some(ordered[index - 1].time)
      invariant segment == if index == 0 then [] else Window(ordered, index - 1, settings)
    {
      WindowStep(ordered, index, settings);
      var sample := ordered[index];
      if previousTime.Some? && sample.time - previousTime.value > settings.maximumGap {
        segment := [];
      }
      previousTime := Some(sample.time);
      segment := segment + [sample];
      if |segment| > settings.windowSize {
        segment := segment[1..];
      }
      assert segment == Window(ordered, index, settings);
      if !Usable(segment, settings) {
        continue;
      }
      var values := extract(segment);
      if values.Some? {
        rows := rows + [FeatureRow(sample.id, sample.time, values.value)];
      }
    }
    result := Success(rows);
  }

  // ----- specification and causality

  /** All five measurements are finite, and in training the quality is good and the machine is not faulty. */
  predicate Counts(x: Sample, healthyOnly: bool) {
    && x.temperature != None && x.vibrationRms != None && x.vibrationPeak != None && x.crestFactor != None
    && x.current != None && (healthyOnly ==> x.goodQuality && !x.faulty)
  }

  lemma UsableCounts(s: seq<Sample>, start: nat, i: nat, settings: Settings)
    requires start <= i < |s|
    ensures Usable(s[start..i + 1], settings) <==>
            i + 1 - start >= settings.minimumWindow &&
            forall k | start <= k <= i :: Counts(s[k], settings.healthyOnly)
  {
    var window := s[start..i + 1];
    if Usable(window, settings) {
      forall k | start <= k <= i
        ensures Counts(s[k], settings.healthyOnly)
      {
        assert window[k - start] == s[k] && s[k] in window;
      }
    }
    if forall k | start <= k <= i :: Counts(s[k], settings.healthyOnly) {
      forall x | x in window
        ensures x.Finite() && (settings.healthyOnly ==> x.Healthy())
      {
        var k :| 0 <= k < |window| && window[k] == x;
        assert Counts(s[start + k], settings.healthyOnly);
      }
    }
  }

  /**
   * A row is emitted at `i` exactly when the longest gap-free suffix, cut to the window size, is long enough, all of it
   * counts, and its features are finite.
   */
  lemma EmittedExactly<V>(s: seq<Sample>, i: nat, settings: Settings, extract: seq<Sample> -> Option<V>, start: nat)
    requires i < |s| && settings.Valid() && IsStart(s, i, settings, start)
    ensures FeaturesAt(s, i, settings, extract) ==
            if i + 1 - start >= settings.minimumWindow
               && forall k | start <= k <= i :: Counts(s[k], settings.healthyOnly)
            then extract(s[start..i + 1]) else None
  {
    StartIsStart(s, i, settings);
    StartUnique(s, i, settings, start, Start(s, i, settings));
    UsableCounts(s, start, i, settings);
    hide IsStart, Start, Usable, Counts;
  }

  /** Index `i` emits the row: its sample's id and time, and the features of its window. */
  ghost predicate Emits<V>(s: seq<Sample>, i: nat, settings: Settings, extract: seq<Sample> -> Option<V>,
                           row: FeatureRow<V>)
    requires i < |s| && settings.Valid()
  {
    FeaturesAt(s, i, settings, extract) == Some(row.values) && row.sampleId == s[i].id && row.time == s[i].time
  }

  /** The rows are those that the indices emit. */
  lemma {:induction false} RowsAreEmitted<V>(s: seq<Sample>, n: nat, settings: Settings,
                                             extract: seq<Sample> -> Option<V>, row: FeatureRow<V>)
    requires n <= |s| && settings.Valid()
    ensures row in Rows(s, n, settings, extract) <==> exists i | 0 <= i < n :: Emits(s, i, settings, extract, row)
  {
    hide FeaturesAt;
    if n > 0 {
      RowsAreEmitted(s, n - 1, settings, extract, row);
      assert row in Rows(s, n, settings, extract) <==>
             row in Rows(s, n - 1, settings, extract) || Emits(s, n - 1, settings, extract, row);
    }
  }

  /** What follows a sample has no influence on its window. */
  lemma {:induction false} StartIsCausal(s: seq<Sample>, m: nat, i: nat, settings: Settings)
    requires i < m <= |s| && settings.Valid()
    ensures Start(s[..m], i, settings) == Start(s, i, settings)
    ensures Window(s[..m], i, settings) == Window(s, i, settings)
  {
    if i != 0 && !Gap(s, i, settings) {
      StartIsCausal(s, m, i - 1, settings);
    }
  }

  /** The features of a prefix of the ordered samples are a prefix of the features of the whole. */
  lemma {:induction false} FeaturesAreCausal<V>(s: seq<Sample>, m: nat, n: nat, settings: Settings,
                                               extract: seq<Sample> -> Option<V>)
    requires m <= n <= |s| && settings.Valid()
    ensures Rows(s[..m], m, settings, extract) <= Rows(s, n, settings, extract)
  {
    SameRows(s, m, m, settings, extract);
    RowsGrow(s, m, n, settings, extract);
  }

  lemma {:induction false} SameRows<V>(s: seq<Sample>, m: nat, n: nat, settings: Settings,
                                       extract: seq<Sample> -> Option<V>)
    requires n <= m <= |s| && settings.Valid()
    ensures Rows(s[..m], n, settings, extract) == Rows(s, n, settings, extract)
  {
    hide Window, Usable;
    if n > 0 {
      SameRows(s, m, n - 1, settings, extract);
      StartIsCausal(s, m, n - 1, settings);
    }
  }

  lemma {:induction false} RowsGrow<V>(s: seq<Sample>, m: nat, n: nat, settings: Settings,
                                       extract: seq<Sample> -> Option<V>)
    requires m <= n <= |s| && settings.Valid()
    ensures Rows(s, m, settings, extract) <= Rows(s, n, settings, extract)
  {
    hide FeaturesAt;
    if m < n {
      RowsGrow(s, m, n - 1, settings, extract);
    }
  }

  /** A slice that reaches far enough back shows the same window as the whole. */
  lemma SliceShowsWindow(s: seq<Sample>, low: nat, high: nat, i: nat, settings: Settings)
    requires low <= i < high <= |s| && settings.Valid()
    requires low == 0 || i + 1 >= low + settings.windowSize
    ensures Window(s[low..high], i - low, settings) == Window(s, i, settings)
  {
    hide Start;
    var slice, start := s[low..high], Start(s, i, settings);
    StartIsStart(s, i, settings);
    StartIsStart(slice, i - low, settings);
    SliceStart(s, low, high, i, settings, start);
    StartUnique(slice, i - low, settings, start - low, Start(slice, i - low, settings));
    hide IsStart;
    SliceOfSlice(s, low, high, start - low, i - low + 1);
  }

  lemma SliceOfSlice<T>(s: seq<T>, low: nat, high: nat, a: nat, b: nat)
    requires low <= high <= |s| && a <= b <= high - low
    ensures s[low..high][a..b] == s[low + a..low + b]
  {
    var inner, outer := s[low..high][a..b], s[low + a..low + b];
    assert forall k | 0 <= k < |inner| :: inner[k] == s[low..high][a + k] == s[low + a + k] == outer[k];
  }

  lemma SliceStart(s: seq<Sample>, low: nat, high: nat, i: nat, settings: Settings, start: nat)
    requires low <= start <= i < high <= |s| && IsStart(s, i, settings, start)
    ensures IsStart(s[low..high], i - low, settings, start - low)
  {
    var slice := s[low..high];
    forall k | start - low < k <= i - low
      ensures !Gap(slice, k, settings)
    {
      assert !Gap(s, k + low, settings);
    }
  }
}

/** Scoring of stored telemetry in batches, with just enough context before each batch. */
module Scoring {
  import opened Options
  import opened Features

  const MAX_BATCH_ROWS: nat := 500
  const CONTEXT_ROWS: nat := 12
  const NOT_READY_PATTERN: string := "FEATURE_WINDOW_NOT_READY"
  const NOT_READY_REASON: string := NOT_READY_PATTERN + ": waiting for causal context"

  /** A telemetry row of the device; the sample's time is the device time if there is one. */
  datatype Row = Row(receivedAt: real, sample: Sample, score: Option<real>, percentile: Option<real>,
                     reason: Option<string>)

  /** The model and the rules: features of a window, score, explanation, and the sensor diagnosis ("" for none). */
  datatype Scorer<!V> = Scorer(extract: seq<Sample> -> Option<V>, score: V -> real, percentile: V -> real,
                               explain: V -> string, diagnose: seq<Sample> -> string, modelMissing: string)

  // ----- queries, in the order (received_at, id)

  /** The table lists the device's rows in query order; ids are primary keys. */
  ghost predicate Table(rows: seq<Row>) {
    forall i, j | 0 <= i < j < |rows| ::
      && rows[i].receivedAt <= rows[j].receivedAt
      && rows[i].sample.id != rows[j].sample.id
  }

  /** The query's prefix test, in which an underscore of the pattern stands for any character. */
  predicate StartsLike(text: string, pattern: string) {
    && |pattern| <= |text|
    && forall i | 0 <= i < |pattern| :: pattern[i] == '_' || text[i] == pattern[i]
  }

  predicate Matching(row: Row, ready: bool) {
    && row.score.None?
    && (row.reason.None? || (ready && !StartsLike(row.reason.value, NOT_READY_PATTERN)))
  }

  /** Indices of the matching rows. */
  function Matches(rows: seq<Row>, ready: bool): (indices: seq<nat>)
    ensures forall k | 0 <= k < |indices| :: indices[k] < |rows|
    ensures forall k | 0 <= k < |indices| :: Matching(rows[indices[k]], ready)
    ensures forall j, k | 0 <= j < k < |indices| :: indices[j] < indices[k]
    ensures forall i | 0 <= i < |rows| && Matching(rows[i], ready) :: i in indices
  {
    if rows == [] then []
    else
      Matches(rows[..|rows| - 1], ready) +
      if Matching(rows[|rows| - 1], ready) then [|rows| - 1] else []
  }

  function Targets(rows: seq<Row>, ready: bool): seq<nat> {
    var all := Matches(rows, ready);
    if |all| > MAX_BATCH_ROWS then all[..MAX_BATCH_ROWS] else all
  }

  function Earlier(rows: seq<Row>, time: real): seq<Row> {
    if rows == [] then []
    else
      Earlier(rows[..|rows| - 1], time) +
      if rows[|rows| - 1].receivedAt < time then [rows[|rows| - 1]] else []
  }

  function Between(rows: seq<Row>, first: real, last: real): seq<Row> {
    if rows == [] then []
    else
      Between(rows[..|rows| - 1], first, last) +
      if first <= rows[|rows| - 1].receivedAt <= last then [rows[|rows| - 1]] else []
  }

  function LastOf<T>(s: seq<T>, n: nat): seq<T> {
    if |s| > n then s[|s| - n..] else s
  }

  /** The rows a batch is scored with: up to eleven earlier ones, then all in its span of receipt. */
  function Context(rows: seq<Row>, first: real, last: real): seq<Row> {
    LastOf(Earlier(rows, first), CONTEXT_ROWS - 1) + Between(rows, first, last)
  }

  function Samples(rows: seq<Row>): seq<Sample> {
    seq(|rows|, i requires 0 <= i < |rows| => rows[i].sample)
  }

  // ----- one scoring call

  function Lookup<V>(rows: seq<FeatureRow<V>>, id: int): Option<V> {
    if rows == [] then None
    else if rows[|rows| - 1].sampleId == id then Some(rows[|rows| - 1].values)
    else Lookup(rows[..|rows| - 1], id)
  }

  /** The samples that the sensor rules see at index `i`: the last twelve. */
  function Recent(samples: seq<Sample>, i: nat): seq<Sample>
    requires i < |samples|
  {
    samples[if i + 1 > CONTEXT_ROWS then i + 1 - CONTEXT_ROWS else 0..i + 1]
  }

  function IndexOf(samples: seq<Sample>, id: int): (i: nat)
    ensures i <= |samples| && (i < |samples| ==> samples[i].id == id)
    ensures forall j | 0 <= j < i :: samples[j].id != id
  {
    if samples == [] || samples[0].id == id then 0 else 1 + IndexOf(samples[1..], id)
  }

  function Diagnosis<V>(samples: seq<Sample>, id: int, scorer: Scorer<V>): string {
    var i := IndexOf(samples, id);
    if i < |samples| then scorer.diagnose(Recent(samples, i)) else ""
  }

  /** What a call writes to a target, given the features and the diagnosis found for it. */
  function Updated<V>(row: Row, ready: bool, features: Option<V>, diagnosis: string, scorer: Scorer<V>): Row {
    if !ready then row.(reason := Some(if diagnosis != "" then diagnosis else scorer.modelMissing))
    else if features.None? then row.(reason := Some(NOT_READY_REASON))
    else row.(score := Some(scorer.score(features.value)), percentile := Some(scorer.percentile(features.value)),
              reason := Some(if diagnosis != "" then diagnosis else scorer.explain(features.value)))
  }

  /** The target at index `i` after a call whose batch has the context samples `context`. */
  function ScoredRow<V>(rows: seq<Row>, i: nat, ready: bool, context: seq<Sample>, scorer: Scorer<V>): Row
    requires i < |rows|
  {
    var ordered := Sort(context);
    Updated(rows[i], ready,
            Lookup(Features.Rows(ordered, |ordered|, DEFAULT_SETTINGS, scorer.extract), rows[i].sample.id),
            Diagnosis(context, rows[i].sample.id, scorer), scorer)
  }

  function BatchSamples(rows: seq<Row>, targets: seq<nat>): seq<Sample>
    requires targets != [] && forall k | 0 <= k < |targets| :: targets[k] < |rows|
  {
    Samples(Context(rows, rows[targets[0]].receivedAt, rows[targets[|targets| - 1]].receivedAt))
  }

  /** How many of the first `n` targets get a score, or at least a reason while no model is ready. */
  function Processed<V>(rows: seq<Row>, targets: seq<nat>, n: nat, ready: bool, context: seq<Sample>,
                        scorer: Scorer<V>): nat
    requires n <= |targets| && forall k | 0 <= k < |targets| :: targets[k] < |rows|
  {
    if n == 0 then 0
    else
      Processed(rows, targets, n - 1, ready, context, scorer) +
      if !ready || ScoredRow(rows, targets[n - 1], ready, context, scorer).score.Some? then 1 else 0
  }

  class Store {
    var rows: seq<Row>

    constructor (rows: seq<Row>)
      ensures this.rows == rows
    {
      this.rows := rows;
    }

    method ScoreDeviceOnce<V>(ready: bool, scorer: Scorer<V>) returns (processed: nat)
      modifies this
      ensures Scored(old(rows), rows, ready, scorer)
      ensures var targets := Targets(old(rows), ready);
              processed == if targets == [] then 0
                           else
                             var context := BatchSamples(old(rows), targets);
                             Processed(old(rows), targets, |targets|, ready, context, scorer)
    {
      hide Context, Matches, Matching, ScoredRow, Targets, BatchSamples, Diagnosis;
      hide Sort, Features.Rows, Lookup, Updated;
      ghost var before := rows;
      var targets := Targets(rows, ready);
      TargetsInTable(rows, ready);
      if targets == [] {
        return 0;
      }
      var samples := BatchSamples(rows, targets);
      var generated := GenerateFeatures(samples, DEFAULT_SETTINGS, scorer.extract);
      processed := 0;
      ghost var done: set<nat> := {};
      for k := 0 to |targets|
        invariant |rows| == |before| && processed == Processed(before, targets, k, ready, samples, scorer)
        invariant forall i :: i in done <==> i in targets[..k]
        invariant forall i | 0 <= i < |rows| ::
                    rows[i] == if i in done then ScoredRow(before, i, ready, samples, scorer) else before[i]
      {
        var i := targets[k];
        assert i !in done;
        ScoredRowIs(before, i, ready, samples, scorer);
        HandledRow(before[i], ready, Lookup(generated.rows, before[i].sample.id),
                   Diagnosis(samples, before[i].sample.id, scorer),
                   scorer);
        var diagnosis := Diagnosis(samples, rows[i].sample.id, scorer);
        var row, counted := ScoreRow(rows[i], ready, generated.rows, diagnosis, scorer);
        rows := rows[i := row];
        processed := processed + (if counted then 1 else 0);
        done := done + {i};
        assert targets[..k + 1] == targets[..k] + [i];
      }
      assert targets[..|targets|] == targets;
    }
  }

  method ScoreRow<V>(current: Row, ready: bool, generated: seq<FeatureRow<V>>, diagnosis: string, scorer: Scorer<V>)
    returns (row: Row, counted: bool)
    ensures row == Updated(current, ready, Lookup(generated, current.sample.id), diagnosis, scorer)
    ensures counted == (!ready || Lookup(generated, current.sample.id).Some?)
  {
    row, counted := current, true;
    if !ready {
      row := row.(reason := Some(if diagnosis != "" then diagnosis else scorer.modelMissing));
      return;
    }
    var result := Lookup(generated, row.sample.id);
    if result.None? {
      row := row.(reason := Some(NOT_READY_REASON));
      return row, false;
    }
    row := row.(score := Some(scorer.score(result.value)), percentile := Some(scorer.percentile(result.value)),
                reason := Some(if diagnosis != "" then diagnosis else scorer.explain(result.value)));
  }

  lemma ScoredRowIs<V>(rows: seq<Row>, i: nat, ready: bool, context: seq<Sample>, scorer: Scorer<V>)
    requires i < |rows|
    ensures ScoredRow(rows, i, ready, context, scorer) ==
            Updated(rows[i], ready,
                    Lookup(Features.Rows(Sort(context), |Sort(context)|, DEFAULT_SETTINGS, scorer.extract),
                           rows[i].sample.id),
                    Diagnosis(context, rows[i].sample.id, scorer), scorer)
  {
  }

  lemma TargetsInTable(rows: seq<Row>, ready: bool)
    ensures var targets := Targets(rows, ready);
            && (forall k | 0 <= k < |targets| :: targets[k] < |rows| && Matching(rows[targets[k]], ready))
            && (forall j, k | 0 <= j < k < |targets| :: targets[j] < targets[k])
  {
  }

  // ----- the context is a slice of the table

  lemma TablePrefix(rows: seq<Row>)
    requires Table(rows) && rows != []
    ensures Table(rows[..|rows| - 1])
    ensures forall i | 0 <= i < |rows| - 1 :: rows[i].receivedAt <= rows[|rows| - 1].receivedAt
  {
  }

  /** On a table in query order the first query selects a prefix. */
  lemma {:induction false} EarlierIsPrefix(rows: seq<Row>, time: real)
    requires Table(rows)
    ensures var e := |Earlier(rows, time)|;
            && e <= |rows| && Earlier(rows, time) == rows[..e]
            && (forall i | 0 <= i < |rows| :: i < e <==> rows[i].receivedAt < time)
  {
    if rows != [] {
      hide Table;
      TablePrefix(rows);
      var before, x := rows[..|rows| - 1], rows[|rows| - 1];
      EarlierIsPrefix(before, time);
      assert rows == before + [x];
      if x.receivedAt < time {
        assert |Earlier(before, time)| == |before|;
        assert Earlier(rows, time) == rows;
      } else {
        assert Earlier(rows, time) == Earlier(before, time);
      }
    }
  }

  /** What the queries say of a table in query order: a prefix, and the slice that follows it. */
  ghost predicate Slices(rows: seq<Row>, first: real, last: real) {
    var e, b := |Earlier(rows, first)|, |Between(rows, first, last)|;
    && e + b <= |rows| && Between(rows, first, last) == rows[e..e + b]
    && (forall i | 0 <= i < |rows| :: i < e + b <==> rows[i].receivedAt <= last)
  }

  lemma {:induction false} BetweenIsSlice(rows: seq<Row>, first: real, last: real)
    requires Table(rows) && first <= last
    ensures Slices(rows, first, last)
  {
    hide Table;
    if rows != [] {
      var before, x := rows[..|rows| - 1], rows[|rows| - 1];
      TablePrefix(rows);
      BetweenIsSlice(before, first, last);
      EarlierIsPrefix(before, first);
      assert rows == before + [x];
      SlicesGrow(before, x, first, last);
    }
  }

  lemma QuerySnoc(before: seq<Row>, x: Row, first: real, last: real)
    ensures Earlier(before + [x], first) == Earlier(before, first) + if x.receivedAt < first then [x] else []
    ensures Between(before + [x], first, last) ==
            Between(before, first, last) + if first <= x.receivedAt <= last then [x] else []
  {
    assert (before + [x])[..|before|] == before;
  }

  lemma SlicesGrow(before: seq<Row>, x: Row, first: real, last: real)
    requires Slices(before, first, last) && first <= last
    requires forall i | 0 <= i < |before| :: before[i].receivedAt <= x.receivedAt
    requires |Earlier(before, first)| <= |before|
    requires forall i | 0 <= i < |before| :: i < |Earlier(before, first)| <==> before[i].receivedAt < first
    ensures Slices(before + [x], first, last)
  {
    hide Earlier, Between;
    QuerySnoc(before, x, first, last);
    var e, b := |Earlier(before, first)|, |Between(before, first, last)|;
    var rows := before + [x];
    if before != [] {
      assert before[|before| - 1].receivedAt <= x.receivedAt;
    }
    if x.receivedAt < first {
      assert e == |before| && b == 0;
    } else if x.receivedAt <= last {
      assert e + b == |before|;
      assert rows[e..e + b + 1] == before[e..e + b] + [x];
    } else {
      assert rows[e..e + b] == before[e..e + b];
    }
  }

  /** The slice of the table that the context of a call from target `p` to target `q` is. */
  function Span(rows: seq<Row>, p: nat, q: nat): (nat, nat)
    requires p < |rows| && q < |rows|
  {
    var e, b := |Earlier(rows, rows[p].receivedAt)|, |Between(rows, rows[p].receivedAt, rows[q].receivedAt)|;
    (if e > CONTEXT_ROWS - 1 then e - (CONTEXT_ROWS - 1) else 0, e + b)
  }

  /** It starts at the beginning or at least eleven rows before every target, and ends with the last target's time. */
  lemma ContextIsSlice(rows: seq<Row>, p: nat, q: nat)
    requires Table(rows) && p <= q < |rows|
    ensures var (low, high) := Span(rows, p, q);
            && low <= p && q < high <= |rows|
            && Context(rows, rows[p].receivedAt, rows[q].receivedAt) == rows[low..high]
            && (low == 0 || low + CONTEXT_ROWS - 1 <= p)
            && (forall i | 0 <= i < |rows| :: i < high <==> rows[i].receivedAt <= rows[q].receivedAt)
  {
    var first, last := rows[p].receivedAt, rows[q].receivedAt;
    assert first <= last;
    EarlierIsPrefix(rows, first);
    BetweenIsSlice(rows, first, last);
    var e, b := |Earlier(rows, first)|, |Between(rows, first, last)|;
    var (low, high) := Span(rows, p, q);
    assert p >= e && q < high;
    assert LastOf(rows[..e], CONTEXT_ROWS - 1) == rows[low..e];
    assert rows[low..high] == rows[low..e] + rows[e..high];
  }

  /** The span of a call with targets. */
  function CallSpan(rows: seq<Row>, ready: bool): (nat, nat)
    requires Targets(rows, ready) != []
  {
    var targets := Targets(rows, ready);
    Span(rows, targets[0], targets[|targets| - 1])
  }

  lemma CallContext(rows: seq<Row>, ready: bool, k: nat)
    requires Table(rows) && k < |Targets(rows, ready)|
    ensures var targets := Targets(rows, ready);
            var (low, high) := CallSpan(rows, ready);
            && low <= targets[k] < high <= |rows|
            && BatchSamples(rows, targets) == Samples(rows)[low..high]
            && (low == 0 || targets[k] + 1 >= low + CONTEXT_ROWS)
            && (forall i | 0 <= i < |rows| ::
                  i < high <==> rows[i].receivedAt <= rows[targets[|targets| - 1]].receivedAt)
  {
    TargetsInTable(rows, ready);
    hide Context, Targets, Span;
    var targets := Targets(rows, ready);
    assert targets[0] <= targets[k] <= targets[|targets| - 1];
    ContextIsSlice(rows, targets[0], targets[|targets| - 1]);
    var (low, high) := CallSpan(rows, ready);
    assert Samples(rows[low..high]) == Samples(rows)[low..high];
  }

  // ----- looking features up by id

  lemma {:induction false} LookupFinds<V>(s: seq<Sample>, n: nat, j: nat, extract: seq<Sample> -> Option<V>)
    requires n <= |s| && j < |s|
    requires forall a, b | 0 <= a < b < |s| :: s[a].id != s[b].id
    ensures Lookup(Features.Rows(s, n, DEFAULT_SETTINGS, extract), s[j].id) ==
            if j < n then FeaturesAt(s, j, DEFAULT_SETTINGS, extract) else None
  {
    hide FeaturesAt;
    if n > 0 {
      LookupFinds(s, n - 1, j, extract);
      var rows := Features.Rows(s, n, DEFAULT_SETTINGS, extract);
      var before := Features.Rows(s, n - 1, DEFAULT_SETTINGS, extract);
      if FeaturesAt(s, n - 1, DEFAULT_SETTINGS, extract).Some? {
        assert rows[..|rows| - 1] == before;
      } else {
        assert rows == before;
      }
    }
  }

  lemma IndexOfFinds(s: seq<Sample>, j: nat)
    requires j < |s| && forall a, b | 0 <= a < b < |s| :: s[a].id != s[b].id
    ensures IndexOf(s, s[j].id) == j
  {
  }

  // ----- batch scoring equals whole-history scoring

  /** The target at `i` as one pass over the device's whole history would write it. */
  function WholeHistoryRow<V>(rows: seq<Row>, i: nat, ready: bool, scorer: Scorer<V>): Row
    requires i < |rows|
  {
    ScoredRow(rows, i, ready, Samples(rows), scorer)
  }

  /** That target where the order of receipt is the order in time. */
  function InOrderRow<V>(rows: seq<Row>, i: nat, ready: bool, scorer: Scorer<V>): Row
    requires i < |rows|
  {
    Updated(rows[i], ready, FeaturesAt(Samples(rows), i, DEFAULT_SETTINGS, scorer.extract),
            scorer.diagnose(Recent(Samples(rows), i)), scorer)
  }

  /**
   * When the order by (timestamp, id) agrees with the order of receipt, every target of
   * a call, whatever the batch, is written as one pass over the whole history would write it.
   */
  lemma BatchEqualsWhole<V>(rows: seq<Row>, ready: bool, scorer: Scorer<V>, k: nat)
    requires Table(rows) && Ordered(Samples(rows)) && k < |Targets(rows, ready)|
    ensures var targets := Targets(rows, ready);
            targets[k] < |rows| &&
            ScoredRow(rows, targets[k], ready, BatchSamples(rows, targets), scorer) ==
            WholeHistoryRow(rows, targets[k], ready, scorer) == InOrderRow(rows, targets[k], ready, scorer)
  {
    CallContext(rows, ready, k);
    hide Context, Targets, ScoredRow, InOrderRow, CallSpan;
    var i := Targets(rows, ready)[k];
    var (low, high) := CallSpan(rows, ready);
    SliceScoresAlike(rows, ready, scorer, low, high, i);
    SliceScoresAlike(rows, ready, scorer, 0, |rows|, i);
    assert Samples(rows)[0..|rows|] == Samples(rows);
  }

  lemma SliceScoresAlike<V>(rows: seq<Row>, ready: bool, scorer: Scorer<V>, low: nat, high: nat, i: nat)
    requires Table(rows) && Ordered(Samples(rows)) && low <= i < high <= |rows|
    requires low == 0 || i + 1 >= low + CONTEXT_ROWS
    ensures ScoredRow(rows, i, ready, Samples(rows)[low..high], scorer) == InOrderRow(rows, i, ready, scorer)
  {
    hide Sort, Lookup, Features.Rows, Recent, Updated, FeaturesAt, IndexOf, ScoredRow;
    var all := Samples(rows);
    var batch := all[low..high];
    assert batch[i - low] == all[i] == rows[i].sample;
    assert Ordered(batch);
    DistinctIds(rows, low, high);
    SortKeepsOrdered(batch);
    LookupFinds(batch, |batch|, i - low, scorer.extract);
    IndexOfFinds(batch, i - low);
    SliceFeatures(all, low, high, i, scorer.extract);
    SliceRecent(all, low, high, i);
    ScoredRowIs(rows, i, ready, batch, scorer);
  }

  lemma DistinctIds(rows: seq<Row>, low: nat, high: nat)
    requires Table(rows) && low <= high <= |rows|
    ensures var batch := Samples(rows)[low..high];
            forall a, b | 0 <= a < b < |batch| :: batch[a].id != batch[b].id
  {
    var batch := Samples(rows)[low..high];
    forall a, b | 0 <= a < b < |batch|
      ensures batch[a].id != batch[b].id
    {
      assert batch[a] == rows[low + a].sample && batch[b] == rows[low + b].sample;
    }
  }

  lemma SliceFeatures<V>(s: seq<Sample>, low: nat, high: nat, i: nat, extract: seq<Sample> -> Option<V>)
    requires low <= i < high <= |s| && (low == 0 || i + 1 >= low + CONTEXT_ROWS)
    ensures FeaturesAt(s[low..high], i - low, DEFAULT_SETTINGS, extract) == FeaturesAt(s, i, DEFAULT_SETTINGS, extract)
  {
    hide Window, Usable;
    SliceShowsWindow(s, low, high, i, DEFAULT_SETTINGS);
  }

  lemma SliceRecent(s: seq<Sample>, low: nat, high: nat, i: nat)
    requires low <= i < high <= |s| && (low == 0 || i + 1 >= low + CONTEXT_ROWS)
    ensures Recent(s[low..high], i - low) == Recent(s, i)
  {
    var first := if i + 1 > CONTEXT_ROWS then i + 1 - CONTEXT_ROWS else 0;
    assert first >= low;
    SliceOfSlice(s, low, high, first - low, i - low + 1);
  }

  // ----- the backlog drains

  function Count(rows: seq<Row>, ready: bool): nat { |Matches(rows, ready)| }

  /**
   * A handled row keeps its sample and time of receipt, gets a score exactly if a model had features for it, and always
   * a reason; it comes up again only if no model was ready and its reason is not taken for the waiting one.
   */
  lemma HandledRow<V>(row: Row, ready: bool, features: Option<V>, diagnosis: string, scorer: Scorer<V>)
    requires Matching(row, ready)
    ensures var after := Updated(row, ready, features, diagnosis, scorer);
            && after.sample == row.sample && after.receivedAt == row.receivedAt
            && (after.score.Some? <==> ready && features.Some?) && after.reason.Some?
            && (after.percentile != row.percentile ==> after.score.Some?)
            && !Matching(after, false)
            && (Matching(after, true) <==> !ready && !StartsLike(after.reason.value, NOT_READY_PATTERN))
  {
    WaitingIsLike();
  }

  lemma StartsWithItself(pattern: string, rest: string)
    ensures StartsLike(pattern + rest, pattern)
  {
  }

  lemma WaitingIsLike()
    ensures StartsLike(NOT_READY_REASON, NOT_READY_PATTERN)
  {
    StartsWithItself(NOT_READY_PATTERN, ": waiting for causal context");
  }

  /** A written target no longer matches. */
  lemma UpdatedNoMatch<V>(row: Row, ready: bool, features: Option<V>, diagnosis: string, scorer: Scorer<V>)
    ensures !Matching(Updated(row, ready, features, diagnosis, scorer), ready)
  {
    WaitingIsLike();
    hide StartsLike;
  }

  function IndexSet(indices: seq<nat>): set<nat> {
    if indices == [] then {} else IndexSet(indices[..|indices| - 1]) + {indices[|indices| - 1]}
  }

  lemma {:induction false} IndexSetMembers(indices: seq<nat>, i: nat)
    ensures i in IndexSet(indices) <==> i in indices
  {
    if indices != [] {
      IndexSetMembers(indices[..|indices| - 1], i);
      assert indices == indices[..|indices| - 1] + [indices[|indices| - 1]];
    }
  }

  lemma {:induction false} IndexSetSize(indices: seq<nat>)
    requires forall j, k | 0 <= j < k < |indices| :: indices[j] < indices[k]
    ensures |IndexSet(indices)| == |indices|
  {
    if indices != [] {
      var before, last := indices[..|indices| - 1], indices[|indices| - 1];
      IndexSetSize(before);
      IndexSetMembers(before, last);
    }
  }

  function Tally(rows: seq<Row>, ready: bool): nat {
    if rows == [] then 0
    else Tally(rows[..|rows| - 1], ready) + if Matching(rows[|rows| - 1], ready) then 1 else 0
  }

  lemma {:induction false} TallyCounts(rows: seq<Row>, ready: bool)
    ensures Tally(rows, ready) == Count(rows, ready)
  {
    hide Matching;
    if rows != [] {
      TallyCounts(rows[..|rows| - 1], ready);
    }
  }

  /** Clearing some matching rows takes them, and no others, from the count. */
  lemma {:induction false} TallyAfter(rows: seq<Row>, after: seq<Row>, ready: bool, cleared: set<nat>)
    requires |after| == |rows| && forall i | i in cleared :: i < |rows| && Matching(rows[i], ready)
    requires forall i | 0 <= i < |rows| :: if i in cleared then !Matching(after[i], ready) else after[i] == rows[i]
    ensures Tally(after, ready) + |cleared| == Tally(rows, ready)
  {
    hide Matching;
    if rows == [] {
      assert cleared == {};
    } else {
      var n := |rows| - 1;
      TallyAfter(rows[..n], after[..n], ready, cleared - {n});
    }
  }

  /** The table after one call. */
  ghost predicate Scored<V>(rows: seq<Row>, after: seq<Row>, ready: bool, scorer: Scorer<V>) {
    && |after| == |rows|
    && var targets := Targets(rows, ready);
    && forall i | 0 <= i < |rows| ::
         after[i] == if i in targets then ScoredRow(rows, i, ready, BatchSamples(rows, targets), scorer) else rows[i]
  }

  /** The targets no longer match after a call. */
  lemma TargetsCleared<V>(rows: seq<Row>, after: seq<Row>, ready: bool, scorer: Scorer<V>, i: nat)
    requires Scored(rows, after, ready, scorer) && i < |rows|
    ensures i in Targets(rows, ready) ==> !Matching(after[i], ready)
  {
    hide Matching, Context, Updated, Sort, Lookup, Features.Rows, Diagnosis;
    if i in Targets(rows, ready) {
      var context := BatchSamples(rows, Targets(rows, ready));
      ScoredRowIs(rows, i, ready, context, scorer);
      var ordered := Sort(context);
      UpdatedNoMatch(rows[i], ready,
                     Lookup(Features.Rows(ordered, |ordered|, DEFAULT_SETTINGS, scorer.extract), rows[i].sample.id),
                     Diagnosis(context, rows[i].sample.id, scorer), scorer);
    }
  }

  /** Each call handles min(500, n) of the n matching rows, and they match no more. */
  lemma BacklogDrains<V>(rows: seq<Row>, after: seq<Row>, ready: bool, scorer: Scorer<V>)
    requires Scored(rows, after, ready, scorer)
    ensures var n := Count(rows, ready);
            Count(after, ready) == n - (if n < 500 then n else 500)
  {
    var targets := Targets(rows, ready);
    assert |targets| == if Count(rows, ready) < MAX_BATCH_ROWS then Count(rows, ready) else MAX_BATCH_ROWS;
    TargetsInTable(rows, ready);
    hide Matching, Targets, ScoredRow, IndexSet, Tally, Count;
    forall i | 0 <= i < |rows| && i in targets
      ensures !Matching(after[i], ready)
    {
      TargetsCleared(rows, after, ready, scorer, i);
    }
    IndexSetSize(targets);
    forall i: nat ensures i in IndexSet(targets) <==> i in targets {
      IndexSetMembers(targets, i);
    }
    TallyAfter(rows, after, ready, IndexSet(targets));
    TallyCounts(rows, ready);
    TallyCounts(after, ready);
  }

  // ----- no row is handled more than twice

  /** How often a row can still become a target. */
  function Chances(row: Row): nat {
    if !Matching(row, true) then 0 else if row.reason.None? then 2 else 1
  }

  lemma UpdatedUsesChance<V>(row: Row, ready: bool, features: Option<V>, diagnosis: string, scorer: Scorer<V>)
    requires Matching(row, ready)
    ensures Chances(Updated(row, ready, features, diagnosis, scorer)) < Chances(row)
  {
    UpdatedNoMatch(row, ready, features, diagnosis, scorer);
  }

  /** A scoring call, with the device's table before and after it. */
  datatype Call<!V> = Call(before: seq<Row>, after: seq<Row>, ready: bool, scorer: Scorer<V>)

  /** Between calls rows may be added anywhere in the query order, but none changes or goes. */
  ghost predicate History<V>(calls: seq<Call<V>>) {
    && (forall k | 0 <= k < |calls| ::
          && Table(calls[k].before)
          && Scored(calls[k].before, calls[k].after, calls[k].ready, calls[k].scorer))
    && (forall k | 0 < k < |calls| :: forall row | row in calls[k - 1].after :: row in calls[k].before)
  }

  predicate IsTarget(rows: seq<Row>, ready: bool, id: int) {
    exists k | 0 <= k < |Targets(rows, ready)| ::
      Targets(rows, ready)[k] < |rows| && rows[Targets(rows, ready)[k]].sample.id == id
  }

  /** In how many of the first `n` calls the row was a target. */
  function TimesHandled<V>(calls: seq<Call<V>>, id: int, n: nat): nat
    requires n <= |calls|
  {
    if n == 0 then 0
    else TimesHandled(calls, id, n - 1) + if IsTarget(calls[n - 1].before, calls[n - 1].ready, id) then 1 else 0
  }

  /** The chances left to the row, if it is in the table. */
  ghost predicate WithinChances(rows: seq<Row>, id: int, times: nat) {
    && times <= 2
    && (times > 0 ==> exists row | row in rows :: row.sample.id == id)
    && forall row | row in rows && row.sample.id == id :: times + Chances(row) <= 2
  }

  lemma TargetAt(rows: seq<Row>, ready: bool, id: int, i: nat)
    requires Table(rows) && i < |rows| && rows[i].sample.id == id
    ensures IsTarget(rows, ready, id) <==> i in Targets(rows, ready)
  {
    TargetsInTable(rows, ready);
    hide Targets;
  }

  lemma CallKeepsIds<V>(call: Call<V>)
    requires Scored(call.before, call.after, call.ready, call.scorer)
    ensures |call.after| == |call.before|
    ensures forall i | 0 <= i < |call.before| :: call.after[i].sample.id == call.before[i].sample.id
  {
    hide Scored, Targets;
    assert |call.after| == |call.before| by { ScoredLength(call); }
    forall i | 0 <= i < |call.before|
      ensures call.after[i].sample.id == call.before[i].sample.id
    {
      CallUsesChance(call.before, call.after, call.ready, call.scorer, i);
    }
  }

  lemma ScoredLength<V>(call: Call<V>)
    requires Scored(call.before, call.after, call.ready, call.scorer)
    ensures |call.after| == |call.before|
  {
  }

  lemma CallKeepsChances<V>(call: Call<V>, id: int, times: nat)
    requires Table(call.before) && Scored(call.before, call.after, call.ready, call.scorer)
    requires WithinChances(call.before, id, times)
    ensures WithinChances(call.after, id, times + if IsTarget(call.before, call.ready, id) then 1 else 0)
  {
    hide Scored, Targets, Chances, IsTarget;
    var rows, after := call.before, call.after;
    CallKeepsIds(call);
    if i :| 0 <= i < |rows| && rows[i].sample.id == id {
      TargetAt(rows, call.ready, id, i);
      CallUsesChance(rows, after, call.ready, call.scorer, i);
      assert rows[i] in rows && after[i] in after;
      forall row | row in after && row.sample.id == id
        ensures row == after[i]
      {
        var j :| 0 <= j < |after| && after[j] == row;
        assert rows[j].sample.id == id;
      }
    } else {
      NotTarget(rows, call.ready, id);
    }
  }

  lemma NotTarget(rows: seq<Row>, ready: bool, id: int)
    requires forall i | 0 <= i < |rows| :: rows[i].sample.id != id
    ensures !IsTarget(rows, ready, id)
  {
  }

  lemma AddedRowsKeepChances(rows: seq<Row>, grown: seq<Row>, id: int, times: nat)
    requires WithinChances(rows, id, times) && Table(grown) && forall row | row in rows :: row in grown
    ensures WithinChances(grown, id, times)
  {
    hide Chances;
    if times > 0 {
      var row :| row in rows && row.sample.id == id;
      forall other | other in grown && other.sample.id == id
        ensures other == row
      {
        var i, j :| 0 <= i < |grown| && 0 <= j < |grown| && grown[i] == row && grown[j] == other;
      }
    } else {
      forall row | row in grown
        ensures Chances(row) <= 2
      {
        ChancesBound(row);
      }
    }
  }

  /** However the model's readiness changes and rows arrive in between, no row is handled more than twice. */
  lemma {:induction false} HandledAtMostTwice<V>(calls: seq<Call<V>>, id: int, n: nat)
    requires History(calls) && n <= |calls|
    ensures TimesHandled(calls, id, n) <= 2
    ensures n > 0 ==> WithinChances(calls[n - 1].after, id, TimesHandled(calls, id, n))
  {
    hide WithinChances, Table, Scored, IsTarget;
    if n > 0 {
      HandledAtMostTwice(calls, id, n - 1);
      if n == 1 {
        FreshChances(calls[0].before, id);
      } else {
        AddedRowsKeepChances(calls[n - 2].after, calls[n - 1].before, id, TimesHandled(calls, id, n - 1));
      }
      CallKeepsChances(calls[n - 1], id, TimesHandled(calls, id, n - 1));
      AtMostTwo(calls[n - 1].after, id, TimesHandled(calls, id, n));
    }
  }

  lemma AtMostTwo(rows: seq<Row>, id: int, times: nat)
    requires WithinChances(rows, id, times)
    ensures times <= 2
  {
  }

  lemma FreshChances(rows: seq<Row>, id: int)
    ensures WithinChances(rows, id, 0)
  {
    forall row | row in rows
      ensures Chances(row) <= 2
    {
      ChancesBound(row);
    }
  }

  lemma ChancesBound(row: Row)
    ensures Chances(row) <= 2
  {
  }

  lemma CallUsesChance<V>(rows: seq<Row>, after: seq<Row>, ready: bool, scorer: Scorer<V>, i: nat)
    requires Scored(rows, after, ready, scorer) && i < |rows|
    ensures after[i].sample == rows[i].sample && after[i].receivedAt == rows[i].receivedAt
    ensures Chances(after[i]) + (if i in Targets(rows, ready) then 1 else 0) <= Chances(rows[i])
  {
    hide Context, Updated, Sort, Lookup, Features.Rows, Diagnosis, Chances, Matching;
    TargetsInTable(rows, ready);
    var targets := Targets(rows, ready);
    if i in targets {
      var context := BatchSamples(rows, targets);
      ScoredRowIs(rows, i, ready, context, scorer);
      var ordered := Sort(context);
      HandledRow(rows[i], ready,
                 Lookup(Features.Rows(ordered, |ordered|, DEFAULT_SETTINGS, scorer.extract), rows[i].sample.id),
                 Diagnosis(context, rows[i].sample.id, scorer), scorer);
      UpdatedUsesChance(rows[i], ready,
                        Lookup(Features.Rows(ordered, |ordered|, DEFAULT_SETTINGS, scorer.extract), rows[i].sample.id),
                        Diagnosis(context, rows[i].sample.id, scorer), scorer);
    }
  }
}

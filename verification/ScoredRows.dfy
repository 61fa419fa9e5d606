/** What a scoring call leaves in the table: which rows it writes, what it writes to them, and what it returns. */
module ScoredRows {
  import opened Options
  import opened Features
  import opened Scoring
  import opened BatchContext

  // ----- which rows

  lemma FirstMatches(rows: seq<Row>, ready: bool, j: nat)
    requires j < |Matches(rows, ready)|
    ensures j < 500 ==> Matches(rows, ready)[j] in Targets(rows, ready)
  {
    var targets := Targets(rows, ready);
    assert j < |targets| ==> targets[j] in targets;
    hide Matches;
  }

  /** The targets are the first rows, up to 500, with no score whose reason, if any, may be written over. */
  lemma TargetsAreFirst(rows: seq<Row>, ready: bool, i: nat)
    requires i < |rows|
    ensures var targets := Targets(rows, ready);
            var waits := rows[i].score == None &&
                         (rows[i].reason == None ||
                          (ready && !StartsLike(rows[i].reason.value, "FEATURE_WINDOW_NOT_READY")));
            && |targets| <= 500
            && (i in targets ==> waits)
            && (waits && i !in targets ==> |targets| == 500 && forall k | 0 <= k < 500 :: targets[k] < i)
  {
    hide StartsLike, Matches;
    var all := Matches(rows, ready);
    if Matching(rows[i], ready) && i !in Targets(rows, ready) {
      var j :| 0 <= j < |all| && all[j] == i;
      FirstMatches(rows, ready, j);
    }
  }

  // ----- what is written

  /** What a call, with a model or without, makes of a row whose window has these features and this diagnosis. */
  ghost predicate Written<V>(before: Row, after: Row, ready: bool, features: Option<V>, diagnosis: string,
                             scorer: Scorer<V>)
  {
    && after.sample == before.sample && after.receivedAt == before.receivedAt
    && (ready && features.Some? ==>
          && after.score == Some(scorer.score(features.value))
          && after.percentile == Some(scorer.percentile(features.value))
          && after.reason == Some(if diagnosis != "" then diagnosis else scorer.explain(features.value)))
    && (!(ready && features.Some?) ==> after.score == before.score && after.percentile == before.percentile)
    && (ready && features.None? ==> after.reason == Some("FEATURE_WINDOW_NOT_READY" + ": waiting for causal context"))
    && (!ready ==> after.reason == Some(if diagnosis != "" then diagnosis else scorer.modelMissing))
  }

  lemma UpdatedIsWritten<V>(row: Row, ready: bool, features: Option<V>, diagnosis: string, scorer: Scorer<V>)
    ensures Written(row, Updated(row, ready, features, diagnosis, scorer), ready, features, diagnosis, scorer)
  {
  }

  /** The twelve samples that end at index `i`, or as many as there are. */
  function LastTwelve(samples: seq<Sample>, i: nat): seq<Sample>
    requires i < |samples|
  {
    samples[if i < 12 then 0 else i - 11..i + 1]
  }

  /** Rows that are no targets stay as they are. */
  lemma OthersKept<V>(rows: seq<Row>, after: seq<Row>, ready: bool, scorer: Scorer<V>, i: nat)
    requires Scored(rows, after, ready, scorer) && i < |rows| && i !in Targets(rows, ready)
    ensures |after| == |rows| && after[i] == rows[i]
  {
  }

  /**
   * Where the order of receipt is the order in time, every target is written from the features of its window in the
   * device's whole history and the diagnosis of the twelve samples that end with it.
   */
  lemma TargetWritten<V>(rows: seq<Row>, after: seq<Row>, ready: bool, scorer: Scorer<V>, i: nat)
    requires Table(rows) && Ordered(Samples(rows)) && Scored(rows, after, ready, scorer)
    requires i < |rows| && i in Targets(rows, ready)
    ensures |after| == |rows|
            && Written(rows[i], after[i], ready, FeaturesAt(Samples(rows), i, DEFAULT_SETTINGS, scorer.extract),
                       scorer.diagnose(LastTwelve(Samples(rows), i)), scorer)
  {
    var targets, samples := Targets(rows, ready), Samples(rows);
    var k :| 0 <= k < |targets| && targets[k] == i;
    BatchEqualsWhole(rows, ready, scorer, k);
    assert Recent(samples, i) == LastTwelve(samples, i);
    UpdatedIsWritten(rows[i], ready, FeaturesAt(samples, i, DEFAULT_SETTINGS, scorer.extract),
                     scorer.diagnose(LastTwelve(samples, i)), scorer);
    hide Written, ScoredRow, FeaturesAt, Recent, Table, Ordered;
  }

  lemma WholeRowWritten<V>(rows: seq<Row>, ready: bool, scorer: Scorer<V>, i: nat, p: nat)
    requires Table(rows) && i < |rows|
    requires p < |Sort(Samples(rows))| && Sort(Samples(rows))[p] == rows[i].sample
    ensures Written(rows[i], WholeHistoryRow(rows, i, ready, scorer), ready,
                    FeaturesAt(Sort(Samples(rows)), p, DEFAULT_SETTINGS, scorer.extract),
                    scorer.diagnose(LastTwelve(Samples(rows), i)), scorer)
  {
    var all := Samples(rows);
    assert all[0..|rows|] == all;
    ContextMembers(rows, 0, |rows|, i);
    SortMembers(all);
    IndexOfFinds(all, i);
    hide Sort, Lookup, Features.Rows, IndexOf, FeaturesAt, Written, Updated, Table;
    FeaturesFound(all, rows[i].sample.id, p, scorer.extract);
    ScoredRowIs(rows, i, ready, all, scorer);
    hide ScoredRow;
    assert Recent(all, i) == LastTwelve(all, i);
    UpdatedIsWritten(rows[i], ready, FeaturesAt(Sort(all), p, DEFAULT_SETTINGS, scorer.extract),
                     scorer.diagnose(LastTwelve(all, i)), scorer);
  }

  /**
   * Whatever the order of receipt, so is a target that late rows leave alone: from the features at its place in the
   * order in time, and the diagnosis of the twelve samples received up to it.
   */
  lemma UntouchedWritten<V>(rows: seq<Row>, after: seq<Row>, ready: bool, scorer: Scorer<V>, k: nat, p: nat)
    requires Table(rows) && Scored(rows, after, ready, scorer) && k < |Targets(rows, ready)|
    requires Targets(rows, ready)[k] < |rows| && TargetUntouched(rows, ready, k)
    requires p < |Sort(Samples(rows))| && Sort(Samples(rows))[p] == rows[Targets(rows, ready)[k]].sample
    ensures var i := Targets(rows, ready)[k];
            |after| == |rows|
            && Written(rows[i], after[i], ready, FeaturesAt(Sort(Samples(rows)), p, DEFAULT_SETTINGS, scorer.extract),
                       scorer.diagnose(LastTwelve(Samples(rows), i)), scorer)
  {
    UntouchedEqualsWhole(rows, ready, scorer, k);
    WholeRowWritten(rows, ready, scorer, Targets(rows, ready)[k], p);
    assert Targets(rows, ready)[k] in Targets(rows, ready);
    hide Written, WholeHistoryRow, ScoredRow, FeaturesAt, Table, Sort, Targets, TargetUntouched, LastTwelve;
  }

  // ----- what is returned

  /** How many rows have a score. */
  function Scores(rows: seq<Row>): nat {
    if rows == [] then 0 else Scores(rows[..|rows| - 1]) + if rows[|rows| - 1].score.Some? then 1 else 0
  }

  lemma {:induction false} ScoresGrow(rows: seq<Row>, after: seq<Row>, gained: set<nat>)
    requires |after| == |rows| && forall i | i in gained :: i < |rows|
    requires forall i | 0 <= i < |rows| ::
               if i in gained then rows[i].score.None? && after[i].score.Some?
               else after[i].score.Some? == rows[i].score.Some?
    ensures Scores(after) == Scores(rows) + |gained|
  {
    if rows == [] {
      assert gained == {};
    } else {
      var n := |rows| - 1;
      ScoresGrow(rows[..n], after[..n], gained - {n});
    }
  }

  /** Those of some targets that a call gives a score. */
  ghost function Gained(after: seq<Row>, targets: seq<nat>): set<nat> {
    set i | i in targets && i < |after| && after[i].score.Some?
  }

  lemma GainedSnoc(after: seq<Row>, before: seq<nat>, i: nat)
    requires i < |after| && i !in before
    ensures |Gained(after, before + [i])| == |Gained(after, before)| + if after[i].score.Some? then 1 else 0
  {
    assert Gained(after, before + [i]) == Gained(after, before) + if after[i].score.Some? then {i} else {};
  }

  lemma NotBefore(targets: seq<nat>, n: nat)
    requires n < |targets| && forall j, k | 0 <= j < k < |targets| :: targets[j] < targets[k]
    ensures targets[..n + 1] == targets[..n] + [targets[n]] && targets[n] !in targets[..n]
  {
  }

  lemma {:induction false} ProcessedIsGained<V>(rows: seq<Row>, after: seq<Row>, targets: seq<nat>, n: nat,
                                                 context: seq<Sample>, scorer: Scorer<V>)
    requires n <= |targets| && (forall k | 0 <= k < |targets| :: targets[k] < |rows|) && |after| == |rows|
    requires forall j, k | 0 <= j < k < |targets| :: targets[j] < targets[k]
    requires forall k | 0 <= k < |targets| :: after[targets[k]] == ScoredRow(rows, targets[k], true, context, scorer)
    ensures Processed(rows, targets, n, true, context, scorer) == |Gained(after, targets[..n])|
  {
    hide ScoredRow;
    if n == 0 {
      assert Gained(after, targets[..0]) == {};
    } else {
      ProcessedIsGained(rows, after, targets, n - 1, context, scorer);
      NotBefore(targets, n - 1);
      GainedSnoc(after, targets[..n - 1], targets[n - 1]);
      hide Gained;
    }
  }

  lemma {:induction false} AllProcessed<V>(rows: seq<Row>, targets: seq<nat>, n: nat, context: seq<Sample>,
                                            scorer: Scorer<V>)
    requires n <= |targets| && forall k | 0 <= k < |targets| :: targets[k] < |rows|
    ensures Processed(rows, targets, n, false, context, scorer) == n
  {
    hide ScoredRow;
    if n > 0 {
      AllProcessed(rows, targets, n - 1, context, scorer);
    }
  }

  /** A call returns how many rows it gave a score, or how many targets there were while no model was ready. */
  lemma ReturnsNewScores<V>(rows: seq<Row>, after: seq<Row>, ready: bool, scorer: Scorer<V>)
    requires Scored(rows, after, ready, scorer) && Targets(rows, ready) != []
    requires forall k | 0 <= k < |Targets(rows, ready)| :: Targets(rows, ready)[k] < |rows|
    ensures var targets := Targets(rows, ready);
            Processed(rows, targets, |targets|, ready, BatchSamples(rows, targets), scorer) ==
            if ready then Scores(after) - Scores(rows) else |targets|
  {
    var targets := Targets(rows, ready);
    var context := BatchSamples(rows, targets);
    TargetsInTable(rows, ready);
    hide ScoredRow, Targets, BatchSamples, StartsLike;
    if ready {
      assert targets[..|targets|] == targets;
      ProcessedIsGained(rows, after, targets, |targets|, context, scorer);
      ScoresGrow(rows, after, Gained(after, targets));
    } else {
      AllProcessed(rows, targets, |targets|, context, scorer);
    }
  }
}

/** Batches whose rows were not received in the order of their timestamps: when a target is still scored rightly. */
module BatchContext {
  import opened Options
  import opened Features
  import opened Scoring

  ghost predicate DistinctIds(s: seq<Sample>) {
    forall i, j | 0 <= i < j < |s| :: s[i].id != s[j].id
  }

  // ----- sorting samples of distinct ids

  lemma {:induction false} SortMembers(s: seq<Sample>)
    requires DistinctIds(s)
    ensures Ordered(Sort(s)) && DistinctIds(Sort(s)) && |Sort(s)| == |s|
    ensures forall x :: x in Sort(s) <==> x in s
  {
    SortOrders(s);
    SameElements(s, Sort(s));
    forall i, j | 0 <= i < j < |Sort(s)|
      ensures Sort(s)[i].id != Sort(s)[j].id
    {
      if Sort(s)[i].id == Sort(s)[j].id {
        SameIdSameSample(s, Sort(s)[i], Sort(s)[j]);
        TwiceIn(Sort(s), i, j);
        OnceIn(s, Sort(s)[i]);
        assert false;
      }
    }
  }

  lemma SameElements(s: seq<Sample>, t: seq<Sample>)
    requires multiset(s) == multiset(t)
    ensures |s| == |t| && forall x :: x in s <==> x in t
  {
    assert |multiset(s)| == |s| && |multiset(t)| == |t|;
    forall x
      ensures x in s <==> x in t
    {
      assert x in s <==> x in multiset(s);
      assert x in t <==> x in multiset(t);
    }
  }

  lemma SameIdSameSample(s: seq<Sample>, x: Sample, y: Sample)
    requires DistinctIds(s) && x in s && y in s && x.id == y.id
    ensures x == y
  {
    var i, j :| 0 <= i < |s| && 0 <= j < |s| && s[i] == x && s[j] == y;
  }

  lemma TwiceIn(s: seq<Sample>, i: nat, j: nat)
    requires i < j < |s| && s[i] == s[j]
    ensures multiset(s)[s[i]] >= 2
  {
    assert s == s[..i] + [s[i]] + s[i + 1..j] + [s[j]] + s[j + 1..];
    assert multiset(s) == multiset(s[..i]) + multiset{s[i]} + multiset(s[i + 1..j])
                          + multiset{s[j]} + multiset(s[j + 1..]);
  }

  lemma {:induction false} OnceIn(s: seq<Sample>, x: Sample)
    requires DistinctIds(s)
    ensures multiset(s)[x] <= 1
  {
    if s != [] {
      var before, last := s[..|s| - 1], s[|s| - 1];
      assert s == before + [last];
      OnceIn(before, x);
      if x == last {
        assert forall i | 0 <= i < |before| :: before[i].id != last.id;
        assert x !in before;
      }
    }
  }

  /** Distinct samples have one sorted order. */
  lemma {:induction false} SortedUnique(a: seq<Sample>, b: seq<Sample>)
    requires Ordered(a) && Ordered(b) && DistinctIds(a) && DistinctIds(b) && forall x :: x in a <==> x in b
    ensures a == b
    decreases |a|
  {
    assert a == [] || a[0] in a;
    assert b == [] || b[0] in b;
    if a != [] {
      var la, lb := a[|a| - 1], b[|b| - 1];
      LastIsLatest(a, lb);
      LastIsLatest(b, la);
      SameIdSameSample(a, la, lb);
      WithoutLast(a);
      WithoutLast(b);
      hide Ordered, DistinctIds, Precedes;
      SortedUnique(a[..|a| - 1], b[..|b| - 1]);
      assert a == a[..|a| - 1] + [la] && b == b[..|b| - 1] + [lb];
    }
  }

  lemma LastIsLatest(s: seq<Sample>, x: Sample)
    requires Ordered(s) && x in s
    ensures Precedes(x, s[|s| - 1])
  {
    var i :| 0 <= i < |s| && s[i] == x;
  }

  lemma WithoutLast(s: seq<Sample>)
    requires s != [] && DistinctIds(s) && Ordered(s)
    ensures var before := s[..|s| - 1];
            && DistinctIds(before) && Ordered(before) && forall x :: x in before <==> x in s && x != s[|s| - 1]
  {
    var before := s[..|s| - 1];
    forall x
      ensures x in before <==> x in s && x != s[|s| - 1]
    {
      if x in before {
        var i :| 0 <= i < |before| && before[i] == x;
        assert s[i] == x;
      }
      if x in s && x != s[|s| - 1] {
        var i :| 0 <= i < |s| && s[i] == x;
        assert before[i] == x;
      }
    }
  }

  /** The samples between two positions of a sorted sequence are those between the two in the order. */
  lemma SegmentMembers(s: seq<Sample>, a: nat, b: nat)
    requires Ordered(s) && DistinctIds(s) && a <= b < |s|
    ensures Ordered(s[a..b + 1]) && DistinctIds(s[a..b + 1])
    ensures forall x :: x in s[a..b + 1] <==> x in s && Precedes(s[a], x) && Precedes(x, s[b])
  {
    var part := s[a..b + 1];
    forall x
      ensures x in part <==> x in s && Precedes(s[a], x) && Precedes(x, s[b])
    {
      if x in part {
        var i :| 0 <= i < |part| && part[i] == x;
        assert s[a + i] == x;
      }
      if x in s && Precedes(s[a], x) && Precedes(x, s[b]) {
        var i :| 0 <= i < |s| && s[i] == x;
        PositionOrder(s, i, b);
        PositionOrder(s, a, i);
        assert part[i - a] == x;
      }
    }
  }

  lemma PositionOrder(s: seq<Sample>, i: nat, j: nat)
    requires Ordered(s) && DistinctIds(s) && i < |s| && j < |s|
    ensures Precedes(s[i], s[j]) <==> i <= j
  {
  }

  // ----- what a target's window depends on

  /** Where the samples that count for position `j` begin. */
  function From(j: nat): nat { if j + 1 > CONTEXT_ROWS then j + 1 - CONTEXT_ROWS else 0 }

  /** Sorted among the samples of the context, `x` would come among the twelve that end at position `j`. */
  predicate Intrudes(context: seq<Sample>, j: nat, x: Sample)
    requires j < |Sort(context)|
  {
    var ordered := Sort(context);
    Precedes(x, ordered[j]) && (j + 1 < CONTEXT_ROWS || Precedes(ordered[From(j)], x))
  }

  /** No sample outside the context comes among the twelve that end at position `j` of it. */
  ghost predicate Untouched(all: seq<Sample>, context: seq<Sample>, j: nat)
    requires j < |Sort(context)|
  {
    forall x | x in all && x !in context :: !Intrudes(context, j, x)
  }

  /** The context and the whole history show a target the same last twelve samples exactly if it is untouched. */
  lemma SameTwelve(all: seq<Sample>, context: seq<Sample>, p: nat, j: nat)
    requires DistinctIds(all) && DistinctIds(context) && forall x | x in context :: x in all
    requires p < |all| && j < |context| && |Sort(all)| == |all| && |Sort(context)| == |context|
    requires Sort(all)[p] == Sort(context)[j]
    ensures Recent(Sort(all), p) == Recent(Sort(context), j) <==> Untouched(all, context, j)
  {
    SortMembers(all);
    SortMembers(context);
    if Untouched(all, context, j) {
      UntouchedShows(all, context, p, j);
    }
    if Recent(Sort(all), p) == Recent(Sort(context), j) {
      ShownIsUntouched(all, context, p, j);
    }
  }

  lemma FirstIsEarliest(s: seq<Sample>, x: Sample)
    requires Ordered(s) && x in s
    ensures Precedes(s[0], x)
  {
    var i :| 0 <= i < |s| && s[i] == x;
  }

  /** Position `p` of `s` and `j` of `c` hold the target; the samples from `a` and from `from` on are the same ones. */
  lemma SameSegment(s: seq<Sample>, a: nat, p: nat, c: seq<Sample>, from: nat, j: nat)
    requires Ordered(s) && DistinctIds(s) && Ordered(c) && DistinctIds(c)
    requires a <= p < |s| && from <= j < |c| && from == From(j) && (j + 1 < CONTEXT_ROWS ==> a == 0)
    requires forall x :: x in s && Precedes(s[a], x) && Precedes(x, s[p]) <==>
                         x in c && Precedes(c[from], x) && Precedes(x, c[j])
    ensures Recent(s, p) == Recent(c, j)
  {
    SegmentMembers(s, a, p);
    SegmentMembers(c, from, j);
    hide Ordered, Precedes, DistinctIds;
    var left, right := s[a..p + 1], c[from..j + 1];
    forall x
      ensures x in left <==> x in right
    {
      assert x in left <==> x in s && Precedes(s[a], x) && Precedes(x, s[p]);
    }
    SortedUnique(left, right);
    assert |left| == |right|;
  }

  lemma UntouchedShows(all: seq<Sample>, context: seq<Sample>, p: nat, j: nat)
    requires DistinctIds(all) && DistinctIds(context) && forall x | x in context :: x in all
    requires p < |all| && j < |context| && |Sort(all)| == |all| && |Sort(context)| == |context|
    requires Sort(all)[p] == Sort(context)[j] && Untouched(all, context, j)
    ensures Recent(Sort(all), p) == Recent(Sort(context), j)
  {
    SortMembers(all);
    SortMembers(context);
    var s, c, from := Sort(all), Sort(context), From(j);
    var a: nat := 0;
    assert c[from] in c;
    if j + 1 >= CONTEXT_ROWS {
      a :| 0 <= a < |s| && s[a] == c[from];
      PositionOrder(c, from, j);
      PositionOrder(s, a, p);
    }
    forall x
      ensures x in s && Precedes(s[a], x) && Precedes(x, s[p]) <==> x in c && Precedes(c[from], x) && Precedes(x, c[j])
    {
      if x in s && Precedes(s[a], x) && Precedes(x, s[p]) {
        assert x in context;
        FirstIsEarliest(c, x);
      } else if x in c && Precedes(c[from], x) && Precedes(x, c[j]) {
        FirstIsEarliest(s, x);
      }
    }
    SameSegment(s, a, p, c, from, j);
  }

  lemma IntruderShown(s: seq<Sample>, p: nat, c: seq<Sample>, j: nat, x: Sample)
    requires Ordered(s) && DistinctIds(s) && p < |s| && j < |c| && s[p] == c[j] && Recent(s, p) == Recent(c, j)
    requires x in s && Precedes(x, c[j]) && (j + 1 < CONTEXT_ROWS || Precedes(c[From(j)], x))
    ensures x in c
  {
    var shown := Recent(s, p);
    assert |shown| == p + 1 - From(p) == j + 1 - From(j);
    assert shown[0] == s[From(p)] == c[From(j)];
    var i :| 0 <= i < |s| && s[i] == x;
    PositionOrder(s, i, p);
    PositionOrder(s, From(p), i);
    assert shown[i - From(p)] == x;
    SliceMember(c, From(j), j + 1, x);
  }

  lemma ShownIsUntouched(all: seq<Sample>, context: seq<Sample>, p: nat, j: nat)
    requires DistinctIds(all) && DistinctIds(context)
    requires p < |all| && j < |context| && |Sort(all)| == |all| && |Sort(context)| == |context|
    requires Sort(all)[p] == Sort(context)[j] && Recent(Sort(all), p) == Recent(Sort(context), j)
    ensures Untouched(all, context, j)
  {
    SortMembers(all);
    SortMembers(context);
    hide Sort, Ordered, DistinctIds, Recent, Precedes;
    forall x | x in all && Intrudes(context, j, x)
      ensures x in context
    {
      IntruderShown(Sort(all), p, Sort(context), j, x);
    }
  }

  lemma SliceMember<T>(s: seq<T>, a: nat, b: nat, x: T)
    requires a <= b <= |s| && x in s[a..b]
    ensures x in s
  {
    var i :| 0 <= i < |s[a..b]| && s[a..b][i] == x;
    assert s[a + i] == x;
  }

  // ----- untouched targets are scored as in one pass

  lemma RecentShowsWindow(s: seq<Sample>, i: nat)
    requires i < |s|
    ensures Window(s, i, DEFAULT_SETTINGS) == Window(Recent(s, i), i - From(i), DEFAULT_SETTINGS)
  {
    hide Window;
    SliceShowsWindow(s, From(i), i + 1, i, DEFAULT_SETTINGS);
  }

  /** The same last twelve samples give the same features. */
  lemma SameFeatures<V>(s: seq<Sample>, p: nat, c: seq<Sample>, j: nat, extract: seq<Sample> -> Option<V>)
    requires p < |s| && j < |c| && Recent(s, p) == Recent(c, j)
    ensures FeaturesAt(s, p, DEFAULT_SETTINGS, extract) == FeaturesAt(c, j, DEFAULT_SETTINGS, extract)
  {
    RecentShowsWindow(s, p);
    RecentShowsWindow(c, j);
    assert |Recent(s, p)| == p + 1 - From(p) == j + 1 - From(j);
    hide Window, Usable;
  }

  lemma FeaturesFound<V>(samples: seq<Sample>, id: int, j: nat, extract: seq<Sample> -> Option<V>)
    requires DistinctIds(samples) && |Sort(samples)| == |samples| && j < |samples| && Sort(samples)[j].id == id
    ensures var ordered := Sort(samples);
            Lookup(Features.Rows(ordered, |ordered|, DEFAULT_SETTINGS, extract), id) ==
            FeaturesAt(ordered, j, DEFAULT_SETTINGS, extract)
  {
    SortMembers(samples);
    hide Sort, FeaturesAt, Lookup, Features.Rows;
    LookupFinds(Sort(samples), |samples|, j, extract);
  }

  /** Where a sample comes in the order. */
  lemma Position(samples: seq<Sample>, x: Sample) returns (j: nat)
    requires DistinctIds(samples) && x in samples
    ensures |Sort(samples)| == |samples| && j < |samples| && Sort(samples)[j] == x
  {
    SortMembers(samples);
    j :| 0 <= j < |Sort(samples)| && Sort(samples)[j] == x;
  }

  /** Where target `k` of a call comes in the order of its context. */
  function Place(rows: seq<Row>, ready: bool, k: nat): nat
    requires k < |Targets(rows, ready)| && Targets(rows, ready)[k] < |rows|
  {
    IndexOf(Sort(BatchSamples(rows, Targets(rows, ready))), rows[Targets(rows, ready)[k]].sample.id)
  }

  lemma PlaceIs(rows: seq<Row>, ready: bool, k: nat, context: seq<Sample>, x: Sample)
    requires k < |Targets(rows, ready)| && Targets(rows, ready)[k] < |rows|
    requires context == BatchSamples(rows, Targets(rows, ready)) && x == rows[Targets(rows, ready)[k]].sample
    requires DistinctIds(context) && x in context
    ensures var j := Place(rows, ready, k);
            |Sort(context)| == |context| && j < |context| && Sort(context)[j] == x
  {
    var j := Position(context, x);
    SortMembers(context);
    hide Sort, BatchSamples, Targets;
    IndexOfFinds(Sort(context), j);
  }

  /** The late rows of a table leave target `k` of the call alone. */
  ghost predicate TargetUntouched(rows: seq<Row>, ready: bool, k: nat)
    requires k < |Targets(rows, ready)| && Targets(rows, ready)[k] < |rows|
  {
    var context := BatchSamples(rows, Targets(rows, ready));
    Place(rows, ready, k) < |Sort(context)| ==> Untouched(Samples(rows), context, Place(rows, ready, k))
  }

  lemma ContextMembers(rows: seq<Row>, low: nat, high: nat, i: nat)
    requires Table(rows) && low <= i < high <= |rows|
    ensures DistinctIds(Samples(rows)) && DistinctIds(Samples(rows)[low..high])
    ensures Samples(rows)[i] == rows[i].sample && Samples(rows)[low..high][i - low] == rows[i].sample
    ensures forall x | x in Samples(rows)[low..high] :: x in Samples(rows)
  {
    Scoring.DistinctIds(rows, low, high);
    Scoring.DistinctIds(rows, 0, |rows|);
    assert Samples(rows)[0..|rows|] == Samples(rows);
  }

  lemma SameFound<V>(all: seq<Sample>, p: nat, context: seq<Sample>, j: nat, id: int, extract: seq<Sample> -> Option<V>)
    requires DistinctIds(all) && |Sort(all)| == |all| && p < |all| && Sort(all)[p].id == id
    requires DistinctIds(context) && |Sort(context)| == |context| && j < |context| && Sort(context)[j].id == id
    requires Recent(Sort(all), p) == Recent(Sort(context), j)
    ensures Lookup(Features.Rows(Sort(context), |Sort(context)|, DEFAULT_SETTINGS, extract), id) ==
            Lookup(Features.Rows(Sort(all), |Sort(all)|, DEFAULT_SETTINGS, extract), id)
  {
    hide Sort, Lookup, Features.Rows, Recent, FeaturesAt, DistinctIds;
    SameFeatures(Sort(all), p, Sort(context), j, extract);
    FeaturesFound(all, id, p, extract);
    FeaturesFound(context, id, j, extract);
  }

  lemma SameDiagnosis<V>(all: seq<Sample>, low: nat, high: nat, i: nat, scorer: Scorer<V>)
    requires low <= i < high <= |all| && DistinctIds(all) && DistinctIds(all[low..high])
    requires low == 0 || i + 1 >= low + CONTEXT_ROWS
    ensures Diagnosis(all[low..high], all[i].id, scorer) == Diagnosis(all, all[i].id, scorer)
  {
    var context := all[low..high];
    assert context[i - low] == all[i];
    IndexOfFinds(all, i);
    IndexOfFinds(context, i - low);
    SliceRecent(all, low, high, i);
    hide Recent, IndexOf;
  }

  lemma WindowScoresAlike<V>(rows: seq<Row>, ready: bool, scorer: Scorer<V>, low: nat, high: nat, i: nat,
                            context: seq<Sample>, p: nat, j: nat)
    requires low <= i < high <= |rows| && (low == 0 || i + 1 >= low + CONTEXT_ROWS)
    requires context == Samples(rows)[low..high] && DistinctIds(Samples(rows)) && DistinctIds(context)
    requires |Sort(Samples(rows))| == |rows| && p < |rows| && Sort(Samples(rows))[p] == rows[i].sample
    requires |Sort(context)| == |context| && j < |context| && Sort(context)[j] == rows[i].sample
    requires Recent(Sort(Samples(rows)), p) == Recent(Sort(context), j)
    ensures ScoredRow(rows, i, ready, context, scorer) == WholeHistoryRow(rows, i, ready, scorer)
  {
    var all, id := Samples(rows), rows[i].sample.id;
    assert all[i] == rows[i].sample;
    hide Sort, Lookup, Features.Rows, Updated, Recent, ScoredRow, FeaturesAt, Diagnosis, DistinctIds;
    SameFound(all, p, context, j, id, scorer.extract);
    SameDiagnosis(all, low, high, i, scorer);
    ScoredRowIs(rows, i, ready, context, scorer);
    ScoredRowIs(rows, i, ready, all, scorer);
  }

  /**
   * Whatever the order of receipt: a target is written as one pass over the whole history would write it, if no
   * sample outside the context of its batch comes among its last twelve.
   */
  lemma UntouchedEqualsWhole<V>(rows: seq<Row>, ready: bool, scorer: Scorer<V>, k: nat)
    requires Table(rows) && k < |Targets(rows, ready)|
    ensures var targets := Targets(rows, ready);
            && targets[k] < |rows|
            && (TargetUntouched(rows, ready, k) ==>
                  ScoredRow(rows, targets[k], ready, BatchSamples(rows, targets), scorer) ==
                  WholeHistoryRow(rows, targets[k], ready, scorer))
  {
    CallContext(rows, ready, k);
    hide Sort, CallSpan, ScoredRow, Recent, Untouched, Place, Table, Matches;
    var i := Targets(rows, ready)[k];
    var (low, high) := CallSpan(rows, ready);
    var all, context := Samples(rows), BatchSamples(rows, Targets(rows, ready));
    ContextMembers(rows, low, high, i);
    var x, j := rows[i].sample, Place(rows, ready, k);
    assert context[i - low] == x && all[i] == x;
    PlaceIs(rows, ready, k, context, x);
    var p := Position(all, x);
    SameTwelve(all, context, p, j);
    if TargetUntouched(rows, ready, k) {
      WindowScoresAlike(rows, ready, scorer, low, high, i, context, p, j);
    }
  }

  // ----- a late row that is missed

  /**
   * Five finite readings in a row that wait for a score, and a sixth, earlier in time, that was received later and
   * was handled before: too few for a window in the batch, enough in the whole history.
   */
  ghost predicate LateRow(rows: seq<Row>) {
    && |rows| == 6 && Table(rows) && Ordered(Samples(rows)[..5])
    && (forall i | 0 <= i < 5 :: Matching(rows[i], true))
    && !Matching(rows[5], true) && rows[4].receivedAt < rows[5].receivedAt
    && (forall i | 0 <= i < 5 :: !Precedes(rows[i].sample, rows[5].sample))
    && rows[4].sample.time - rows[5].sample.time <= DEFAULT_SETTINGS.maximumGap
    && (forall i | 0 <= i < 6 :: rows[i].sample.Finite())
  }

  /** Row `i` of such a table: received in turn, one second apart, the last one stamped a second before the first. */
  function ExampleRow(i: nat): Row {
    var time := if i == 5 then -1.0 else i as real;
    var one := Some(1.0);
    Row(i as real, Sample(i, time, one, one, one, one, one, true, false), if i == 5 then one else None, None, None)
  }

  lemma LateRowExists()
    ensures LateRow(seq(6, i requires 0 <= i < 6 => ExampleRow(i)))
  {
    var rows := seq(6, i requires 0 <= i < 6 => ExampleRow(i));
    assert forall i | 0 <= i < 5 :: Samples(rows)[..5][i] == ExampleRow(i).sample;
    assert forall i | 0 <= i < 6 :: rows[i] == ExampleRow(i);
  }

  lemma LateRowTargets(rows: seq<Row>)
    requires LateRow(rows)
    ensures Targets(rows, true) == [0, 1, 2, 3, 4]
  {
    var m := Matches(rows, true);
    hide Matching, Table, Ordered, Matches, Precedes;
    assert forall i | 0 <= i < 5 :: Matching(rows[i], true) ==> i in m;
    assert forall k | 0 <= k < |m| :: m[k] < 6 && m[k] != 5;
    CountUp(m, 5);
    assert m == [0, 1, 2, 3, 4];
  }

  lemma {:induction false} CountUp(m: seq<nat>, n: nat)
    requires forall j, k | 0 <= j < k < |m| :: m[j] < m[k]
    requires forall k | 0 <= k < |m| :: m[k] < n
    requires forall i: nat | i < n :: i in m
    ensures |m| == n && forall k | 0 <= k < n :: m[k] == k
    decreases |m|
  {
    if m == [] {
      assert n == 0 || 0 in m;
    } else {
      var last := m[|m| - 1];
      assert last < n && n - 1 in m;
      var q :| 0 <= q < |m| && m[q] == n - 1;
      assert q == |m| - 1;
      var before := m[..q];
      forall i: nat | i < n - 1
        ensures i in before
      {
        assert i in m;
        var k :| 0 <= k < |m| && m[k] == i;
        assert before[k] == i;
      }
      CountUp(before, n - 1);
    }
  }

  lemma LateRowContext(rows: seq<Row>)
    requires LateRow(rows)
    ensures Targets(rows, true) == [0, 1, 2, 3, 4] && BatchSamples(rows, [0, 1, 2, 3, 4]) == Samples(rows)[..5]
  {
    LateRowTargets(rows);
    CallContext(rows, true, 0);
    CallContext(rows, true, 4);
    hide Targets, BatchSamples, CallSpan, Ordered, Matching, Precedes;
    var (low, high) := CallSpan(rows, true);
    assert low == 0 && high == 5;
  }

  /** A sample before all others is sorted to the front. */
  lemma {:induction false} InsertFirst(s: seq<Sample>, x: Sample)
    requires forall i | 0 <= i < |s| :: !Precedes(s[i], x)
    ensures Insert(s, x) == [x] + s
  {
    if s != [] {
      InsertFirst(s[..|s| - 1], x);
      assert s == s[..|s| - 1] + [s[|s| - 1]];
    }
  }

  lemma LateRowOrder(rows: seq<Row>)
    requires LateRow(rows)
    ensures Sort(Samples(rows)) == [rows[5].sample] + Samples(rows)[..5]
    ensures Sort(Samples(rows)[..5]) == Samples(rows)[..5]
  {
    var all, five := Samples(rows), Samples(rows)[..5];
    SortKeepsOrdered(five);
    hide Precedes, Ordered, Insert;
    assert all[..|all| - 1] == five && all[5] == rows[5].sample;
    InsertFirst(five, all[5]);
  }

  /** Six samples without a gap form the window of the last. */
  lemma WholeWindow(s: seq<Sample>, i: nat)
    requires i < |s| && i + 1 <= DEFAULT_SETTINGS.windowSize
    requires forall k | 0 < k <= i :: !Gap(s, k, DEFAULT_SETTINGS)
    ensures Window(s, i, DEFAULT_SETTINGS) == s[..i + 1]
  {
    StartIsStart(s, i, DEFAULT_SETTINGS);
    StartUnique(s, i, DEFAULT_SETTINGS, 0, Start(s, i, DEFAULT_SETTINGS));
    hide Start;
  }

  lemma LateRowWindow(rows: seq<Row>)
    requires LateRow(rows)
    ensures var six := [rows[5].sample] + Samples(rows)[..5];
            Window(six, 5, DEFAULT_SETTINGS) == six && forall x | x in six :: x.Finite()
  {
    var six := [rows[5].sample] + Samples(rows)[..5];
    assert |six| == 6;
    hide Gap, Samples, Window;
    forall k | 0 < k <= 5
      ensures !Gap(six, k, DEFAULT_SETTINGS)
    {
      LateRowNoGap(rows, k);
    }
    LateRowFinite(rows);
    hide LateRow;
    WholeWindow(six, 5);
    assert six[..6] == six;
  }

  lemma LateRowNoGap(rows: seq<Row>, k: nat)
    requires LateRow(rows) && 0 < k <= 5
    ensures !Gap([rows[5].sample] + Samples(rows)[..5], k, DEFAULT_SETTINGS)
  {
    LateRowSpan(rows, k - 1);
    if k > 1 {
      LateRowSpan(rows, k - 2);
    }
    var five := Samples(rows)[..5];
    var six := [rows[5].sample] + five;
    assert six[k] == five[k - 1] == rows[k - 1].sample;
    assert k > 1 ==> six[k - 1] == five[k - 2] == rows[k - 2].sample;
    hide LateRow, Samples;
  }

  lemma LateRowFinite(rows: seq<Row>)
    requires LateRow(rows)
    ensures forall x | x in [rows[5].sample] + Samples(rows)[..5] :: x.Finite()
  {
  }

  lemma LateRowSpan(rows: seq<Row>, k: nat)
    requires LateRow(rows) && k < 5
    ensures rows[5].sample.time <= rows[k].sample.time <= rows[4].sample.time
            && rows[4].sample.time - rows[5].sample.time <= DEFAULT_SETTINGS.maximumGap
  {
    assert Samples(rows)[..5][k] == rows[k].sample && Samples(rows)[..5][4] == rows[4].sample;
  }

  lemma LateRowFeatures<V>(rows: seq<Row>, extract: seq<Sample> -> Option<V>)
    requires LateRow(rows)
    ensures var six := [rows[5].sample] + Samples(rows)[..5];
            && FeaturesAt(Samples(rows)[..5], 4, DEFAULT_SETTINGS, extract) == None
            && FeaturesAt(six, 5, DEFAULT_SETTINGS, extract) == extract(six)
  {
    LateRowWindow(rows);
    hide Start, LateRow;
  }

  /** With a model ready a row gets a score exactly if there are features where it comes in the order of the context. */
  lemma ScoreNeedsFeatures<V>(rows: seq<Row>, i: nat, context: seq<Sample>, j: nat, scorer: Scorer<V>)
    requires i < |rows| && rows[i].score.None? && DistinctIds(context) && |Sort(context)| == |context| && j < |context|
    requires Sort(context)[j].id == rows[i].sample.id
    ensures ScoredRow(rows, i, true, context, scorer).score.Some? <==>
            FeaturesAt(Sort(context), j, DEFAULT_SETTINGS, scorer.extract).Some?
  {
    hide Sort, FeaturesAt, Lookup, Features.Rows, Diagnosis, DistinctIds;
    FeaturesFound(context, rows[i].sample.id, j, scorer.extract);
    ScoredRowIs(rows, i, true, context, scorer);
    hide ScoredRow;
  }

  lemma LateRowBatch<V>(rows: seq<Row>, scorer: Scorer<V>)
    requires LateRow(rows)
    ensures ScoredRow(rows, 4, true, Samples(rows)[..5], scorer).score.None?
  {
    var five := Samples(rows)[..5];
    LateRowOrder(rows);
    LateRowFeatures(rows, scorer.extract);
    ContextMembers(rows, 0, 5, 4);
    assert Samples(rows)[0..5] == five && five[4] == rows[4].sample;
    hide ScoredRow, FeaturesAt, Sort, Table, Ordered;
    ScoreNeedsFeatures(rows, 4, five, 4, scorer);
  }

  lemma LateRowWhole<V>(rows: seq<Row>, scorer: Scorer<V>)
    requires LateRow(rows) && scorer.extract([rows[5].sample] + Samples(rows)[..5]).Some?
    ensures WholeHistoryRow(rows, 4, true, scorer).score.Some?
  {
    var all := Samples(rows);
    LateRowOrder(rows);
    LateRowFeatures(rows, scorer.extract);
    ContextMembers(rows, 0, 6, 4);
    assert Sort(all)[5] == all[..5][4] == rows[4].sample;
    hide ScoredRow, FeaturesAt, Sort, Table, Ordered;
    ScoreNeedsFeatures(rows, 4, all, 5, scorer);
  }

  /** The last target waits for features in its batch, and gets a score in a pass over the whole history. */
  lemma LateRowIsMissed<V>(rows: seq<Row>, scorer: Scorer<V>)
    requires LateRow(rows) && scorer.extract([rows[5].sample] + Samples(rows)[..5]).Some?
    ensures Targets(rows, true) == [0, 1, 2, 3, 4]
    ensures ScoredRow(rows, 4, true, BatchSamples(rows, [0, 1, 2, 3, 4]), scorer).score.None?
    ensures WholeHistoryRow(rows, 4, true, scorer).score.Some?
  {
    LateRowContext(rows);
    LateRowBatch(rows, scorer);
    LateRowWhole(rows, scorer);
    hide ScoredRow, WholeHistoryRow, Targets, BatchSamples, LateRow;
  }
}

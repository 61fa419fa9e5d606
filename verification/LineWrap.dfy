/** The greedy line wrapper of the report builder, and why it uses the fewest lines. */
module LineWrap {

  /** A line of words separated by single spaces. */
  function Join(words: seq<string>): string {
    if words == [] then ""
    else if |words| == 1 then words[0]
    else Join(words[..|words| - 1]) + " " + words[|words| - 1]
  }

  /** A font's text width and the width available. */
  datatype Measure = Measure(width: string -> real, limit: real) {
    predicate Fits(words: seq<string>) { width(Join(words)) <= limit }
  }

  // ----- greedy wrapping as a function

  /** How many words a line takes that already holds the first `n`. */
  function Take(words: seq<string>, n: nat, m: Measure): (k: nat)
    requires 1 <= n <= |words|
    ensures n <= k <= |words|
    decreases |words| - n
  {
    if n < |words| && m.Fits(words[..n + 1]) then Take(words, n + 1, m) else n
  }

  function Greedy(words: seq<string>, m: Measure): seq<seq<string>> {
    if words == [] then []
    else [words[..Take(words, 1, m)]] + Greedy(words[Take(words, 1, m)..], m)
  }

  function Lines(groups: seq<seq<string>>): seq<string> {
    seq(|groups|, i requires 0 <= i < |groups| => Join(groups[i]))
  }

  /** The lines before `start` are closed as `groups`; the words from `start` to `index` share the current line. */
  ghost predicate Progress(words: seq<string>, m: Measure, groups: seq<seq<string>>, start: nat, index: nat) {
    && start < index <= |words|
    && Greedy(words, m) == groups + Greedy(words[start..], m)
    && Take(words[start..], 1, m) == Take(words[start..], index - start, m)
  }

  /** `words` is the result of splitting the text at white space. */
  method Wrap(words: seq<string>, m: Measure) returns (lines: seq<string>)
    ensures lines == Lines(Greedy(words, m))
  {
    if words == [] {
      return [];
    }
    assert words[0..] == words && Progress(words, m, [], 0, 1);
    JoinWord(words, 0);
    hide Join, Greedy, Progress, Lines;
    lines := [];
    var current := words[0];
    ghost var start := 0;
    ghost var groups: seq<seq<string>> := [];
    NoLines();
    for index := 1 to |words|
      invariant start < index && Join(words[start..index]) == current
      invariant lines == Lines(groups) && Progress(words, m, groups, start, index)
    {
      var word := words[index];
      var candidate := current + " " + word;
      JoinNext(words, start, index);
      if m.width(candidate) <= m.limit {
        current := candidate;
        ExtendLine(words, m, groups, start, index);
      } else {
        CloseLine(words, m, groups, start, index);
        JoinWord(words, index);
        LinesSnoc(groups, words[start..index]);
        lines := lines + [current];
        current := word;
        groups := groups + [words[start..index]];
        start := index;
      }
    }
    LastLine(words, m, groups, start);
    LinesSnoc(groups, words[start..|words|]);
    lines := lines + [current];
  }

  lemma NoLines()
    ensures Lines([]) == []
  {
  }

  lemma LinesSnoc(groups: seq<seq<string>>, group: seq<string>)
    ensures Lines(groups + [group]) == Lines(groups) + [Join(group)]
  {
    hide Join;
  }

  lemma JoinWord(words: seq<string>, i: nat)
    requires i < |words|
    ensures Join(words[i..i + 1]) == words[i]
  {
  }

  lemma JoinNext(words: seq<string>, start: nat, index: nat)
    requires start < index < |words|
    ensures Join(words[start..index + 1]) == Join(words[start..index]) + " " + words[index]
  {
    var line := words[start..index + 1];
    assert line[..|line| - 1] == words[start..index];
  }

  lemma ExtendLine(words: seq<string>, m: Measure, groups: seq<seq<string>>, start: nat, index: nat)
    requires Progress(words, m, groups, start, index) && index < |words| && m.Fits(words[start..index + 1])
    ensures Progress(words, m, groups, start, index + 1)
  {
    assert words[start..][..index - start + 1] == words[start..index + 1];
  }

  lemma CloseLine(words: seq<string>, m: Measure, groups: seq<seq<string>>, start: nat, index: nat)
    requires Progress(words, m, groups, start, index) && index < |words| && !m.Fits(words[start..index + 1])
    ensures Progress(words, m, groups + [words[start..index]], index, index + 1)
  {
    var rest := words[start..];
    assert rest[..index - start + 1] == words[start..index + 1];
    assert rest[..index - start] == words[start..index];
    assert rest[index - start..] == words[index..];
    assert Greedy(rest, m) == [words[start..index]] + Greedy(words[index..], m);
  }

  lemma LastLine(words: seq<string>, m: Measure, groups: seq<seq<string>>, start: nat)
    requires Progress(words, m, groups, start, |words|)
    ensures Greedy(words, m) == groups + [words[start..|words|]]
  {
    var rest := words[start..];
    assert rest[..|rest|] == rest == words[start..|words|];
    assert rest[|rest|..] == [] && Greedy([], m) == [];
    assert Greedy(rest, m) == [rest] + Greedy([], m);
  }

  // ----- what wrapping promises

  function Flatten(groups: seq<seq<string>>): seq<string> {
    if groups == [] then [] else groups[0] + Flatten(groups[1..])
  }

  /** Each line fits, or is a single word. */
  ghost predicate Acceptable(groups: seq<seq<string>>, m: Measure) {
    forall g | g in groups :: g != [] && (|g| == 1 || m.Fits(g))
  }

  ghost predicate IsSplit(groups: seq<seq<string>>, words: seq<string>, m: Measure) {
    Flatten(groups) == words && Acceptable(groups, m)
  }

  lemma {:induction false} TakeFits(words: seq<string>, n: nat, m: Measure)
    requires 1 <= n <= |words| && (n == 1 || m.Fits(words[..n]))
    ensures var k := Take(words, n, m);
            && (k == 1 || m.Fits(words[..k])) && (k < |words| ==> !m.Fits(words[..k + 1]))
    decreases |words| - n
  {
    if n < |words| && m.Fits(words[..n + 1]) {
      TakeFits(words, n + 1, m);
    }
  }

  /** Wrapping keeps the words in order, and every line fits or is a single word. */
  lemma {:induction false} GreedyIsSplit(words: seq<string>, m: Measure)
    ensures IsSplit(Greedy(words, m), words, m)
    decreases |words|
  {
    if words != [] {
      var k := Take(words, 1, m);
      TakeFits(words, 1, m);
      GreedyIsSplit(words[k..], m);
      assert Greedy(words, m)[1..] == Greedy(words[k..], m);
      assert words == words[..k] + words[k..];
    }
  }

  /** What fits, fits in parts. */
  ghost predicate PartsFit(m: Measure) {
    forall words: seq<string>, a, b | 0 <= a < b <= |words| && m.Fits(words) :: m.Fits(words[a..b])
  }

  /** As in left-to-right text, where a part of a phrase is no wider than the phrase. */
  lemma MonotoneWidthsSuffice(m: Measure)
    requires forall words: seq<string>, a, b | 0 <= a < b <= |words| ::
               m.width(Join(words[a..b])) <= m.width(Join(words))
    ensures PartsFit(m)
  {
    hide Join;
  }

  lemma PartFits(phrase: seq<string>, a: nat, b: nat, m: Measure)
    requires PartsFit(m) && m.Fits(phrase) && a < b <= |phrase|
    ensures m.Fits(phrase[a..b])
  {
    hide Measure.Fits;
  }

  /** A line that starts inside another's first line reaches at least as far. */
  lemma TakeReaches(words: seq<string>, i: nat, m: Measure)
    requires PartsFit(m) && words != [] && 0 < i < Take(words, 1, m)
    ensures i + Take(words[i..], 1, m) >= Take(words, 1, m)
  {
    hide Take, Measure.Fits, PartsFit;
    var k, rest := Take(words, 1, m), words[i..];
    var j := Take(rest, 1, m);
    TakeFits(words, 1, m);
    TakeFits(rest, 1, m);
    if i + j < k {
      PartFits(words[..k], i, i + j + 1, m);
      SamePart(words, i, i + j + 1, k);
      assert false;
    }
  }

  lemma SamePart(words: seq<string>, a: nat, b: nat, k: nat)
    requires a <= b <= k <= |words|
    ensures words[..k][a..b] == words[a..][..b - a]
  {
  }

  lemma GreedyCount(words: seq<string>, m: Measure)
    requires words != []
    ensures |Greedy(words, m)| == 1 + |Greedy(words[Take(words, 1, m)..], m)|
  {
  }

  /** Dropping leading words never costs a line. */
  lemma {:induction false} SuffixNeedsNoMore(words: seq<string>, i: nat, m: Measure)
    requires PartsFit(m) && i <= |words|
    ensures |Greedy(words[i..], m)| <= |Greedy(words, m)|
    decreases |words|
  {
    hide Take, PartsFit, Greedy;
    if words == [] || i == 0 {
      assert words[i..] == words;
    } else {
      var k := Take(words, 1, m);
      GreedyCount(words, m);
      if i < k {
        TakeReaches(words, i, m);
        var rest := words[i..];
        var j := Take(rest, 1, m);
        GreedyCount(rest, m);
        assert rest[j..] == words[k..][i + j - k..];
        SuffixNeedsNoMore(words[k..], i + j - k, m);
      } else {
        assert words[i..] == words[k..][i - k..];
        SuffixNeedsNoMore(words[k..], i - k, m);
      }
    }
  }

  /** The first line of a split holds no more words than greedy's. */
  lemma FirstLineNoLonger(words: seq<string>, first: seq<string>, m: Measure)
    requires PartsFit(m) && first != [] && first <= words && (|first| == 1 || m.Fits(first))
    ensures |first| <= Take(words, 1, m)
  {
    hide Take, Measure.Fits, PartsFit;
    var k := Take(words, 1, m);
    if |first| > k {
      PartFits(first, 0, k + 1, m);
      assert words[..k + 1] == first[0..k + 1];
      TakeFits(words, 1, m);
      assert false;
    }
  }

  lemma SplitTail(words: seq<string>, groups: seq<seq<string>>, m: Measure)
    requires IsSplit(groups, words, m) && groups != []
    ensures var first := groups[0];
            && first != [] && first <= words && (|first| == 1 || m.Fits(first))
            && IsSplit(groups[1..], words[|first|..], m)
  {
    assert groups[0] in groups && forall g | g in groups[1..] :: g in groups;
    assert words == groups[0] + Flatten(groups[1..]);
    assert words[|groups[0]|..] == Flatten(groups[1..]);
  }

  /** No split of the same words into acceptable lines has fewer lines. */
  lemma {:induction false} GreedyIsOptimal(words: seq<string>, groups: seq<seq<string>>, m: Measure)
    requires PartsFit(m) && IsSplit(groups, words, m)
    ensures |Greedy(words, m)| <= |groups|
    decreases |groups|
  {
    hide Take, PartsFit, Measure.Fits, Acceptable;
    if groups != [] {
      hide Greedy, IsSplit;
      var first := groups[0];
      SplitTail(words, groups, m);
      var j, k := |first|, Take(words, 1, m);
      GreedyIsOptimal(words[j..], groups[1..], m);
      FirstLineNoLonger(words, first, m);
      GreedyCount(words, m);
      assert words[k..] == words[j..][k - j..];
      SuffixNeedsNoMore(words[j..], k - j, m);
    }
  }

  lemma {:induction false} TakeStops(words: seq<string>, n: nat, stop: nat, m: Measure)
    requires 1 <= n < stop <= |words| && !m.Fits(words[..stop])
    ensures Take(words, n, m) < stop
    decreases |words| - n
  {
    if n + 1 < stop && m.Fits(words[..n + 1]) {
      TakeStops(words, n + 1, stop, m);
    }
  }

  /** Where parts need not fit greedy can lose: a phrase that fits but begins with one too wide takes two lines. */
  lemma PartsMustFit(words: seq<string>, n: nat, m: Measure)
    requires 1 < n < |words| && m.Fits(words) && !m.Fits(words[..n])
    ensures IsSplit([words], words, m) && |Greedy(words, m)| >= 2
  {
    hide Measure.Fits, Take;
    assert Flatten([words]) == words by {
      assert [words][1..] == [] && words + [] == words;
    }
    assert Acceptable([words], m);
    TakeStops(words, 1, n, m);
    GreedyCount(words, m);
    var rest := words[Take(words, 1, m)..];
    assert rest != [];
    GreedyCount(rest, m);
  }
}

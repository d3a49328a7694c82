/** Scoring CNV calls against a ground truth (`sta_performance`): base-pair
    overlap between calls and truth intervals of the same type, the total
    lengths of both sets, precision and sensitivity. */
module Performance {

  /** An inclusive interval [start, end] with the name of its variant type. */
  datatype Interval = Interval(start: int, end: int, kind: string)

  predicate WellFormed(x: Interval)
  {
    x.start <= x.end
  }

  predicate AllWellFormed(xs: seq<Interval>)
  {
    forall k :: 0 <= k < |xs| ==> WellFormed(xs[k])
  }

  /** Inclusive length, as the scorer sums it. */
  function Length(x: Interval): int
  {
    x.end - x.start + 1
  }

  /** Type of a truth interval in the simulated data set: a 'gain' state is
      a duplication, every other state a deletion. */
  function TruthType(state: string): string
  {
    if state == "gain" then "duplication" else "deletion"
  }

  lemma TruthTypeNames(state: string)
    ensures TruthType(state) == "duplication" <==> state == "gain"
    ensures TruthType(state) == "duplication" || TruthType(state) == "deletion"
  {
  }

  /** The parallel columns as intervals. */
  function Intervals(starts: seq<int>, ends: seq<int>, kinds: seq<string>): (xs: seq<Interval>)
    requires |ends| == |starts| && |kinds| == |starts|
    ensures |xs| == |starts|
  {
    seq(|starts|, k requires 0 <= k < |starts| => Interval(starts[k], ends[k], kinds[k]))
  }

  // ---------------------------------------------------------------------
  // Overlap of one (call, truth) pair

  /** The base pairs one (call, truth) pair adds to the covered count, by
      the scorer's own case analysis: the call starts inside the truth
      interval, or the truth interval starts at or after the call's start. */
  function Contribution(c: Interval, t: Interval): int
  {
    if t.start <= c.start <= t.end && t.kind == c.kind then
      if c.end <= t.end then c.end - c.start + 1
      else t.end - c.start + 1
    else if t.start >= c.start && t.kind == c.kind then
      if t.start <= c.end <= t.end then c.end - t.start + 1
      else if c.end >= t.end then t.end - t.start + 1
      else 0
    else 0
  }

  function Min(a: int, b: int): int { if a <= b then a else b }
  function Max(a: int, b: int): int { if a <= b then b else a }

  /** Number of positions two intervals share. */
  function Overlap(c: Interval, t: Interval): nat
  {
    var lo, hi := Max(c.start, t.start), Min(c.end, t.end);
    if lo <= hi then hi - lo + 1 else 0
  }

  /** The reference measure: shared positions when the types agree. */
  function MatchedOverlap(c: Interval, t: Interval): int
  {
    if c.kind == t.kind then Overlap(c, t) else 0
  }

  /** For well-formed intervals the scorer's case analysis counts exactly
      the shared positions of two intervals of the same type, and nothing
      for intervals of different types or disjoint intervals. */
  lemma ContributionIsOverlap(c: Interval, t: Interval)
    requires WellFormed(c) && WellFormed(t)
    ensures Contribution(c, t) == MatchedOverlap(c, t)
    ensures c.end < t.start || t.end < c.start ==> Contribution(c, t) == 0
  {
  }

  // ---------------------------------------------------------------------
  // Sums

  /** Sum of `f(c, t)` over the truth intervals `ts`. */
  function RowSum(c: Interval, ts: seq<Interval>, f: (Interval, Interval) -> int): int
    decreases |ts|
  {
    if |ts| == 0 then 0
    else RowSum(c, ts[..|ts| - 1], f) + f(c, ts[|ts| - 1])
  }

  /** Sum of `f(c, t)` over every (call, truth) pair. */
  function PairSum(cs: seq<Interval>, ts: seq<Interval>, f: (Interval, Interval) -> int): int
    decreases |cs|
  {
    if |cs| == 0 then 0
    else PairSum(cs[..|cs| - 1], ts, f) + RowSum(cs[|cs| - 1], ts, f)
  }

  /** `count`: the uncapped sum of the contributions of all pairs. */
  function Covered(cs: seq<Interval>, ts: seq<Interval>): int
  {
    PairSum(cs, ts, Contribution)
  }

  /** `result_count` and `truth_count`: the summed inclusive lengths. */
  function TotalLength(xs: seq<Interval>): int
    decreases |xs|
  {
    if |xs| == 0 then 0
    else TotalLength(xs[..|xs| - 1]) + Length(xs[|xs| - 1])
  }

  lemma TakeNext<T>(s: seq<T>, i: nat)
    requires i < |s|
    ensures s[..i + 1][..i] == s[..i] && s[..i + 1][i] == s[i]
  {
  }

  lemma RowSumStep(c: Interval, ts: seq<Interval>, f: (Interval, Interval) -> int, j: nat)
    requires j < |ts|
    ensures RowSum(c, ts[..j + 1], f) == RowSum(c, ts[..j], f) + f(c, ts[j])
  {
    TakeNext(ts, j);
  }

  lemma PairSumStep(cs: seq<Interval>, ts: seq<Interval>, f: (Interval, Interval) -> int, i: nat)
    requires i < |cs|
    ensures PairSum(cs[..i + 1], ts, f) == PairSum(cs[..i], ts, f) + RowSum(cs[i], ts, f)
  {
    TakeNext(cs, i);
  }

  lemma TotalLengthStep(xs: seq<Interval>, i: nat)
    requires i < |xs|
    ensures TotalLength(xs[..i + 1]) == TotalLength(xs[..i]) + Length(xs[i])
  {
    TakeNext(xs, i);
  }

  /** Two pair measures that agree on every pair have the same sums. */
  lemma {:induction false} RowSumAgree(c: Interval, ts: seq<Interval>, f: (Interval, Interval) -> int,
                                       g: (Interval, Interval) -> int)
    requires forall t :: t in ts ==> f(c, t) == g(c, t)
    ensures RowSum(c, ts, f) == RowSum(c, ts, g)
    decreases |ts|
  {
    if |ts| > 0 {
      var init := ts[..|ts| - 1];
      assert forall t :: t in init ==> t in ts;
      RowSumAgree(c, init, f, g);
      assert ts[|ts| - 1] in ts;
    }
  }

  lemma {:induction false} PairSumAgree(cs: seq<Interval>, ts: seq<Interval>, f: (Interval, Interval) -> int,
                                        g: (Interval, Interval) -> int)
    requires forall c, t :: c in cs && t in ts ==> f(c, t) == g(c, t)
    ensures PairSum(cs, ts, f) == PairSum(cs, ts, g)
    decreases |cs|
  {
    if |cs| > 0 {
      var init := cs[..|cs| - 1];
      assert forall c :: c in init ==> c in cs;
      PairSumAgree(init, ts, f, g);
      assert cs[|cs| - 1] in cs;
      RowSumAgree(cs[|cs| - 1], ts, f, g);
    }
  }

  /** On well-formed input the covered count is the sum, over all pairs of
      the same type, of the positions they share: one call can collect
      overlap from several truth intervals, and nothing caps it at the
      call's own length. */
  lemma CoveredIsMatchedOverlap(cs: seq<Interval>, ts: seq<Interval>)
    requires AllWellFormed(cs) && AllWellFormed(ts)
    ensures Covered(cs, ts) == PairSum(cs, ts, MatchedOverlap)
  {
    var f: (Interval, Interval) -> int := Contribution;
    var g: (Interval, Interval) -> int := MatchedOverlap;
    forall c, t | c in cs && t in ts ensures f(c, t) == g(c, t) {
      var k :| 0 <= k < |cs| && cs[k] == c;
      var l :| 0 <= l < |ts| && ts[l] == t;
      ContributionIsOverlap(c, t);
    }
    PairSumAgree(cs, ts, f, g);
  }

  lemma {:induction false} TotalLengthPositive(xs: seq<Interval>)
    requires AllWellFormed(xs)
    ensures TotalLength(xs) >= |xs|
    decreases |xs|
  {
    if |xs| > 0 {
      TotalLengthPositive(xs[..|xs| - 1]);
      assert WellFormed(xs[|xs| - 1]);
    }
  }

  lemma {:induction false} RowSumNonNegative(c: Interval, ts: seq<Interval>)
    requires WellFormed(c) && AllWellFormed(ts)
    ensures RowSum(c, ts, Contribution) >= 0
    decreases |ts|
  {
    if |ts| > 0 {
      RowSumNonNegative(c, ts[..|ts| - 1]);
      ContributionIsOverlap(c, ts[|ts| - 1]);
    }
  }

  lemma {:induction false} CoveredNonNegative(cs: seq<Interval>, ts: seq<Interval>)
    requires AllWellFormed(cs) && AllWellFormed(ts)
    ensures Covered(cs, ts) >= 0
    decreases |cs|
  {
    if |cs| > 0 {
      CoveredNonNegative(cs[..|cs| - 1], ts);
      RowSumNonNegative(cs[|cs| - 1], ts);
    }
  }

  // ---------------------------------------------------------------------
  // Bounds on the covered count

  /** The positions lo..hi. */
  function Range(lo: int, hi: int): (r: set<int>)
    ensures forall i :: i in r <==> lo <= i <= hi
    decreases if lo <= hi then hi - lo + 1 else 0
  {
    if lo > hi then {} else Range(lo, hi - 1) + {hi}
  }

  function Span(x: Interval): set<int>
  {
    Range(x.start, x.end)
  }

  /** The positions covered by any of the intervals. */
  function Union(xs: seq<Interval>): set<int>
    decreases |xs|
  {
    if |xs| == 0 then {} else Union(xs[..|xs| - 1]) + Span(xs[|xs| - 1])
  }

  predicate Apart(a: Interval, b: Interval)
  {
    a.end < b.start || b.end < a.start
  }

  /** No two intervals of the set share a position. */
  predicate Disjoint(xs: seq<Interval>)
  {
    forall k, l :: 0 <= k < l < |xs| ==> Apart(xs[k], xs[l])
  }

  lemma {:induction false} RangeSize(lo: int, hi: int)
    ensures |Range(lo, hi)| == if lo <= hi then hi - lo + 1 else 0
    decreases if lo <= hi then hi - lo + 1 else 0
  {
    if lo <= hi {
      RangeSize(lo, hi - 1);
    }
  }

  /** The overlap of two intervals is the number of positions they share. */
  lemma OverlapIsShared(c: Interval, t: Interval)
    ensures Overlap(c, t) == |Span(c) * Span(t)|
  {
    var lo, hi := Max(c.start, t.start), Min(c.end, t.end);
    assert Span(c) * Span(t) == Range(lo, hi);
    RangeSize(lo, hi);
  }

  lemma {:induction false} ApartFromUnion(xs: seq<Interval>, t: Interval)
    requires forall k :: 0 <= k < |xs| ==> Apart(xs[k], t)
    ensures Union(xs) * Span(t) == {}
    decreases |xs|
  {
    if |xs| > 0 {
      ApartFromUnion(xs[..|xs| - 1], t);
      assert Apart(xs[|xs| - 1], t);
      assert Span(xs[|xs| - 1]) * Span(t) == {};
    }
  }

  /** Against pairwise disjoint truth intervals, a call collects no more
      than the positions of its own that some truth interval covers. */
  lemma {:induction false} RowWithinUnion(c: Interval, ts: seq<Interval>)
    requires Disjoint(ts)
    ensures RowSum(c, ts, MatchedOverlap) <= |Span(c) * Union(ts)|
    decreases |ts|
  {
    if |ts| > 0 {
      var init, t := ts[..|ts| - 1], ts[|ts| - 1];
      RowWithinUnion(c, init);
      OverlapIsShared(c, t);
      forall k | 0 <= k < |init| ensures Apart(init[k], t) {
        assert Apart(ts[k], ts[|ts| - 1]);
      }
      ApartFromUnion(init, t);
      var a, u := Span(c) * Union(init), Span(c) * Span(t);
      assert a * u == {};
      assert Span(c) * Union(ts) == a + u;
    }
  }

  lemma RowWithinCall(c: Interval, ts: seq<Interval>)
    requires WellFormed(c) && Disjoint(ts)
    ensures RowSum(c, ts, MatchedOverlap) <= Length(c)
  {
    RowWithinUnion(c, ts);
    RangeSize(c.start, c.end);
    var a := Span(c) * Union(ts);
    assert Span(c) == a + (Span(c) - Union(ts));
  }

  lemma {:induction false} PairSumWithinCalls(cs: seq<Interval>, ts: seq<Interval>)
    requires AllWellFormed(cs) && Disjoint(ts)
    ensures PairSum(cs, ts, MatchedOverlap) <= TotalLength(cs)
    decreases |cs|
  {
    if |cs| > 0 {
      PairSumWithinCalls(cs[..|cs| - 1], ts);
      RowWithinCall(cs[|cs| - 1], ts);
    }
  }

  lemma {:induction false} PairSumSnocRight(cs: seq<Interval>, ts: seq<Interval>, t: Interval)
    ensures PairSum(cs, ts + [t], MatchedOverlap) == PairSum(cs, ts, MatchedOverlap) + RowSum(t, cs, MatchedOverlap)
    decreases |cs|
  {
    if |cs| > 0 {
      var init, c := cs[..|cs| - 1], cs[|cs| - 1];
      PairSumSnocRight(init, ts, t);
      assert (ts + [t])[..|ts|] == ts;
      assert MatchedOverlap(c, t) == MatchedOverlap(t, c);
    }
  }

  lemma {:induction false} PairSumNoTruth(cs: seq<Interval>)
    ensures PairSum(cs, [], MatchedOverlap) == 0
    decreases |cs|
  {
    if |cs| > 0 {
      PairSumNoTruth(cs[..|cs| - 1]);
    }
  }

  /** The matched overlap is symmetric, so summing it over all pairs does
      not depend on which side is the outer loop. */
  lemma {:induction false} PairSumSwap(cs: seq<Interval>, ts: seq<Interval>)
    ensures PairSum(cs, ts, MatchedOverlap) == PairSum(ts, cs, MatchedOverlap)
    decreases |ts|
  {
    if |ts| == 0 {
      PairSumNoTruth(cs);
    } else {
      var init, t := ts[..|ts| - 1], ts[|ts| - 1];
      PairSumSwap(cs, init);
      PairSumSnocRight(cs, init, t);
      assert init + [t] == ts;
    }
  }

  /** With pairwise disjoint truth intervals the covered count is at most
      the calls' total length; with pairwise disjoint calls, at most the
      truth set's total length. */
  lemma CoveredBounds(cs: seq<Interval>, ts: seq<Interval>)
    requires AllWellFormed(cs) && AllWellFormed(ts)
    ensures Disjoint(ts) ==> Covered(cs, ts) <= TotalLength(cs)
    ensures Disjoint(cs) ==> Covered(cs, ts) <= TotalLength(ts)
  {
    CoveredIsMatchedOverlap(cs, ts);
    if Disjoint(ts) {
      PairSumWithinCalls(cs, ts);
    }
    if Disjoint(cs) {
      PairSumSwap(cs, ts);
      PairSumWithinCalls(ts, cs);
    }
  }

  // ---------------------------------------------------------------------
  // Precision and sensitivity

  /** The scores, or the division by zero the scorer meets when the truth
      set has no length. */
  datatype Outcome = Scored(precision: real, sensitivity: real) | DivisionByZero

  /** Precision is the covered count over the calls' length (0 when there
      are no calls); sensitivity the covered count over the truth length. */
  function Score(cs: seq<Interval>, ts: seq<Interval>): Outcome
  {
    var count, resultCount, truthCount := Covered(cs, ts), TotalLength(cs), TotalLength(ts);
    if truthCount == 0 then DivisionByZero
    else
      var precision := if resultCount == 0 then 0.0 else count as real / resultCount as real;
      Scored(precision, count as real / truthCount as real)
  }

  /** `sta_performance` on the parallel columns of the calls and of the
      truth set: the double loop sums the contributions of all pairs, two
      loops sum the lengths, and the ratios follow. */
  method StaPerformance(resultStart: seq<int>, resultEnd: seq<int>, resultType: seq<string>,
                        truthStart: seq<int>, truthEnd: seq<int>, truthType: seq<string>)
    returns (r: Outcome)
    requires |resultEnd| == |resultStart| && |resultType| == |resultStart|
    requires |truthEnd| == |truthStart| && |truthType| == |truthStart|
    ensures r == Score(Intervals(resultStart, resultEnd, resultType), Intervals(truthStart, truthEnd, truthType))
  {
    ghost var cs := Intervals(resultStart, resultEnd, resultType);
    ghost var ts := Intervals(truthStart, truthEnd, truthType);

    var count := 0;
    for i := 0 to |resultType|
      invariant count == PairSum(cs[..i], ts, Contribution)
    {
      for j := 0 to |truthType|
        invariant count == PairSum(cs[..i], ts, Contribution) + RowSum(cs[i], ts[..j], Contribution)
      {
        RowSumStep(cs[i], ts, Contribution, j);
        if truthStart[j] <= resultStart[i] <= truthEnd[j] && truthType[j] == resultType[i] {
          if resultEnd[i] <= truthEnd[j] {
            count := count + (resultEnd[i] - resultStart[i] + 1);
          } else if resultEnd[i] > truthEnd[j] {
            count := count + (truthEnd[j] - resultStart[i] + 1);
          }
        } else if truthStart[j] >= resultStart[i] && truthType[j] == resultType[i] {
          if truthStart[j] <= resultEnd[i] <= truthEnd[j] {
            count := count + (resultEnd[i] - truthStart[j] + 1);
          } else if resultEnd[i] >= truthEnd[j] {
            count := count + (truthEnd[j] - truthStart[j] + 1);
          }
        }
      }
      assert ts[..|truthType|] == ts;
      PairSumStep(cs, ts, Contribution, i);
    }
    assert cs[..|resultType|] == cs;

    var resultCount := 0;
    for i := 0 to |resultStart|
      invariant resultCount == TotalLength(cs[..i])
    {
      TotalLengthStep(cs, i);
      resultCount := resultCount + (resultEnd[i] - resultStart[i] + 1);
    }
    assert cs[..|resultStart|] == cs;

    var truthCount := 0;
    for i := 0 to |truthStart|
      invariant truthCount == TotalLength(ts[..i])
    {
      TotalLengthStep(ts, i);
      truthCount := truthCount + (truthEnd[i] - truthStart[i] + 1);
    }
    assert ts[..|truthStart|] == ts;

    var precision := 0.0;
    if resultCount != 0 {
      precision := count as real / resultCount as real;
    }
    if truthCount == 0 {
      return DivisionByZero;
    }
    r := Scored(precision, count as real / truthCount as real);
  }

  // ---------------------------------------------------------------------
  // Properties of the scores

  /** A single call identical to the single truth interval, type included,
      scores precision and sensitivity 1. */
  lemma ExactMatchScoresOne(x: Interval)
    requires WellFormed(x)
    ensures Score([x], [x]) == Scored(1.0, 1.0)
  {
    assert [x][..0] == [];
    assert RowSum(x, [x], Contribution) == Length(x);
    assert PairSum([x], [x], Contribution) == Length(x);
    assert TotalLength([x]) == Length(x);
  }

  /** With no calls and a well-formed, non-empty truth set both scores are 0. */
  lemma NoCallsScoreZero(ts: seq<Interval>)
    requires |ts| > 0 && AllWellFormed(ts)
    ensures Score([], ts) == Scored(0.0, 0.0)
  {
    TotalLengthPositive(ts);
  }

  /** An empty truth set makes the sensitivity a division by zero. */
  lemma NoTruthFails(cs: seq<Interval>)
    ensures Score(cs, []) == DivisionByZero
  {
  }

  /** On well-formed input both scores are non-negative. */
  lemma ScoresNonNegative(cs: seq<Interval>, ts: seq<Interval>)
    requires AllWellFormed(cs) && AllWellFormed(ts)
    ensures Score(cs, ts).Scored? ==> Score(cs, ts).precision >= 0.0 && Score(cs, ts).sensitivity >= 0.0
  {
    CoveredNonNegative(cs, ts);
    TotalLengthPositive(cs);
    TotalLengthPositive(ts);
  }

  lemma RatioAtMostOne(a: int, b: int)
    requires 0 < b && a <= b
    ensures a as real / b as real <= 1.0
  {
  }

  /** Precision stays within 1 when the truth intervals are pairwise
      disjoint, sensitivity when the calls are; only overlaps counted
      against several intervals push a score above 1. */
  lemma ScoresAtMostOne(cs: seq<Interval>, ts: seq<Interval>)
    requires AllWellFormed(cs) && AllWellFormed(ts)
    ensures Score(cs, ts).Scored? && Disjoint(ts) ==> Score(cs, ts).precision <= 1.0
    ensures Score(cs, ts).Scored? && Disjoint(cs) ==> Score(cs, ts).sensitivity <= 1.0
  {
    CoveredBounds(cs, ts);
    var count, resultCount, truthCount := Covered(cs, ts), TotalLength(cs), TotalLength(ts);
    if truthCount != 0 {
      var precision := if resultCount == 0 then 0.0 else count as real / resultCount as real;
      assert Score(cs, ts) == Scored(precision, count as real / truthCount as real);
      if resultCount != 0 && Disjoint(ts) {
        TotalLengthPositive(cs);
        RatioAtMostOne(count, resultCount);
      }
      if Disjoint(cs) {
        TotalLengthPositive(ts);
        RatioAtMostOne(count, truthCount);
      }
    }
  }

  /** The F-score as the harmonic mean of two positive scores; it lies
      between them. */
  function FScore(p: real, q: real): real
    requires p > 0.0 && q > 0.0
  {
    2.0 * p * q / (p + q)
  }

  lemma FScoreBetween(p: real, q: real)
    requires p > 0.0 && q > 0.0
    ensures p <= q ==> p <= FScore(p, q) <= q
    ensures q <= p ==> q <= FScore(p, q) <= p
    ensures FScore(p, q) == FScore(q, p)
  {
    var f, s := FScore(p, q), p + q;
    assert f - p == p * (q - p) / s;
    assert q - f == q * (q - p) / s;
    if p <= q {
      assert p * (q - p) >= 0.0 && q * (q - p) >= 0.0;
    } else {
      assert p * (q - p) <= 0.0 && q * (q - p) <= 0.0;
    }
  }

  /** A duplication call over 100..200 against a duplication truth over
      150..250 covers 51 positions out of 101 on each side. */
  lemma ExamplePartialOverlap()
    ensures Score([Interval(100, 200, "duplication")], [Interval(150, 250, "duplication")])
         == Scored(51.0 / 101.0, 51.0 / 101.0)
  {
    var c, t := Interval(100, 200, "duplication"), Interval(150, 250, "duplication");
    assert [c][..0] == [] && [t][..0] == [];
    assert RowSum(c, [t], Contribution) == 51;
    assert PairSum([c], [t], Contribution) == 51;
    assert TotalLength([c]) == 101 && TotalLength([t]) == 101;
  }

  /** The same truth interval listed twice is counted twice: the precision
      of an exact call then reaches 2. */
  lemma ExampleDoubleCounting()
    ensures Score([Interval(1, 10, "deletion")], [Interval(1, 10, "deletion"), Interval(1, 10, "deletion")])
         == Scored(2.0, 1.0)
  {
    var x := Interval(1, 10, "deletion");
    assert [x][..0] == [];
    assert [x, x][..1] == [x];
    assert RowSum(x, [x], Contribution) == 10;
    assert RowSum(x, [x, x], Contribution) == 20;
    assert PairSum([x], [x, x], Contribution) == 20;
    assert TotalLength([x]) == 10;
    assert TotalLength([x, x]) == 20;
  }
}

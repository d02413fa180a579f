/** The error statistics of LFR_error_stats: a proposed community (read
    from its file) is compared with the true community by symmetric
    difference, precision, recall and F1 score. Python's `/` on integers is
    modelled as exact division of reals, raising ZeroDivisionError on a zero
    divisor as Python does. */
module Metrics {
  import opened Errors
  import opened Records
  import opened CommunityReader

  /** The five values LFR_error_stats returns. */
  datatype Stats = Stats(symDiff: set<int>, precision: real, recall: real, f1: real, size: int)

  /** Python's a.symmetric_difference(b). */
  function SymmetricDifference(a: set<int>, b: set<int>): (d: set<int>)
    ensures forall x :: x in d <==> (x in a) != (x in b)
  {
    (a - b) + (b - a)
  }

  /** set(range(1, lfr + 1)): the nodes of an LFR network of lfr nodes. */
  function FullNet(lfr: int): (s: set<int>)
    ensures forall x :: x in s <==> 1 <= x <= lfr
    decreases lfr
  {
    if lfr < 1 then {} else FullNet(lfr - 1) + {lfr}
  }

  /** The four classes of nodes LFR_error_stats computes. */
  datatype Confusion = Confusion(truePositive: set<int>, trueNegative: set<int>, falseNegative: set<int>, falsePositive: set<int>)

  /** The classes for true community t, proposed community p and a network
      of lfr nodes: the true community splits into true positives and false
      negatives, the proposal into true positives and false positives, and
      the true negatives are the network's other nodes. */
  function Classify(t: set<int>, p: set<int>, lfr: int): (c: Confusion)
    ensures c.truePositive + c.falseNegative == t && c.truePositive !! c.falseNegative
    ensures c.truePositive + c.falsePositive == p && c.truePositive !! c.falsePositive
    ensures c.truePositive == t * p && c.falsePositive !! c.falseNegative
    ensures c.falsePositive + c.falseNegative == SymmetricDifference(t, p)
    ensures c.trueNegative !! t && c.trueNegative !! p
    ensures forall x :: x in c.trueNegative <==> 1 <= x <= lfr && x !in t && x !in p
  {
    Confusion(t * p, FullNet(lfr) - t - p, t - p, p - t)
  }

  /** Python's x / y on numbers. */
  function TrueDiv(x: real, y: real): (r: Result<real>)
    ensures r.Failure? <==> y == 0.0
    ensures r.Failure? ==> r.error == ZeroDivisionError
    ensures r.Success? ==> r.value * y == x
  {
    if y == 0.0 then Failure(ZeroDivisionError) else Success(x / y)
  }

  /** The statistics of LFR_error_stats once the proposed community p is
      read, or the exception the divisions raise. */
  function StatsOf(t: set<int>, p: set<int>, lfr: int): (r: Result<Stats>)
    ensures r.Failure? ==> r.error == ZeroDivisionError
    ensures r.Success? ==> r.value.symDiff == SymmetricDifference(t, p) && r.value.size == |p|
  {
    var symDiff := SymmetricDifference(t, p);
    var c := Classify(t, p, lfr);
    if |p| == 0 then Success(Stats(symDiff, 0.0, 0.0, 0.0, 0))
    else Scores(symDiff, c.truePositive, c.falsePositive, c.falseNegative, |p|)
  }

  /** Precision, recall and F1 from the true positives, false positives
      and false negatives, dividing as Python does. */
  function Scores(symDiff: set<int>, tp: set<int>, fp: set<int>, fn: set<int>, size: int): (r: Result<Stats>)
    ensures r.Failure? ==> r.error == ZeroDivisionError
    ensures r.Success? ==> r.value.symDiff == symDiff && r.value.size == size
  {
    var x := |tp| as real;
    var per :- TrueDiv(x, x + |fp| as real);
    var rec :- TrueDiv(x, x + |fn| as real);
    var f1 :- TrueDiv(2.0 * per * rec, per + rec);
    Success(Stats(symDiff, per, rec, f1, size))
  }

  /** An empty proposal returns the true community as the symmetric
      difference and zero for everything else. */
  lemma EmptyProposal(t: set<int>, lfr: int)
    ensures StatsOf(t, {}, lfr) == Success(Stats(t, 0.0, 0.0, 0.0, 0))
  {
    assert SymmetricDifference(t, {}) == t;
  }

  /** For a non-empty proposal p the statistics fail exactly when p and t
      share no node (recall is then 0, or 0/0 when t is empty, and F1 divides
      by zero); otherwise precision is |t * p| / |p|, recall |t * p| / |t|,
      and F1 their harmonic mean 2 |t * p| / (|p| + |t|). */
  lemma StatsOutcome(t: set<int>, p: set<int>, lfr: int)
    requires |p| > 0
    ensures var r := StatsOf(t, p, lfr);
            && (r.Failure? <==> t * p == {})
            && (r.Failure? ==> r.error == ZeroDivisionError)
            && (r.Success? ==> && r.value.symDiff == SymmetricDifference(t, p)
                               && r.value.size == |p|
                               && r.value.precision == |t * p| as real / |p| as real
                               && r.value.recall == |t * p| as real / |t| as real
                               && r.value.f1 == 2.0 * |t * p| as real / (|p| + |t|) as real)
  {
    var c := Classify(t, p, lfr);
    DisjointCount(c.truePositive, c.falsePositive);
    DisjointCount(c.truePositive, c.falseNegative);
    ScoresOutcome(SymmetricDifference(t, p), c.truePositive, c.falsePositive, c.falseNegative, |p|);
  }

  lemma ScoresOutcome(symDiff: set<int>, tp: set<int>, fp: set<int>, fn: set<int>, size: int)
    requires |tp| + |fp| > 0
    ensures var r := Scores(symDiff, tp, fp, fn, size);
            var x, pp, tt := |tp| as real, (|tp| + |fp|) as real, (|tp| + |fn|) as real;
            && (r.Failure? <==> tp == {})
            && (r.Failure? ==> r.error == ZeroDivisionError)
            && (r.Success? ==> r.value == Stats(symDiff, x / pp, x / tt, 2.0 * x / (pp + tt), size))
  {
    var x := |tp| as real;
    var pp := x + |fp| as real;
    var tt := x + |fn| as real;
    var per := x / pp;
    assert TrueDiv(x, pp) == Success(per);
    if tt == 0.0 {
      assert TrueDiv(x, tt) == Failure(ZeroDivisionError);
    } else {
      var rec := x / tt;
      assert TrueDiv(x, tt) == Success(rec);
      if x == 0.0 {
        assert per == 0.0 && rec == 0.0;
        assert TrueDiv(2.0 * per * rec, per + rec) == Failure(ZeroDivisionError);
      } else {
        assert per > 0.0 && rec > 0.0;
        F1Harmonic(x, pp, tt);
        assert per + rec > 0.0;
        var f1 := (2.0 * per * rec) / (per + rec);
        assert f1 == 2.0 * x / (pp + tt);
        assert TrueDiv(2.0 * per * rec, per + rec) == Success(f1);
      }
    }
  }

  /** The sizes of two disjoint sets add up. */
  lemma DisjointCount(a: set<int>, b: set<int>)
    requires a !! b
    ensures |a + b| == |a| + |b|
  {
    assert a * b == {};
  }

  /** 2 * (x / p) * (x / t) / (x / p + x / t) == 2 * x / (p + t). */
  lemma F1Harmonic(x: real, p: real, t: real)
    requires x > 0.0 && p > 0.0 && t > 0.0
    ensures (2.0 * (x / p) * (x / t)) / (x / p + x / t) == 2.0 * x / (p + t)
  {
    var a, b := x / p, x / t;
    assert a * p == x && b * t == x;
    assert a > 0.0 && b > 0.0;
    calc {
      2.0 * a * b * (p + t);
      2.0 * (a * p) * b + 2.0 * a * (b * t);
      2.0 * x * b + 2.0 * a * x;
      2.0 * x * (a + b);
    }
  }

  /** Precision, recall and F1 are fractions: each lies in (0, 1]. */
  lemma StatsBounds(t: set<int>, p: set<int>, lfr: int)
    requires StatsOf(t, p, lfr).Success? && |p| > 0
    ensures var s := StatsOf(t, p, lfr).value;
            && 0.0 < s.precision <= 1.0 && 0.0 < s.recall <= 1.0 && 0.0 < s.f1 <= 1.0
  {
    StatsOutcome(t, p, lfr);
    var x := |t * p|;
    assert (t * p) + (p - t) == p && (t * p) + (t - p) == t;
    DisjointCount(t * p, p - t);
    DisjointCount(t * p, t - p);
    Fraction(x as real, |p| as real);
    Fraction(x as real, |t| as real);
    Fraction(2.0 * x as real, (|p| + |t|) as real);
  }

  lemma Fraction(x: real, y: real)
    requires 0.0 < x <= y
    ensures 0.0 < x / y <= 1.0
  {
  }

  /** A proposal equal to the true community scores 1 everywhere. */
  lemma PerfectMatch(t: set<int>, lfr: int)
    requires t != {}
    ensures StatsOf(t, t, lfr) == Success(Stats({}, 1.0, 1.0, 1.0, |t|))
  {
    assert t * t == t;
    assert SymmetricDifference(t, t) == {};
    StatsOutcome(t, t, lfr);
    var x := |t| as real;
    assert x / x == 1.0;
    assert 2.0 * x / (x + x) == 1.0;
  }

  /** The network size only feeds the true negatives, which none of the
      returned values uses. */
  lemma NetworkSizeIrrelevant(t: set<int>, p: set<int>, lfr: int, lfr': int)
    ensures StatsOf(t, p, lfr) == StatsOf(t, p, lfr')
  {
    var c, c' := Classify(t, p, lfr), Classify(t, p, lfr');
    assert c.truePositive == c'.truePositive && c.falsePositive == c'.falsePositive && c.falseNegative == c'.falseNegative;
  }

  /** T = {1, 2, 3} and P = {2, 3, 4} give symmetric difference {1, 4} and
      precision, recall and F1 of 2/3. */
  lemma SmallExample()
    ensures StatsOf({1, 2, 3}, {2, 3, 4}, 10000) == Success(Stats({1, 4}, 2.0 / 3.0, 2.0 / 3.0, 2.0 / 3.0, 3))
  {
    var t, p := {1, 2, 3}, {2, 3, 4};
    assert t * p == {2, 3};
    assert SymmetricDifference(t, p) == {1, 4};
    StatsOutcome(t, p, 10000);
  }

  /** A proposal that misses the true community raises ZeroDivisionError
      where F1 divides by precision + recall == 0. */
  lemma DisjointProposal(t: set<int>, p: set<int>, lfr: int)
    requires p != {} && t * p == {}
    ensures StatsOf(t, p, lfr) == Failure(ZeroDivisionError)
  {
    StatsOutcome(t, p, lfr);
  }

  // ---------------------------------------------------------------------
  // Scores with the zero-division convention
  // ---------------------------------------------------------------------

  /** x / y with the convention of the empty-proposal case: 0 when the
      divisor is 0. */
  function GuardedDiv(x: real, y: real): (q: real)
    ensures y != 0.0 ==> q * y == x
    ensures y == 0.0 ==> q == 0.0
  {
    if y == 0.0 then 0.0 else x / y
  }

  /** The statistics with recall and F1 defined as 0 where their divisor is
      0, as for an empty proposal, instead of raising ZeroDivisionError. */
  function GuardedStatsOf(t: set<int>, p: set<int>, lfr: int): Stats {
    var symDiff := SymmetricDifference(t, p);
    var c := Classify(t, p, lfr);
    if |p| == 0 then Stats(symDiff, 0.0, 0.0, 0.0, 0)
    else GuardedScores(symDiff, |c.truePositive|, |c.falsePositive|, |c.falseNegative|, |p|)
  }

  /** Precision, recall and F1 from the counts of true positives, false
      positives and false negatives, each 0 where its divisor is 0. */
  function GuardedScores(symDiff: set<int>, tp: nat, fp: nat, fn: nat, size: int): Stats {
    var x := tp as real;
    var per := GuardedDiv(x, x + fp as real);
    var rec := GuardedDiv(x, x + fn as real);
    Stats(symDiff, per, rec, GuardedDiv(2.0 * per * rec, per + rec), size)
  }

  /** Wherever LFR_error_stats returns, the guarded statistics agree with it. */
  lemma GuardedAgrees(t: set<int>, p: set<int>, lfr: int)
    ensures StatsOf(t, p, lfr).Success? ==> StatsOf(t, p, lfr).value == GuardedStatsOf(t, p, lfr)
  {
    if |p| > 0 && StatsOf(t, p, lfr).Success? {
      var c := Classify(t, p, lfr);
      var x := |c.truePositive| as real;
      var pp, tt := x + |c.falsePositive| as real, x + |c.falseNegative| as real;
      assert TrueDiv(x, pp).Success? && TrueDiv(x, tt).Success?;
      var per, rec := x / pp, x / tt;
      assert GuardedDiv(x, pp) == per && GuardedDiv(x, tt) == rec;
      assert TrueDiv(2.0 * per * rec, per + rec).Success?;
    }
  }

  /** A non-empty proposal that misses the true community scores 0, with
      no division by zero. */
  lemma GuardedDisjoint(t: set<int>, p: set<int>, lfr: int)
    requires p != {} && t * p == {}
    ensures GuardedStatsOf(t, p, lfr) == Stats(SymmetricDifference(t, p), 0.0, 0.0, 0.0, |p|)
  {
    var c := Classify(t, p, lfr);
    assert |c.truePositive| == 0;
  }

  /** Every guarded score lies in [0, 1]. */
  lemma GuardedBounds(t: set<int>, p: set<int>, lfr: int)
    ensures var s := GuardedStatsOf(t, p, lfr);
            && 0.0 <= s.precision <= 1.0 && 0.0 <= s.recall <= 1.0 && 0.0 <= s.f1 <= 1.0
  {
    if |p| > 0 {
      var c := Classify(t, p, lfr);
      GuardedScoresBounds(SymmetricDifference(t, p), |c.truePositive|, |c.falsePositive|, |c.falseNegative|, |p|);
    }
  }

  lemma GuardedScoresBounds(symDiff: set<int>, tp: nat, fp: nat, fn: nat, size: int)
    ensures var s := GuardedScores(symDiff, tp, fp, fn, size);
            && 0.0 <= s.precision <= 1.0 && 0.0 <= s.recall <= 1.0 && 0.0 <= s.f1 <= 1.0
  {
    var x := tp as real;
    var per, rec := GuardedDiv(x, x + fp as real), GuardedDiv(x, x + fn as real);
    var s := GuardedScores(symDiff, tp, fp, fn, size);
    assert s.precision == per && s.recall == rec && s.f1 == GuardedDiv(2.0 * per * rec, per + rec);
    assert 0.0 <= per <= 1.0 && 0.0 <= rec <= 1.0 by {
      GuardedFraction(x, x + fp as real);
      GuardedFraction(x, x + fn as real);
    }
    HarmonicBound(per, rec);
  }

  lemma GuardedFraction(x: real, y: real)
    requires 0.0 <= x <= y
    ensures 0.0 <= GuardedDiv(x, y) <= 1.0
  {
    if y != 0.0 {
      if x == 0.0 {
        assert GuardedDiv(x, y) == 0.0 / y == 0.0;
      } else {
        Fraction(x, y);
      }
    }
  }

  /** The guarded F1 of two scores in [0, 1] lies in [0, 1]. */
  lemma HarmonicBound(a: real, b: real)
    requires 0.0 <= a <= 1.0 && 0.0 <= b <= 1.0
    ensures 0.0 <= GuardedDiv(2.0 * a * b, a + b) <= 1.0
  {
    if a + b != 0.0 {
      NonNegativeProduct(a, 1.0 - b);
      NonNegativeProduct(b, 1.0 - a);
      NonNegativeProduct(a, b);
      assert a - a * b == a * (1.0 - b);
      assert b - a * b == b * (1.0 - a);
      assert 0.0 <= 2.0 * a * b <= a + b;
      GuardedFraction(2.0 * a * b, a + b);
    }
  }

  lemma NonNegativeProduct(u: real, v: real)
    requires u >= 0.0 && v >= 0.0
    ensures u * v >= 0.0
  {
  }

  // ---------------------------------------------------------------------
  // LFR_error_stats
  // ---------------------------------------------------------------------

  /** LFR_error_stats: the proposed community read from its file, compared
      with the true community. */
  function ErrorStats(lines: seq<string>, trueCom: set<int>, lfr: int): (r: Result<Stats>)
    ensures r.Success? ==> r.value.size <= 2 * StopIndex(lines, ProposedStop)
  {
    var propCom :- ProposedCommunity(lines);
    StatsOf(trueCom, propCom, lfr)
  }

  /** LFR_error_stats as the source runs it: the reading loop, then the
      statistics. */
  method LfrErrorStats(lines: seq<string>, trueCom: set<int>, lfr: int) returns (r: Result<Stats>)
    ensures r == ErrorStats(lines, trueCom, lfr)
    ensures r.Success? && r.value.size > 0 ==> 0.0 < r.value.f1 <= 1.0
  {
    var propCom := ReadProposed(lines);
    if propCom.Failure? {
      return Failure(propCom.error);
    }
    r := StatsOf(trueCom, propCom.value, lfr);
    if r.Success? && r.value.size > 0 {
      StatsOutcome(trueCom, propCom.value, lfr);
      StatsBounds(trueCom, propCom.value, lfr);
    }
  }

  /** The statistics of a proposal written as a pair file are those of
      the endpoints of its edges. */
  lemma ErrorStatsOfPairFile(edges: seq<(int, int)>, trueCom: set<int>, lfr: int)
    requires BenchmarkIds(edges)
    ensures ErrorStats(PairFile(edges), trueCom, lfr) == StatsOf(trueCom, PairSet(edges), lfr)
  {
    ProposedOfPairFile(edges);
  }
}

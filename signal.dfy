/** Sample sequences and the statistics the noise machine computes over them.
    Every buffer of the program is a sequence of `real` here: exact arithmetic stands
    in for `double`. */
module Signal {

  /** `fabs` over exact reals. */
  function Abs(x: real): (r: real)
    ensures r >= 0.0
    ensures r == x || r == -x
  {
    if x < 0.0 then -x else x
  }

  /** The buffer of absolute values that sits beside a sample buffer. */
  function AbsAll(s: seq<real>): (r: seq<real>)
    ensures |r| == |s|
    ensures forall i :: 0 <= i < |s| ==> r[i] >= 0.0 && (r[i] == s[i] || r[i] == -s[i])
  {
    seq(|s|, i requires 0 <= i < |s| => Abs(s[i]))
  }

  /** The sum of a sequence, folded from the left as a running accumulator would. */
  function Sum(s: seq<real>): real
  {
    if |s| == 0 then 0.0 else Sum(s[..|s| - 1]) + s[|s| - 1]
  }

  lemma SumSnoc(s: seq<real>, i: nat)
    requires i < |s|
    ensures Sum(s[..i + 1]) == Sum(s[..i]) + s[i]
  {
    assert s[..i + 1][..i] == s[..i];
  }

  /** Element `i` of a random walk over increments `s` is the sum of the first `i + 1` increments. */
  function RunningSum(s: seq<real>): (r: seq<real>)
    ensures |r| == |s|
  {
    seq(|s|, i requires 0 <= i < |s| => Sum(s[..i + 1]))
  }

  /** The recurrence the red-noise loop follows: the first sample is the first increment, and
      every later sample is its predecessor plus the next increment. */
  ghost predicate WalkRecurrence(s: seq<real>, r: seq<real>)
  {
    |r| == |s| &&
    (|s| > 0 ==> r[0] == s[0]) &&
    forall i :: 1 <= i < |s| ==> r[i] == r[i - 1] + s[i]
  }

  lemma {:induction false} RecurrenceGivesSum(s: seq<real>, r: seq<real>, i: nat)
    requires WalkRecurrence(s, r)
    requires i < |s|
    ensures r[i] == Sum(s[..i + 1])
    decreases i
  {
    SumSnoc(s, i);
    if i > 0 {
      RecurrenceGivesSum(s, r, i - 1);
    } else {
      assert s[..0] == [];
    }
  }

  /** The running sum is exactly the sequence that satisfies the walk recurrence. */
  lemma RunningSumIsWalk(s: seq<real>, r: seq<real>)
    ensures r == RunningSum(s) <==> WalkRecurrence(s, r)
  {
    if r == RunningSum(s) {
      if |s| > 0 {
        SumSnoc(s, 0);
        assert s[..0] == [];
      }
      forall i | 1 <= i < |s|
        ensures r[i] == r[i - 1] + s[i]
      {
        SumSnoc(s, i);
      }
    }
    if WalkRecurrence(s, r) {
      forall i | 0 <= i < |s|
        ensures r[i] == RunningSum(s)[i]
      {
        RecurrenceGivesSum(s, r, i);
      }
    }
  }

  /** `gsl_stats_max`: the largest element, scanning from the front. An empty buffer has no
      maximum, and 0 is taken for it. */
  function Peak(s: seq<real>): (m: real)
    ensures forall i :: 0 <= i < |s| ==> s[i] <= m
    ensures |s| > 0 ==> exists i :: 0 <= i < |s| && s[i] == m
    ensures |s| == 0 ==> m == 0.0
  {
    if |s| == 0 then 0.0
    else if |s| == 1 then s[0]
    else
      var front := Peak(s[..|s| - 1]);
      assert forall i :: 0 <= i < |s| - 1 ==> s[..|s| - 1][i] == s[i];
      if s[|s| - 1] > front then s[|s| - 1] else front
  }

  /** An attained upper bound is the peak. */
  lemma PeakUnique(s: seq<real>, m: real, k: nat)
    requires k < |s| && s[k] == m
    requires forall i :: 0 <= i < |s| ==> s[i] <= m
    ensures Peak(s) == m
  {
    var j :| 0 <= j < |s| && s[j] == Peak(s);
    assert s[j] <= m && s[k] <= Peak(s);
  }

  /** Every sample divided by `c`. */
  function DividedBy(s: seq<real>, c: real): (r: seq<real>)
    requires c != 0.0
    ensures |r| == |s|
  {
    seq(|s|, i requires 0 <= i < |s| => s[i] / c)
  }

  /** Peak normalisation: each sample divided by the peak. Where the peak is 0 the samples
      are left as they are instead of being divided by zero. */
  function Normalized(s: seq<real>, peak: real): (r: seq<real>)
    ensures |r| == |s|
    ensures peak == 0.0 ==> r == s
    ensures peak != 0.0 ==> forall i :: 0 <= i < |s| ==> r[i] * peak == s[i]
  {
    if peak == 0.0 then s else DividedBy(s, peak)
  }

  lemma QuotientInUnit(x: real, p: real)
    requires p > 0.0 && Abs(x) <= p
    ensures -1.0 <= x / p <= 1.0
  {
    DivMonotone(x, p, p);
    DivMonotone(-p, x, p);
  }

  lemma DivSelf(p: real)
    requires p != 0.0
    ensures p / p == 1.0
  {
  }

  lemma DivMonotone(a: real, b: real, c: real)
    requires a <= b && c > 0.0
    ensures a / c <= b / c
  {
    assert b / c - a / c == (b - a) / c;
  }

  /** Dividing by the peak of the absolute-value buffer keeps in [-1, 1] every sample whose
      absolute value that buffer records (those from index `lo` on). */
  lemma NormalizedBounded(s: seq<real>, abs: seq<real>, lo: nat)
    requires |abs| == |s|
    requires forall i :: lo <= i < |s| ==> abs[i] == Abs(s[i])
    ensures forall i :: lo <= i < |s| ==> -1.0 <= Normalized(s, Peak(abs))[i] <= 1.0
  {
    var p := Peak(abs);
    forall i | lo <= i < |s|
      ensures -1.0 <= Normalized(s, p)[i] <= 1.0
    {
      assert abs[i] <= p;
      if p == 0.0 {
        assert s[i] == 0.0;
      } else {
        QuotientInUnit(s[i], p);
      }
    }
  }

  lemma AbsDividedBy(s: seq<real>, c: real)
    requires c > 0.0
    ensures AbsAll(DividedBy(s, c)) == DividedBy(AbsAll(s), c)
  {
    forall i | 0 <= i < |s|
      ensures AbsAll(DividedBy(s, c))[i] == DividedBy(AbsAll(s), c)[i]
    {
      if s[i] < 0.0 {
        assert s[i] / c < 0.0;
      } else {
        assert s[i] / c >= 0.0;
      }
    }
  }

  lemma PeakDividedBy(s: seq<real>, c: real)
    requires c > 0.0 && |s| > 0
    ensures Peak(DividedBy(s, c)) == Peak(s) / c
  {
    var t := DividedBy(s, c);
    var k :| 0 <= k < |s| && s[k] == Peak(s);
    forall i | 0 <= i < |s|
      ensures t[i] <= Peak(s) / c
    {
      DivMonotone(s[i], Peak(s), c);
    }
    PeakUnique(t, Peak(s) / c, k);
  }

  /** Normalising a buffer whose peak absolute value is already 1 changes nothing. */
  lemma NormalizeUnitPeak(s: seq<real>)
    requires Peak(AbsAll(s)) == 1.0
    ensures Normalized(s, Peak(AbsAll(s))) == s
  {
    forall i | 0 <= i < |s|
      ensures DividedBy(s, 1.0)[i] == s[i]
    {
    }
  }

  lemma PeakAfterNormalize(s: seq<real>, p: real)
    requires p == Peak(AbsAll(s)) && p != 0.0
    ensures Peak(AbsAll(Normalized(s, p))) == 1.0
  {
    var a := AbsAll(s);
    assert |a| > 0;
    var k :| 0 <= k < |a| && a[k] == p;
    assert p > 0.0;
    assert Normalized(s, p) == DividedBy(s, p);
    AbsDividedBy(s, p);
    PeakDividedBy(a, p);
    DivSelf(p);
  }

  /** Normalising a buffer once makes its peak absolute value 1 (or leaves a silent buffer
      silent), so normalising the result again changes nothing. */
  lemma NormalizeIdempotent(s: seq<real>)
    ensures Peak(AbsAll(Normalized(s, Peak(AbsAll(s))))) ==
      (if Peak(AbsAll(s)) == 0.0 then 0.0 else 1.0)
    ensures Normalized(Normalized(s, Peak(AbsAll(s))), Peak(AbsAll(Normalized(s, Peak(AbsAll(s)))))) ==
      Normalized(s, Peak(AbsAll(s)))
  {
    var p := Peak(AbsAll(s));
    if p != 0.0 {
      PeakAfterNormalize(s, p);
      NormalizeUnitPeak(Normalized(s, p));
    }
  }

  /** `gsl_stats_mean`; an empty buffer is given mean 0. */
  function Mean(s: seq<real>): (m: real)
    ensures |s| > 0 ==> m * (|s| as real) == Sum(s)
    ensures |s| == 0 ==> m == 0.0
  {
    if |s| == 0 then 0.0 else Sum(s) / (|s| as real)
  }

  /** Each sample shifted by `mean` and divided by `sd`. */
  function Recentred(s: seq<real>, mean: real, sd: real): (r: seq<real>)
    requires sd != 0.0
    ensures |r| == |s|
    ensures forall i :: 0 <= i < |s| ==> r[i] * sd + mean == s[i]
  {
    seq(|s|, i requires 0 <= i < |s| => (s[i] - mean) / sd)
  }

  lemma {:induction false} SumRecentred(s: seq<real>, mean: real, sd: real)
    requires sd != 0.0
    ensures Sum(Recentred(s, mean, sd)) == (Sum(s) - (|s| as real) * mean) / sd
    decreases |s|
  {
    if |s| > 0 {
      var n := |s|;
      var front := s[..n - 1];
      assert Recentred(s, mean, sd)[..n - 1] == Recentred(front, mean, sd);
      SumRecentred(front, mean, sd);
      var a := Sum(front) - ((n - 1) as real) * mean;
      var b := s[n - 1] - mean;
      assert a / sd + b / sd == (a + b) / sd;
    }
  }

  /** Re-centring by the buffer's own mean leaves values that sum to zero, whatever the
      (nonzero) deviation divided by. */
  lemma RecentredSumsToZero(s: seq<real>, sd: real)
    requires sd != 0.0
    ensures Sum(Recentred(s, Mean(s), sd)) == 0.0
  {
    SumRecentred(s, Mean(s), sd);
    if |s| > 0 {
      var n := |s| as real;
      assert n * (Sum(s) / n) == Sum(s);
    }
  }
}

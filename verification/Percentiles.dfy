/** What the figures of the hard-cap analysis mean: nearest-rank percentiles by counting, means by sums,
    deferrals by the slots a backlog takes, and interpolated percentiles between neighbours. */
module Percentiles {
  import opened Arithmetic
  import opened HardCap
  import opened Median
  import opened Padding
  import opened Shaper

  // ---------------------------------------------------------------- nearest rank

  /** The rank of a percentile is the nearest to that share of the way from first to last. */
  lemma RankNearest(n: nat, p: real)
    requires n > 0 && 0.0 <= p <= 100.0
    ensures -0.5 <= RankIndex(n, p) as real - p / 100.0 * (n as real - 1.0) <= 0.5
  {
    ScaledInRange(p / 100.0, n as real - 1.0);
  }

  /** Half-way between two ranks it is the upper one. */
  lemma RankTies(n: nat, p: real, k: nat)
    requires n > 0 && 0.0 <= p <= 100.0 && p / 100.0 * (n as real - 1.0) == k as real + 0.5
    ensures RankIndex(n, p) == k + 1
  {
    RankNearest(n, p);
    ScaledInRange(p / 100.0, n as real - 1.0);
  }

  /** A percentile is one of the values, with at least rank + 1 of them no greater and at least n - rank
      no smaller. */
  lemma PercentileCounts(values: seq<real>, p: real)
    requires values != []
    ensures var r, rank := Percentile(values, p), RankIndex(|values|, p);
            && r in values
            && Count(values, x => x <= r) >= rank + 1
            && Count(values, x => x >= r) >= |values| - rank
  {
    hide Sorted, RankIndex, Count;
    var r, rank := Percentile(values, p), RankIndex(|values|, p);
    var below, above := (x: real) => x <= r, (x: real) => x >= r;
    SortedSorts(values);
    var s := Sorted(values);
    assert s[rank] in multiset(s);
    CountAtLeast(s, below, 0, rank + 1);
    CountAtLeast(s, above, rank, |s|);
    CountSorted(values, below);
    CountSorted(values, above);
  }

  /** The 0th percentile is the least value and the 100th the greatest. */
  lemma PercentileEnds(values: seq<real>)
    requires values != []
    ensures Percentile(values, 0.0) in values && Percentile(values, 100.0) in values
    ensures forall x :: x in values ==> Percentile(values, 0.0) <= x <= Percentile(values, 100.0)
  {
    hide Sorted;
    RankEnds(|values|);
    SortedSorts(values);
    var s := Sorted(values);
    assert s[0] in multiset(s) && s[|s| - 1] in multiset(s);
    forall x | x in values ensures s[0] <= x <= s[|s| - 1] {
      assert x in multiset(s);
      var i :| 0 <= i < |s| && s[i] == x;
    }
  }

  lemma RankEnds(n: nat)
    requires n > 0
    ensures RankIndex(n, 0.0) == 0 && RankIndex(n, 100.0) == n - 1
  {
    RankNearest(n, 0.0);
    RankNearest(n, 100.0);
  }

  // ---------------------------------------------------------------- means

  /** Sums split, and the sum of one value is that value: so a sum takes every value once. */
  lemma {:induction false} SumSplits(a: seq<real>, b: seq<real>)
    ensures Sum(a + b) == Sum(a) + Sum(b)
  {
    if b == [] {
      assert a + b == a;
    } else {
      SumSplits(a, b[..|b| - 1]);
      assert (a + b)[..|a + b| - 1] == a + b[..|b| - 1];
    }
  }

  lemma SumOfOne(x: real)
    ensures Sum([x]) == x
  {
    assert [x][..0] == [];
  }

  /** The mean is the one number that, in place of every value, gives the same sum. */
  lemma MeanIs(s: seq<real>, m: real)
    requires s != []
    ensures Mean(s) == m <==> m * |s| as real == Sum(s)
  {
    var n := |s| as real;
    assert Mean(s) * n == Sum(s);
    if m * n == Sum(s) {
      assert (Mean(s) - m) * n == 0.0;
    }
  }

  // ---------------------------------------------------------------- deferral

  /** The deferral is the number of slots that the cap needs to work the backlog off. */
  lemma DeferralIs(backlog: real, cap: real)
    requires cap > 0.0
    ensures Deferral(backlog, cap) * cap == backlog
  {
  }

  /** The padder's quotient: that many rounds work the pending items off; without slots it is infinite,
      or no number when nothing is pending either. */
  lemma DividedIs(a: nat, b: nat)
    ensures b > 0 ==> Divided(a, b).Finite? && Divided(a, b).value * b as real == a as real
    ensures b == 0 ==> Divided(a, b) == if a > 0 then Infinite else NotANumber
  {
  }

  /** Without any traffic the quotient is no number, and no multiple is adequate. */
  lemma {:induction false} NoTrafficNotAdequate(counts: seq<real>, c: real, budget: real)
    requires counts != [] && forall i :: 0 <= i < |counts| ==> counts[i] == 0.0
    ensures !Meets(counts, c, budget)
  {
    hide Interpolated, Deferrals;
    SumOfZeros(counts);
    MeanIs(counts, 0.0);
  }

  lemma {:induction false} SumOfZeros(counts: seq<real>)
    requires forall i :: 0 <= i < |counts| ==> counts[i] == 0.0
    ensures Sum(counts) == 0.0
  {
    if counts != [] {
      SumOfZeros(counts[..|counts| - 1]);
    }
  }

  // ---------------------------------------------------------------- interpolation

  /** An interpolated percentile lies the stated share of the way from first to last: on an order
      statistic if that is a whole position, and otherwise between two neighbours in proportion. */
  lemma InterpolatedIs(values: seq<real>, p: real, k: nat, f: real)
    requires values != [] && 0.0 <= p <= 100.0 && 0.0 <= f < 1.0
    requires 100.0 * (k as real + f) == p * (|values| as real - 1.0)
    ensures k < |values| && (f > 0.0 ==> k + 1 < |values|)
    ensures f == 0.0 ==> Interpolated(values, p) == Sorted(values)[k]
    ensures f > 0.0 ==>
              Interpolated(values, p) - Sorted(values)[k] == f * (Sorted(values)[k + 1] - Sorted(values)[k])
  {
    hide Sorted;
    PositionIs(|values|, p, k as real + f);
    BetweenIs(Sorted(values), k, f);
  }

  lemma PositionIs(n: nat, p: real, pos: real)
    requires n > 0 && 0.0 <= p <= 100.0 && 100.0 * pos == p * (n as real - 1.0)
    ensures Position(n, p) == pos
  {
    assert p / 100.0 * (n as real - 1.0) == p * (n as real - 1.0) / 100.0;
  }

  lemma BetweenIs(s: seq<real>, k: nat, f: real)
    requires s != [] && 0.0 <= f < 1.0 && k as real + f <= |s| as real - 1.0
    ensures k < |s| && (f > 0.0 ==> k + 1 < |s|)
    ensures Between(s, k as real + f) == if f == 0.0 then s[k] else s[k] + (s[k + 1] - s[k]) * f
  {
    assert (k as real + f).Floor == k;
  }
}

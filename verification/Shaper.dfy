/** The simulator's side of the hard cap: its agreement with the incremental padder, its interpolated
    percentile, and the scan for the smallest adequate multiple. */
module Shaper {
  import opened Arithmetic
  import opened Bytes
  import opened Padding
  import opened HardCap

  function Counts<T>(arrivals: seq<seq<T>>): (r: seq<real>)
    ensures |r| == |arrivals|
  {
    seq(|arrivals|, i requires 0 <= i < |arrivals| => |arrivals[i]| as real)
  }

  /** With whole counts and the cap set to Q, the batch recurrence gives the padder's backlog and
      deferral after every round. */
  lemma {:induction false} BatchAgreesWithPadder<T>(q: nat, arrivals: seq<seq<T>>)
    requires q > 0
    ensures Backlog(Counts(arrivals), q as real) == |PendingAfter(q, arrivals)| as real
    ensures Finite(Deferral(Backlog(Counts(arrivals), q as real), q as real)) == Divided(|PendingAfter(q, arrivals)|, q)
  {
    if arrivals != [] {
      var before := arrivals[..|arrivals| - 1];
      BatchAgreesWithPadder(q, before);
      assert Counts(arrivals)[..|arrivals| - 1] == Counts(before);
    }
  }

  // ---------------------------------------------------------------- the scan

  /** The value at a fractional position of a sorted series. */
  function Between(s: seq<real>, pos: real): real
    requires 0.0 <= pos <= |s| as real - 1.0
  {
    var lo := pos.Floor;
    var hi := if lo + 1 < |s| then lo + 1 else lo;
    s[lo] + (s[hi] - s[lo]) * (pos - lo as real)
  }

  function Scaled(f: real, m: real): (r: real)
    requires 0.0 <= f <= 1.0 && m >= 0.0
    ensures 0.0 <= r <= m
  {
    ScaledInRange(f, m);
    f * m
  }

  function Position(n: nat, p: real): (pos: real)
    requires n > 0 && 0.0 <= p <= 100.0
    ensures 0.0 <= pos <= n as real - 1.0
  {
    Scaled(p / 100.0, n as real - 1.0)
  }

  /** `np.percentile`: linear interpolation between neighbouring order statistics. */
  function Interpolated(values: seq<real>, p: real): real
    requires values != [] && 0.0 <= p <= 100.0
  {
    Between(Sorted(values), Position(|values|, p))
  }

  lemma InterpolatedMonotone(a: seq<real>, b: seq<real>, p: real)
    requires a != [] && Below(a, b) && 0.0 <= p <= 100.0
    ensures Interpolated(a, p) <= Interpolated(b, p)
  {
    hide Sorted, Position, Between;
    OrderStatisticsMonotone(a, b);
    BetweenMonotone(Sorted(a), Sorted(b), Position(|a|, p));
  }

  lemma BetweenMonotone(a: seq<real>, b: seq<real>, pos: real)
    requires Below(a, b) && 0.0 <= pos <= |a| as real - 1.0
    ensures Between(a, pos) <= Between(b, pos)
  {
    var lo := pos.Floor;
    var hi := if lo + 1 < |a| then lo + 1 else lo;
    Blend(a[lo], a[hi], b[lo], b[hi], pos - lo as real);
  }

  lemma Blend(a1: real, a2: real, b1: real, b2: real, f: real)
    requires a1 <= b1 && a2 <= b2 && 0.0 <= f <= 1.0
    ensures a1 + (a2 - a1) * f <= b1 + (b2 - b1) * f
  {
    assert (1.0 - f) * (b1 - a1) >= 0.0 && f * (b2 - a2) >= 0.0;
    assert a1 + (a2 - a1) * f == (1.0 - f) * a1 + f * a2;
    assert b1 + (b2 - b1) * f == (1.0 - f) * b1 + f * b2;
  }

  /** Whether `hard_cap(counts, c)["p99"] <= budget`. With no traffic at all the quotient is NaN, and
      the comparison false. */
  predicate Meets(counts: seq<real>, c: real, budget: real)
    requires counts != []
  {
    Mean(counts) != 0.0 && Interpolated(Deferrals(counts, c * Mean(counts)), 99.0) <= budget
  }

  lemma MeetsUpward(counts: seq<real>, c1: real, c2: real, budget: real)
    requires counts != [] && NonNegative(counts) && 0.0 < c1 <= c2 && Meets(counts, c1, budget)
    ensures Meets(counts, c2, budget)
  {
    hide Mean, Interpolated, Deferrals;
    MeanNonNegative(counts);
    TimesReal(c1, c2, Mean(counts));
    LargerCapSmallerDeferrals(counts, c1 * Mean(counts), c2 * Mean(counts));
    InterpolatedMonotone(Deferrals(counts, c2 * Mean(counts)), Deferrals(counts, c1 * Mean(counts)), 99.0);
  }

  /** The `k`-th multiple the scan tries. */
  function Tried(step: real, k: nat): real {
    1.1 + k as real * step
  }

  /** `c` meets the budget, so does every larger multiple, and, unless `c` is the first tried, none a
      step or more below it does. */
  ghost predicate Smallest(counts: seq<real>, budget: real, step: real, c: real)
    requires counts != []
  {
    && (forall c' :: c' >= c ==> Meets(counts, c', budget))
    && (c > 1.1 ==> forall c' :: 0.0 < c' <= c - step ==> !Meets(counts, c', budget))
  }

  function Tenths(j: nat): real {
    j as real / 10.0
  }

  /** `round(c, 1)`. */
  function RoundTenth(c: real): real {
    RoundHalfEven(10.0 * c) as real / 10.0
  }

  /** `min_multiple`: the answer is the first adequate multiple of the scan, rounded to a tenth. With a
      step of whole tenths, as by default, rounding changes nothing, and the answer itself is adequate
      and smallest to within a step. None means that no multiple up to a step below `hi` is adequate. */
  method MinMultiple(counts: seq<real>, budget: real, hi: real, step: real) returns (r: Option<real>)
    requires counts != [] && NonNegative(counts) && step > 0.0
    ensures r.Some? ==>
              exists k :: Tried(step, k) <= hi + 0.000000001 && r.value == RoundTenth(Tried(step, k))
                          && Smallest(counts, budget, step, Tried(step, k))
    ensures r.Some? && (exists j :: step == Tenths(j)) ==>
              1.1 <= r.value <= hi + 0.000000001 && Smallest(counts, budget, step, r.value)
    ensures r.None? && hi >= 1.1 ==> forall c :: 0.0 < c <= hi - step ==> !Meets(counts, c, budget)
  {
    hide *;
    var c := 1.1;
    ghost var k: nat := 0;
    TriedNext(step, k);
    while c <= hi + 0.000000001
      invariant c >= 1.1 && c == Tried(step, k)
      invariant c > 1.1 ==> forall c' :: 0.0 < c' <= c - step ==> !Meets(counts, c', budget)
      decreases ((hi + 0.000000001 - c) / step).Floor
    {
      if Meets(counts, c, budget) {
        forall c' | c' >= c ensures Meets(counts, c', budget) {
          MeetsUpward(counts, c, c', budget);
        }
        SmallestIs(counts, budget, step, c);
        if j :| step == Tenths(j) {
          TenthsStay(step, j, k);
        }
        return Some(RoundTenth(c));
      }
      forall c' | 0.0 < c' <= c ensures !Meets(counts, c', budget) {
        if Meets(counts, c', budget) {
          MeetsUpward(counts, c', c, budget);
        }
      }
      OneStepLess(hi + 0.000000001 - c, step);
      TriedNext(step, k);
      c := c + step;
      k := k + 1;
    }
    return None;
  }

  lemma SmallestIs(counts: seq<real>, budget: real, step: real, c: real)
    requires counts != []
    requires forall c' :: c' >= c ==> Meets(counts, c', budget)
    requires c > 1.1 ==> forall c' :: 0.0 < c' <= c - step ==> !Meets(counts, c', budget)
    ensures Smallest(counts, budget, step, c)
  {
  }

  lemma TriedNext(step: real, k: nat)
    ensures Tried(step, 0) == 1.1 && Tried(step, k + 1) == Tried(step, k) + step
  {
  }

  /** Stepping by whole tenths the scan tries only tenths, which rounding leaves alone. */
  lemma TenthsStay(step: real, j: nat, k: nat)
    requires step == Tenths(j)
    ensures RoundTenth(Tried(step, k)) == Tried(step, k)
  {
    hide RoundTenth;
    TenthsTried(step, j, k);
    TenthRounds(k * j);
  }

  lemma TenthsTried(step: real, j: nat, k: nat)
    requires step == Tenths(j)
    ensures Tried(step, k) == 1.1 + (k * j) as real / 10.0
  {
    assert (k * j) as real == k as real * j as real;
  }

  lemma TenthRounds(m: nat)
    ensures RoundTenth(1.1 + m as real / 10.0) == 1.1 + m as real / 10.0
  {
    assert 10.0 * (1.1 + m as real / 10.0) == (11 + m) as real;
  }

  lemma OneStepLess(x: real, step: real)
    requires step > 0.0 && x >= 0.0
    ensures ((x - step) / step).Floor == (x / step).Floor - 1 && (x / step).Floor >= 0
  {
    QuotientIs(x - step, step, x / step - 1.0);
  }

  lemma QuotientIs(a: real, step: real, b: real)
    requires step > 0.0 && a == b * step
    ensures a / step == b
  {
  }
}

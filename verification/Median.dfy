/** The robust merge of outcome reports: the median failure rate as synthetic counts, and why a
    minority of adversarial reports cannot move it out of the honest range. */
module Median {
  import opened Arithmetic
  import opened Bytes
  import opened HardCap

  /** One reporter's observation; honest reporters have ids from 0 up, adversaries negative ones. */
  datatype Obs = Obs(reporter: int, ok: int, fail: int)

  function Total(o: Obs): int {
    o.ok + o.fail
  }

  predicate Honest(o: Obs) {
    o.reporter >= 0
  }

  function Rate(o: Obs): real
    requires Total(o) > 0
  {
    o.fail as real / Total(o) as real
  }

  /** The reports that count: those with at least one sample. */
  function NonEmpty(obs: seq<Obs>): (r: seq<Obs>)
    ensures forall i :: 0 <= i < |r| ==> Total(r[i]) > 0
  {
    if obs == [] then []
    else NonEmpty(obs[..|obs| - 1]) + (if Total(obs[|obs| - 1]) > 0 then [obs[|obs| - 1]] else [])
  }

  function Rates(obs: seq<Obs>): (r: seq<real>)
    requires forall i :: 0 <= i < |obs| ==> Total(obs[i]) > 0
    ensures |r| == |obs|
  {
    seq(|obs|, i requires 0 <= i < |obs| => Rate(obs[i]))
  }

  function SumTotals(obs: seq<Obs>): int {
    if obs == [] then 0 else SumTotals(obs[..|obs| - 1]) + Total(obs[|obs| - 1])
  }

  function Middle(s: seq<real>): real
    requires s != []
  {
    var mid := |s| / 2;
    if |s| % 2 == 1 then s[mid] else 0.5 * (s[mid - 1] + s[mid])
  }

  function MedianOf(rates: seq<real>): real
    requires rates != []
  {
    Middle(Sorted(rates))
  }

  function SampleTotal(obs: seq<Obs>): (t: int)
    requires obs != []
    ensures t >= 1
  {
    var t := RoundHalfEven(SumTotals(obs) as real / |obs| as real);
    if t < 1 then 1 else t
  }

  /** `median_outcome_counts`. */
  function MedianOutcomeCounts(obs: seq<Obs>): Option<(int, int)> {
    var used := NonEmpty(obs);
    if used == [] then None else Synthetic(MedianOf(Rates(used)), SampleTotal(used))
  }

  /** Counts of the given total with about the given failure rate. */
  function Synthetic(rate: real, total: int): Option<(int, int)> {
    var rounded := RoundHalfEven(rate * total as real);
    var fail := if rounded < total then rounded else total;
    if total - fail == 0 && fail == 0 then None else Some((total - fail, fail))
  }

  /** How often a report is in a list. */
  function Occurrences(obs: seq<Obs>, o: Obs): nat {
    if obs == [] then 0 else Occurrences(obs[..|obs| - 1], o) + (if obs[|obs| - 1] == o then 1 else 0)
  }

  /** The reports kept are exactly those with samples, each as often as it was reported. */
  lemma {:induction false} NonEmptyIs(obs: seq<Obs>, o: Obs)
    ensures Occurrences(NonEmpty(obs), o) == if o.ok + o.fail > 0 then Occurrences(obs, o) else 0
  {
    if obs != [] {
      var before, last := obs[..|obs| - 1], obs[|obs| - 1];
      NonEmptyIs(before, o);
      assert (NonEmpty(before) + [last])[..|NonEmpty(before)|] == NonEmpty(before);
      assert NonEmpty(before) + [] == NonEmpty(before);
    }
  }

  /** The middle of an ascending series is half-way between its two middle values, which are one for an
      odd count. */
  lemma MiddleIs(s: seq<real>)
    requires s != []
    ensures Middle(s) - s[(|s| - 1) / 2] == s[|s| / 2] - Middle(s)
  {
    if |s| % 2 == 1 {
      assert (|s| - 1) / 2 == |s| / 2;
    } else {
      assert (|s| - 1) / 2 == |s| / 2 - 1;
    }
  }

  lemma {:induction false} SumTotalsSplits(a: seq<Obs>, b: seq<Obs>)
    ensures SumTotals(a + b) == SumTotals(a) + SumTotals(b)
    ensures |a| == 1 ==> SumTotals(a) == a[0].ok + a[0].fail
  {
    if |a| == 1 {
      assert a[..0] == [];
    }
    if b == [] {
      assert a + b == a;
    } else {
      SumTotalsSplits(a, b[..|b| - 1]);
      assert (a + b)[..|a + b| - 1] == a + b[..|b| - 1];
    }
  }

  /** The synthetic sample total is the nearest whole number to the mean total of the non-empty reports. */
  lemma SampleTotalNearMean(obs: seq<Obs>)
    requires obs != [] && forall i :: 0 <= i < |obs| ==> Total(obs[i]) > 0
    ensures -0.5 <= SampleTotal(obs) as real - SumTotals(obs) as real / |obs| as real <= 0.5
  {
    hide RoundHalfEven;
    TotalsAtLeast(obs);
    var mean := SumTotals(obs) as real / |obs| as real;
    assert mean >= 1.0;
    RoundNear(mean);
  }

  lemma {:induction false} TotalsAtLeast(obs: seq<Obs>)
    requires forall i :: 0 <= i < |obs| ==> Total(obs[i]) > 0
    ensures SumTotals(obs) >= |obs|
  {
    if obs != [] {
      TotalsAtLeast(obs[..|obs| - 1]);
    }
  }

  // ---------------------------------------------------------------- counting through the sort

  function Count(s: seq<real>, p: real -> bool): nat {
    if s == [] then 0 else (if p(s[0]) then 1 else 0) + Count(s[1..], p)
  }

  lemma {:induction false} CountInsert(x: real, s: seq<real>, p: real -> bool)
    ensures Count(Insert(x, s), p) == (if p(x) then 1 else 0) + Count(s, p)
  {
    if s == [] || x <= s[0] {
      assert ([x] + s)[1..] == s;
    } else {
      CountInsert(x, s[1..], p);
      assert ([s[0]] + Insert(x, s[1..]))[1..] == Insert(x, s[1..]);
    }
  }

  lemma {:induction false} CountSorted(s: seq<real>, p: real -> bool)
    ensures Count(Sorted(s), p) == Count(s, p)
  {
    if s != [] {
      CountSorted(s[1..], p);
      CountInsert(s[0], Sorted(s[1..]), p);
    }
  }

  /** If `p` holds on a stretch of `s`, it holds at least that often. */
  lemma {:induction false} CountAtLeast(s: seq<real>, p: real -> bool, from: nat, to: nat)
    requires from <= to <= |s| && forall i :: from <= i < to ==> p(s[i])
    ensures Count(s, p) >= to - from
  {
    if s != [] && from < to {
      if from == 0 {
        CountAtLeast(s[1..], p, 0, to - 1);
      } else {
        CountAtLeast(s[1..], p, from - 1, to - 1);
      }
    }
  }

  function Adversaries(obs: seq<Obs>): nat {
    if obs == [] then 0 else Adversaries(obs[..|obs| - 1]) + (if Honest(obs[|obs| - 1]) then 0 else 1)
  }

  lemma {:induction false} CountAppend(s: seq<real>, x: real, p: real -> bool)
    ensures Count(s + [x], p) == Count(s, p) + (if p(x) then 1 else 0)
  {
    if s == [] {
      assert [] + [x] == [x] && [x][1..] == [];
    } else {
      CountAppend(s[1..], x, p);
      assert (s + [x])[1..] == s[1..] + [x];
    }
  }

  /** A property no honest rate has holds for at most as many rates as there are adversaries. */
  lemma {:induction false} OnlyAdversariesOutside(obs: seq<Obs>, p: real -> bool)
    requires forall i :: 0 <= i < |obs| ==> Total(obs[i]) > 0
    requires forall i :: 0 <= i < |obs| && Honest(obs[i]) ==> !p(Rate(obs[i]))
    ensures Count(Rates(obs), p) <= Adversaries(obs)
  {
    if obs != [] {
      var before, o := obs[..|obs| - 1], obs[|obs| - 1];
      OnlyAdversariesOutside(before, p);
      CountAppend(Rates(before), Rate(o), p);
      assert Rates(obs) == Rates(before) + [Rate(o)];
    }
  }

  // ---------------------------------------------------------------- robustness

  /** Honest reports have samples, and rates within the bounds. */
  ghost predicate HonestWithin(obs: seq<Obs>, lo: real, hi: real) {
    forall i :: 0 <= i < |obs| && Honest(obs[i]) ==> Total(obs[i]) > 0 && lo <= Rate(obs[i]) <= hi
  }

  lemma {:induction false} AllCount(obs: seq<Obs>)
    requires forall i :: 0 <= i < |obs| ==> Total(obs[i]) > 0
    ensures NonEmpty(obs) == obs
  {
    if obs != [] {
      AllCount(obs[..|obs| - 1]);
    }
  }

  /** Only adversarial reports are discarded: every honest one is among the non-empty. */
  lemma {:induction false} HonestAreKept(obs: seq<Obs>, lo: real, hi: real)
    requires HonestWithin(obs, lo, hi)
    ensures HonestWithin(NonEmpty(obs), lo, hi)
    ensures Adversaries(NonEmpty(obs)) <= Adversaries(obs)
    ensures |NonEmpty(obs)| - Adversaries(NonEmpty(obs)) == |obs| - Adversaries(obs)
  {
    hide Rate, Total, Honest;
    if obs != [] {
      var before, o := obs[..|obs| - 1], obs[|obs| - 1];
      HonestAreKept(before, lo, hi);
      var kept := NonEmpty(before);
      assert (kept + [o])[..|kept|] == kept && kept + [] == kept;
    }
  }

  /** With fewer than half of the non-empty reports adversarial, the median rate lies between any
      bounds the honest rates respect. */
  lemma MedianWithinHonest(obs: seq<Obs>, lo: real, hi: real)
    requires obs != [] && forall i :: 0 <= i < |obs| ==> Total(obs[i]) > 0
    requires 2 * Adversaries(obs) < |obs|
    requires forall i :: 0 <= i < |obs| && Honest(obs[i]) ==> lo <= Rate(obs[i]) <= hi
    ensures lo <= MedianOf(Rates(obs)) <= hi
  {
    hide Middle, Sorted, Count, Rate;
    var rates := Rates(obs);
    var above, below := (x: real) => x > hi, (x: real) => x < lo;
    CountSorted(rates, above);
    CountSorted(rates, below);
    OnlyAdversariesOutside(obs, above);
    OnlyAdversariesOutside(obs, below);
    SortedSorts(rates);
    MiddleWithin(Sorted(rates), lo, hi, above, below, Adversaries(obs));
  }

  /** In an ascending series with few values outside the bounds, the middle is inside. */
  lemma MiddleWithin(s: seq<real>, lo: real, hi: real, above: real -> bool, below: real -> bool, few: nat)
    requires Ascending(s) && 2 * few < |s|
    requires forall x :: (above(x) <==> x > hi) && (below(x) <==> x < lo)
    requires Count(s, above) <= few && Count(s, below) <= few
    ensures lo <= Middle(s) <= hi
  {
    var mid, low := |s| / 2, (|s| - 1) / 2;
    if s[mid] > hi {
      CountAtLeast(s, above, mid, |s|);
    }
    if s[low] < lo {
      CountAtLeast(s, below, 0, low + 1);
    }
    assert lo <= s[low] <= s[mid] <= hi;
  }

  /** Then the merge yields counts, at least one sample in all, with failures within a half of that
      rate times the total. */
  lemma MergeRobust(obs: seq<Obs>, lo: real, hi: real)
    requires NonEmpty(obs) != [] && 2 * Adversaries(NonEmpty(obs)) < |NonEmpty(obs)|
    requires 0.0 <= lo && hi <= 1.0
    requires HonestWithin(NonEmpty(obs), lo, hi)
    ensures MedianOutcomeCounts(obs).Some?
    ensures var (ok, fail) := MedianOutcomeCounts(obs).value;
            var rate := MedianOf(Rates(NonEmpty(obs)));
            && ok >= 0 && fail >= 0 && ok + fail == SampleTotal(NonEmpty(obs))
            && lo <= rate <= hi
            && -0.5 <= fail as real - rate * SampleTotal(NonEmpty(obs)) as real <= 0.5
            && -0.5 <= (ok + fail) as real - SumTotals(NonEmpty(obs)) as real / |NonEmpty(obs)| as real <= 0.5
  {
    hide MedianOf, SampleTotal, Rates, NonEmpty, Synthetic, Rate, Honest;
    var used := NonEmpty(obs);
    MedianWithinHonest(used, lo, hi);
    SyntheticNear(MedianOf(Rates(used)), SampleTotal(used));
    SampleTotalNearMean(used);
  }

  lemma SyntheticNear(rate: real, total: int)
    requires 0.0 <= rate <= 1.0 && total >= 1
    ensures Synthetic(rate, total).Some?
    ensures var (ok, fail) := Synthetic(rate, total).value;
            ok >= 0 && fail >= 0 && ok + fail == total && -0.5 <= fail as real - rate * total as real <= 0.5
  {
    hide RoundHalfEven;
    RoundedShare(rate, total);
  }

  /** A share of a whole number, rounded, is within the number and a half of the share. */
  lemma RoundedShare(rate: real, total: int)
    requires 0.0 <= rate <= 1.0 && total >= 1
    ensures 0 <= RoundHalfEven(rate * total as real) <= total
    ensures -0.5 <= RoundHalfEven(rate * total as real) as real - rate * total as real <= 0.5
  {
    ScaledInRange(rate, total as real);
    RoundNear(rate * total as real);
  }

  // ---------------------------------------------------------------- half is too many

  /** Honest reports all of rate 0, adversarial ones all of rate 1. */
  function Split(honest: nat, adversaries: nat): (obs: seq<Obs>)
    ensures |obs| == honest + adversaries
    ensures forall i :: 0 <= i < |obs| ==> obs[i] == if i < honest then Obs(i, 1, 0) else Obs(-1 - i, 0, 1)
  {
    seq(honest + adversaries, i requires 0 <= i < honest + adversaries =>
      if i < honest then Obs(i, 1, 0) else Obs(-1 - i, 0, 1))
  }

  lemma {:induction false} SplitCounts(honest: nat, adversaries: nat)
    ensures Adversaries(Split(honest, adversaries)) == adversaries
  {
    if adversaries > 0 {
      SplitCounts(honest, adversaries - 1);
      assert Split(honest, adversaries)[..honest + adversaries - 1] == Split(honest, adversaries - 1);
    } else if honest > 0 {
      SplitCounts(honest - 1, 0);
      assert Split(honest, 0)[..honest - 1] == Split(honest - 1, 0);
    }
  }

  lemma {:induction false} SortedKeepsAscending(s: seq<real>)
    requires Ascending(s)
    ensures Sorted(s) == s
  {
    if s != [] {
      SortedKeepsAscending(s[1..]);
      AscendingTail(s);
    }
  }

  lemma SplitRates(honest: nat, adversaries: nat, i: nat)
    requires i < honest + adversaries
    ensures Rates(Split(honest, adversaries))[i] == if i < honest then 0.0 else 1.0
  {
  }

  lemma MiddleOfSplit(s: seq<real>, honest: nat)
    requires s != [] && 2 * honest <= |s|
    requires forall i :: 0 <= i < |s| ==> s[i] == if i < honest then 0.0 else 1.0
    ensures Middle(s) > 0.0
  {
    assert s[|s| / 2] == 1.0;
  }

  lemma SplitMedian(honest: nat, adversaries: nat)
    requires honest <= adversaries && adversaries > 0
    ensures MedianOf(Rates(Split(honest, adversaries))) > 0.0
  {
    hide Rate, Sorted, Middle, Rates, Split;
    var rates := Rates(Split(honest, adversaries));
    forall i | 0 <= i < |rates| ensures rates[i] == if i < honest then 0.0 else 1.0 {
      SplitRates(honest, adversaries, i);
    }
    SortedKeepsAscending(rates);
    MiddleOfSplit(rates, honest);
  }

  /** The bound is exact: the median stays within the honest range, for all reports with so many honest
      and adversarial ones, if and only if the honest ones outnumber the others. */
  lemma MedianRobustIffMinority(honest: nat, adversaries: nat)
    requires honest + adversaries > 0
    ensures (forall obs, lo, hi ::
               && |obs| == honest + adversaries && Adversaries(obs) == adversaries
               && HonestWithin(obs, lo, hi) && NonEmpty(obs) != [] ==>
                 lo <= MedianOf(Rates(NonEmpty(obs))) <= hi)
       <==> adversaries < honest
  {
    hide MedianOf, NonEmpty, Adversaries, Rates;
    if adversaries < honest {
      forall obs, lo, hi |
        && |obs| == honest + adversaries && Adversaries(obs) == adversaries
        && HonestWithin(obs, lo, hi) && NonEmpty(obs) != []
        ensures lo <= MedianOf(Rates(NonEmpty(obs))) <= hi
      {
        HonestAreKept(obs, lo, hi);
        MedianWithinHonest(NonEmpty(obs), lo, hi);
      }
    } else {
      var obs := Split(honest, adversaries);
      SplitCounts(honest, adversaries);
      SplitMedian(honest, adversaries);
      AllCount(obs);
      assert HonestWithin(obs, 0.0, 0.0);
    }
  }
}

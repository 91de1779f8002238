/** The batch hard-cap analysis: backlog and deferral of a series of counts under a cap of `c` times
    their mean, and its 99th percentile; with the scan for the smallest adequate multiple. */
module HardCap {
  import opened Arithmetic

  // ---------------------------------------------------------------- order statistics

  ghost predicate Ascending(s: seq<real>) {
    forall i, j :: 0 <= i < j < |s| ==> s[i] <= s[j]
  }

  /** `a` is nowhere above `b`. */
  ghost predicate Below(a: seq<real>, b: seq<real>) {
    |a| == |b| && forall i :: 0 <= i < |a| ==> a[i] <= b[i]
  }

  function Insert(x: real, s: seq<real>): (r: seq<real>)
    ensures |r| == |s| + 1
  {
    if s == [] || x <= s[0] then [x] + s else [s[0]] + Insert(x, s[1..])
  }

  function Sorted(s: seq<real>): (r: seq<real>)
    ensures |r| == |s|
  {
    if s == [] then [] else Insert(s[0], Sorted(s[1..]))
  }

  lemma {:induction false} InsertSorts(x: real, s: seq<real>)
    requires Ascending(s)
    ensures Ascending(Insert(x, s))
    ensures Insert(x, s)[0] == if s == [] || x <= s[0] then x else s[0]
  {
    if s != [] && x > s[0] {
      InsertSorts(x, s[1..]);
    }
  }

  lemma {:induction false} InsertAdds(x: real, s: seq<real>)
    ensures multiset(Insert(x, s)) == multiset(s) + multiset{x}
  {
    if s != [] && x > s[0] {
      InsertAdds(x, s[1..]);
      assert s == [s[0]] + s[1..];
    }
  }

  lemma NothingAscends()
    ensures Ascending([])
  {
  }

  /** Sorting arranges exactly the given values in ascending order. */
  lemma {:induction false} SortedSorts(s: seq<real>)
    ensures Ascending(Sorted(s)) && multiset(Sorted(s)) == multiset(s)
  {
    hide Ascending, Insert;
    if s == [] {
      NothingAscends();
    } else {
      SortedSorts(s[1..]);
      InsertSorts(s[0], Sorted(s[1..]));
      InsertAdds(s[0], Sorted(s[1..]));
      assert s == [s[0]] + s[1..];
    }
  }

  lemma {:induction false} InsertKeepsBelow(x: real, s: seq<real>, y: real, t: seq<real>)
    requires Ascending(s) && Ascending(t) && Below(s, t) && x <= y
    ensures Below(Insert(x, s), Insert(y, t))
    decreases |s|
  {
    hide Ascending, Below;
    if s == [] {
      BelowCons(x, s, y, t);
    } else {
      TailsBelow(s, t);
      AscendingTail(s);
      AscendingTail(t);
      if x <= s[0] && y <= t[0] {
        BelowCons(x, s, y, t);
      } else if x <= s[0] {
        InsertKeepsBelow(s[0], s[1..], y, t[1..]);
        BelowCons(x, s, t[0], Insert(y, t[1..]));
      } else if y <= t[0] {
        InsertKeepsBelow(x, s[1..], t[0], t[1..]);
        BelowCons(s[0], Insert(x, s[1..]), y, t);
      } else {
        InsertKeepsBelow(x, s[1..], y, t[1..]);
        BelowCons(s[0], Insert(x, s[1..]), t[0], Insert(y, t[1..]));
      }
    }
  }

  lemma BelowCons(x: real, s: seq<real>, y: real, t: seq<real>)
    requires x <= y && Below(s, t)
    ensures Below([x] + s, [y] + t)
  {
  }

  lemma TailsBelow(s: seq<real>, t: seq<real>)
    requires s != [] && Below(s, t)
    ensures |t| == |s| && s[0] <= t[0] && Below(s[1..], t[1..])
  {
  }

  /** What is first in an ascending series goes back to its front. */
  lemma AscendingTail(s: seq<real>)
    requires s != [] && Ascending(s)
    ensures Ascending(s[1..]) && Insert(s[0], s[1..]) == s
  {
  }

  /** If one series is nowhere above another, neither is any of its order statistics. */
  lemma {:induction false} OrderStatisticsMonotone(a: seq<real>, b: seq<real>)
    requires Below(a, b)
    ensures Below(Sorted(a), Sorted(b))
  {
    if a != [] {
      OrderStatisticsMonotone(a[1..], b[1..]);
      SortedSorts(a[1..]);
      SortedSorts(b[1..]);
      InsertKeepsBelow(a[0], Sorted(a[1..]), b[0], Sorted(b[1..]));
    }
  }

  // ---------------------------------------------------------------- backlog and deferral

  ghost predicate NonNegative(s: seq<real>) {
    forall i :: 0 <= i < |s| ==> s[i] >= 0.0
  }

  function Sum(s: seq<real>): real {
    if s == [] then 0.0 else Sum(s[..|s| - 1]) + s[|s| - 1]
  }

  function Mean(s: seq<real>): real {
    if s == [] then 0.0 else Sum(s) / |s| as real
  }

  /** What is still waiting after each slot has released up to `cap`. */
  function Backlog(counts: seq<real>, cap: real): real {
    if counts == [] then 0.0
    else
      var b := Backlog(counts[..|counts| - 1], cap) + counts[|counts| - 1];
      b - MinReal(b, cap)
  }

  function Deferral(backlog: real, cap: real): real {
    if cap > 0.0 then backlog / cap else 0.0
  }

  /** The deferral after every slot. */
  function Deferrals(counts: seq<real>, cap: real): (r: seq<real>)
    ensures |r| == |counts|
  {
    seq(|counts|, i requires 0 <= i < |counts| => Deferral(Backlog(counts[..i + 1], cap), cap))
  }

  /** `round()` of a non-negative f64: half away from zero. */
  function RoundHalfUp(x: real): int {
    (x + 0.5).Floor
  }

  /** Nearest-rank index of percentile `p` among `n` values. */
  function RankIndex(n: nat, p: real): (i: nat)
    requires n > 0
    ensures i < n
  {
    var i := RoundHalfUp(p / 100.0 * (n as real - 1.0));
    if i < 0 then 0 else if i < n then i else n - 1
  }

  function Percentile(values: seq<real>, p: real): real {
    if values == [] then 0.0 else Sorted(values)[RankIndex(|values|, p)]
  }

  method PercentileOf(values: seq<real>, p: real) returns (r: real)
    ensures r == Percentile(values, p)
  {
    if values == [] {
      return 0.0;
    }
    var sorted := Sorted(values);
    var n := |sorted|;
    var idx := RoundHalfUp(p / 100.0 * (n as real - 1.0));
    idx := if idx < 0 then 0 else idx;
    idx := if idx < n - 1 then idx else n - 1;
    assert idx == RankIndex(|values|, p);
    r := sorted[idx];
  }

  datatype HardCapStats = HardCapStats(cap: real, meanDeferral: real, p99Deferral: real, stable: bool)

  method SumOf(s: seq<real>) returns (r: real)
    ensures r == Sum(s)
  {
    r := 0.0;
    for i := 0 to |s|
      invariant r == Sum(s[..i])
    {
      assert s[..i + 1][..i] == s[..i];
      r := r + s[i];
    }
    assert s[..|s|] == s;
  }

  method MeanOf(s: seq<real>) returns (m: real)
    ensures m == Mean(s)
  {
    if s == [] {
      return 0.0;
    }
    var total := SumOf(s);
    m := total / |s| as real;
  }

  method DeferralSeries(counts: seq<real>, cap: real) returns (lat: seq<real>)
    ensures lat == Deferrals(counts, cap)
  {
    hide Deferral, MinReal;
    var backlog := 0.0;
    lat := [];
    for i := 0 to |counts|
      invariant backlog == Backlog(counts[..i], cap)
      invariant |lat| == i
      invariant forall j :: 0 <= j < i ==> lat[j] == Deferral(Backlog(counts[..j + 1], cap), cap)
    {
      assert counts[..i + 1][..i] == counts[..i];
      backlog := backlog + counts[i];
      backlog := backlog - MinReal(backlog, cap);
      lat := lat + [Deferral(backlog, cap)];
    }
  }

  method AnalyzeHardCap(counts: seq<real>, c: real) returns (r: HardCapStats)
    ensures r.cap == c * Mean(counts)
    ensures r.meanDeferral == Mean(Deferrals(counts, r.cap))
    ensures r.p99Deferral == Percentile(Deferrals(counts, r.cap), 99.0)
    ensures r.stable == (Mean(counts) < r.cap)
  {
    hide *;
    var m := MeanOf(counts);
    var cap := c * m;
    var lat := DeferralSeries(counts, cap);
    var meanDeferral := MeanOf(lat);
    var p99 := PercentileOf(lat, 99.0);
    return HardCapStats(cap, meanDeferral, p99, m < cap);
  }

  function P99(counts: seq<real>, c: real): real {
    Percentile(Deferrals(counts, c * Mean(counts)), 99.0)
  }

  // ---------------------------------------------------------------- a larger cap defers less

  lemma {:induction false} LargerCapSmallerBacklog(counts: seq<real>, cap1: real, cap2: real)
    requires NonNegative(counts) && 0.0 <= cap1 <= cap2
    ensures 0.0 <= Backlog(counts, cap2) <= Backlog(counts, cap1)
  {
    if counts != [] {
      LargerCapSmallerBacklog(counts[..|counts| - 1], cap1, cap2);
    }
  }

  lemma DeferralShrinks(b1: real, cap1: real, b2: real, cap2: real)
    requires 0.0 <= b2 <= b1 && 0.0 < cap1 <= cap2
    ensures b2 / cap2 <= b1 / cap1
  {
    assert b2 / cap2 <= b1 / cap2;
    assert b1 / cap2 <= b1 / cap1;
  }

  lemma LargerCapSmallerDeferrals(counts: seq<real>, cap1: real, cap2: real)
    requires NonNegative(counts) && 0.0 < cap1 <= cap2
    ensures Below(Deferrals(counts, cap2), Deferrals(counts, cap1))
  {
    var a, b := Deferrals(counts, cap2), Deferrals(counts, cap1);
    forall i | 0 <= i < |counts| ensures a[i] <= b[i] {
      LargerCapSmallerBacklog(counts[..i + 1], cap1, cap2);
      DeferralShrinks(Backlog(counts[..i + 1], cap1), cap1, Backlog(counts[..i + 1], cap2), cap2);
    }
  }

  lemma {:induction false} MeanNonNegative(counts: seq<real>)
    requires NonNegative(counts)
    ensures Sum(counts) >= 0.0 && Mean(counts) >= 0.0
  {
    if counts != [] {
      MeanNonNegative(counts[..|counts| - 1]);
    }
  }

  lemma PercentileMonotone(a: seq<real>, b: seq<real>, p: real)
    requires Below(a, b)
    ensures Percentile(a, p) <= Percentile(b, p)
  {
    hide Sorted, RankIndex;
    OrderStatisticsMonotone(a, b);
  }

  /** With a positive multiple, raising it never raises the 99th-percentile deferral. */
  lemma LargerMultipleSmallerP99(counts: seq<real>, c1: real, c2: real)
    requires NonNegative(counts) && 0.0 < c1 <= c2
    ensures P99(counts, c2) <= P99(counts, c1)
  {
    hide Mean, Percentile, Deferrals;
    MeanNonNegative(counts);
    if Mean(counts) > 0.0 {
      TimesReal(c1, c2, Mean(counts));
      LargerCapSmallerDeferrals(counts, c1 * Mean(counts), c2 * Mean(counts));
      PercentileMonotone(Deferrals(counts, c2 * Mean(counts)), Deferrals(counts, c1 * Mean(counts)), 99.0);
    } else {
      TimesZero(c1, Mean(counts));
      TimesZero(c2, Mean(counts));
    }
  }

  lemma TimesZero(c: real, m: real)
    requires m == 0.0
    ensures c * m == 0.0
  {
  }

  lemma TimesReal(a: real, b: real, m: real)
    requires 0.0 < a <= b && 0.0 < m
    ensures 0.0 < a * m <= b * m
  {
  }

  /** That holds from `c1` on exactly when `c1` is positive: at zero or below the cap is not positive,
      the deferral is recorded as zero, and a small positive multiple already exceeds it. */
  lemma MonotoneExactlyWhenPositive(c1: real)
    ensures (forall counts, c2 :: NonNegative(counts) && c1 <= c2 ==> P99(counts, c2) <= P99(counts, c1))
       <==> c1 > 0.0
  {
    if c1 > 0.0 {
      forall counts, c2 | NonNegative(counts) && c1 <= c2 ensures P99(counts, c2) <= P99(counts, c1) {
        LargerMultipleSmallerP99(counts, c1, c2);
      }
    } else {
      OneSlotWitness(c1);
      assert NonNegative([1.0]) && c1 <= 0.5;
    }
  }

  lemma OneSlotWitness(c1: real)
    requires c1 <= 0.0
    ensures P99([1.0], 0.5) == 1.0 && P99([1.0], c1) == 0.0
  {
    var counts := [1.0];
    assert counts[..0] == [] && counts[..1] == counts;
    assert Sum(counts) == 1.0 && Mean(counts) == 1.0;
    OneValue(Deferral(Backlog(counts, 0.5), 0.5));
    OneValue(0.0);
    assert Deferrals(counts, 0.5) == [Deferral(Backlog(counts, 0.5), 0.5)];
    assert Deferrals(counts, c1) == [0.0];
  }

  lemma OneValue(x: real)
    ensures Percentile([x], 99.0) == x
  {
    assert [x][1..] == [] && Sorted([]) == [];
  }
}

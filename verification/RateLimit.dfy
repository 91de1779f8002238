/** Ingress token buckets, one a connection and one shared, and how many cells they let through over
    any window of time. */
module RateLimit {
  import opened Arithmetic
  import opened Bytes

  datatype Bucket = Bucket(rate: real, burst: real, tokens: real, lastT: real)

  /** The tokens that flow in over a time. */
  function Flow(rate: real, dt: real): real {
    rate * dt
  }

  /** `allow(t, n)`: a bucket without a rate lets everything through. */
  function Allowed(b: Bucket, t: real, n: real): (Bucket, bool) {
    if b.rate <= 0.0 then (b, true)
    else
      var tokens := MinReal(b.burst, b.tokens + Flow(b.rate, MaxReal(0.0, t - b.lastT)));
      if tokens >= n then (b.(tokens := tokens - n, lastT := t), true) else (b.(tokens := tokens, lastT := t), false)
  }

  class TokenBucket {
    const rate: real
    const burst: real
    var tokens: real
    var lastT: real

    ghost function Abs(): Bucket
      reads this
    {
      Bucket(rate, burst, tokens, lastT)
    }

    constructor (rate: real, burst: real, tokens: real, lastT: real)
      ensures Abs() == Bucket(rate, burst, tokens, lastT)
    {
      this.rate, this.burst, this.tokens, this.lastT := rate, burst, tokens, lastT;
    }

    method Allow(t: real, n: real := 1.0) returns (ok: bool)
      modifies this
      ensures (Abs(), ok) == Allowed(old(Abs()), t, n)
    {
      if rate <= 0.0 {
        return true;
      }
      var dt := MaxReal(0.0, t - lastT);
      tokens := MinReal(burst, tokens + Flow(rate, dt));
      lastT := t;
      if tokens >= n {
        tokens := tokens - n;
        return true;
      }
      return false;
    }
  }

  /** The buckets one connection is subject to. */
  datatype Gate = Gate(local: Bucket, shared: Option<Bucket>)

  /** One cell: the local bucket is asked first, and its token is gone even if the shared one refuses. */
  function CellAdmitted(g: Gate, t: real): (Gate, bool) {
    var (local, okLocal) := Allowed(g.local, t, 1.0);
    if !okLocal || g.shared.None? || g.shared.value.rate <= 0.0 then (g.(local := local), okLocal)
    else
      var (shared, okShared) := Allowed(g.shared.value, t, 1.0);
      (Gate(local, Some(shared)), okShared)
  }

  /** `_try_admit` of `n` cells: the buckets afterwards, and how many were accepted. */
  function Admitted(g: Gate, t: real, n: nat): (Gate, nat)
  {
    if n == 0 then (g, 0)
    else
      var (before, accepted) := Admitted(g, t, n - 1);
      var (after, ok) := CellAdmitted(before, t);
      (after, accepted + if ok then 1 else 0)
  }

  method TryAdmit(t: real, nCells: nat, local: TokenBucket, shared: TokenBucket?) returns (accepted: nat, dropped: nat)
    requires local != shared
    modifies local, shared
    ensures accepted + dropped == nCells
    ensures var before := Gate(old(local.Abs()), if shared == null then None else Some(old(shared.Abs())));
            var after := Gate(local.Abs(), if shared == null then None else Some(shared.Abs()));
            (after, accepted) == Admitted(before, t, nCells)
  {
    hide Allowed;
    ghost var start := Gate(local.Abs(), if shared == null then None else Some(shared.Abs()));
    accepted, dropped := 0, 0;
    for i := 0 to nCells
      invariant accepted + dropped == i
      invariant (Gate(local.Abs(), if shared == null then None else Some(shared.Abs())), accepted)
             == Admitted(start, t, i)
    {
      var okLocal := local.Allow(t, 1.0);
      if !okLocal {
        dropped := dropped + 1;
        continue;
      }
      if shared != null && shared.rate > 0.0 {
        var okShared := shared.Allow(t, 1.0);
        if !okShared {
          dropped := dropped + 1;
          continue;
        }
      }
      accepted := accepted + 1;
    }
  }

  // ---------------------------------------------------------------- what is admitted

  /** A bucket alone admits exactly as many of `n` cells as it has whole tokens for, after refilling up to
      its burst, and pays one for each. */
  lemma {:induction false} AdmitsWhatItHolds(b: Bucket, t: real, n: nat)
    requires b.rate > 0.0 && 0.0 <= b.tokens <= b.burst && n > 0
    ensures var (g, k) := Admitted(Gate(b, None), t, n);
            var refilled := MinReal(b.burst, b.tokens + Flow(b.rate, MaxReal(0.0, t - b.lastT)));
            && g == Gate(b.(tokens := refilled - k as real, lastT := t), None)
            && k <= n && k as real <= refilled && (k == n || refilled < k as real + 1.0)
  {
    hide Flow, Allowed, MinReal;
    var before, admitted := Admitted(Gate(b, None), t, n - 1).0.local, Admitted(Gate(b, None), t, n - 1).1;
    if n == 1 {
      CallSpends(b, t, 1.0);
      RefillNotNegative(b, t);
    } else {
      AdmitsWhatItHolds(b, t, n - 1);
      CallSpends(before, t, 1.0);
      NoRefill(b, before, t);
    }
  }

  lemma RefillNotNegative(b: Bucket, t: real)
    requires b.rate > 0.0 && 0.0 <= b.tokens <= b.burst
    ensures 0.0 <= MinReal(b.burst, b.tokens + Flow(b.rate, MaxReal(0.0, t - b.lastT)))
  {
    hide Flow;
    FlowGrows(b.rate, MaxReal(0.0, t - b.lastT), MaxReal(0.0, t - b.lastT));
  }

  /** Asked again at the same time, a bucket does not refill. */
  lemma NoRefill(b: Bucket, before: Bucket, t: real)
    requires before.rate == b.rate && before.burst == b.burst && before.lastT == t
    requires before.tokens <= MinReal(b.burst, b.tokens + Flow(b.rate, MaxReal(0.0, t - b.lastT)))
    ensures MinReal(before.burst, before.tokens + Flow(before.rate, MaxReal(0.0, t - before.lastT))) == before.tokens
  {
    hide Flow;
    FlowNone(b.rate);
  }

  /** Two buckets in tandem: the local one is asked, and pays, as if it were alone, even for cells the shared
      one then refuses; the shared one is asked exactly for the cells that the local one lets through. */
  lemma {:induction false} BucketsInTandem(local: Bucket, shared: Bucket, t: real, n: nat)
    ensures var (l, m) := Admitted(Gate(local, None), t, n);
            var (s, k) := Admitted(Gate(shared, None), t, m);
            Admitted(Gate(local, Some(shared)), t, n) == (Gate(l.local, Some(s.local)), k)
  {
    hide Allowed;
    if n > 0 {
      BucketsInTandem(local, shared, t, n - 1);
      NoRateNoChange(shared, t);
      StaysLocal(local, t, n - 1);
      StaysLocal(shared, t, Admitted(Gate(local, None), t, n - 1).1);
    }
  }

  lemma NoRateNoChange(b: Bucket, t: real)
    ensures b.rate <= 0.0 ==> Allowed(b, t, 1.0) == (b, true)
  {
  }

  lemma {:induction false} StaysLocal(b: Bucket, t: real, n: nat)
    ensures var g := Admitted(Gate(b, None), t, n).0;
            g.shared == None && g.local.rate == b.rate && Admitted(Gate(b, None), t, n).1 <= n
    ensures b.rate <= 0.0 ==> Admitted(Gate(b, None), t, n) == (Gate(b, None), n)
  {
    if n > 0 {
      StaysLocal(b, t, n - 1);
    }
  }

  // ---------------------------------------------------------------- windows of time

  /** Everything that arrives: `cells` cells on connection `conn` at time `t`. */
  datatype Offer = Offer(conn: nat, t: real, cells: nat)

  /** The ingress: a bucket for every connection, and a shared one, with the cells accepted so far. */
  datatype Ingress = Ingress(locals: seq<Bucket>, shared: Option<Bucket>, accepted: seq<nat>)

  function Take(s: Ingress, o: Offer): Ingress
    requires o.conn < |s.locals| == |s.accepted|
  {
    var (g, n) := Admitted(Gate(s.locals[o.conn], s.shared), o.t, o.cells);
    Ingress(s.locals[o.conn := g.local], g.shared, s.accepted[o.conn := s.accepted[o.conn] + n])
  }

  function Run(s: Ingress, offers: seq<Offer>): (r: Ingress)
    requires |s.locals| == |s.accepted| && forall i :: 0 <= i < |offers| ==> offers[i].conn < |s.locals|
    ensures |r.locals| == |r.accepted| == |s.locals|
  {
    if offers == [] then s else Take(Run(s, offers[..|offers| - 1]), offers[|offers| - 1])
  }

  function TotalOf(counts: seq<nat>): nat {
    if counts == [] then 0 else counts[0] + TotalOf(counts[1..])
  }

  /** What a bucket may have let through since `t1`: it is filled no higher than its burst, and what it
      may still spend plus `spent` never exceeds a burst plus what has flowed in. */
  ghost predicate Within(b: Bucket, spent: real, t1: real) {
    && 0.0 <= b.tokens <= b.burst
    && if b.lastT < t1 then spent == 0.0 else b.tokens + spent <= b.burst + Flow(b.rate, b.lastT - t1)
  }

  lemma FlowSplits(rate: real, a: real, b: real, c: real)
    ensures Flow(rate, b - a) + Flow(rate, c - b) == Flow(rate, c - a)
  {
  }

  lemma FlowGrows(rate: real, a: real, b: real)
    requires rate > 0.0 && 0.0 <= a <= b
    ensures 0.0 <= Flow(rate, a) <= Flow(rate, b)
  {
  }

  /** One call at a time not before the last keeps the account. */
  lemma AllowedWithin(b: Bucket, spent: real, t1: real, t: real, n: real)
    requires b.rate > 0.0 && Within(b, spent, t1) && t >= t1 && t >= b.lastT && n > 0.0
    ensures var (b', ok) := Allowed(b, t, n);
            && Within(b', spent + (if ok then n else 0.0), t1)
            && Within(b', spent, t1)
            && b'.rate == b.rate && b'.burst == b.burst && b'.lastT == t
  {
    hide Flow;
    FlowSplits(b.rate, t1, b.lastT, t);
    FlowGrows(b.rate, t - t1, t - t1);
    FlowGrows(b.rate, t - b.lastT, t - b.lastT);
  }

  /** The same for a bucket that may be without a rate, and so without a bound. */
  ghost predicate Limited(b: Bucket, spent: real, t1: real, now: real) {
    b.rate > 0.0 ==> Within(b, spent, t1) && b.lastT <= now
  }

  /** One cell counts against both buckets at most as much as it should. */
  lemma CellWithin(g: Gate, t1: real, t: real, spent: real, total: real)
    requires t1 <= t && Limited(g.local, spent, t1, t)
    requires g.shared.Some? ==> Limited(g.shared.value, total, t1, t)
    ensures var (g', ok) := CellAdmitted(g, t);
            var n := if ok then 1.0 else 0.0;
            && Limited(g'.local, spent + n, t1, t) && g'.shared.Some? == g.shared.Some?
            && g'.local.rate == g.local.rate && g'.local.burst == g.local.burst
            && (g.shared.Some? ==>
                  && Limited(g'.shared.value, total + n, t1, t)
                  && g'.shared.value.rate == g.shared.value.rate && g'.shared.value.burst == g.shared.value.burst)
  {
    hide Within;
    if g.local.rate > 0.0 {
      AllowedWithin(g.local, spent, t1, t, 1.0);
    }
    if g.shared.Some? && g.shared.value.rate > 0.0 {
      AllowedWithin(g.shared.value, total, t1, t, 1.0);
    }
  }

  lemma {:induction false} CellsWithin(g: Gate, t1: real, t: real, spent: real, total: real, n: nat)
    requires t1 <= t && Limited(g.local, spent, t1, t)
    requires g.shared.Some? ==> Limited(g.shared.value, total, t1, t)
    ensures var (g', k) := Admitted(g, t, n);
            && k <= n
            && Limited(g'.local, spent + k as real, t1, t) && g'.shared.Some? == g.shared.Some?
            && g'.local.rate == g.local.rate && g'.local.burst == g.local.burst
            && (g.shared.Some? ==>
                  && Limited(g'.shared.value, total + k as real, t1, t)
                  && g'.shared.value.rate == g.shared.value.rate && g'.shared.value.burst == g.shared.value.burst)
  {
    hide Limited, CellAdmitted;
    if n > 0 {
      CellsWithin(g, t1, t, spent, total, n - 1);
      var (before, k) := Admitted(g, t, n - 1);
      CellWithin(before, t1, t, spent + k as real, total + k as real);
    }
  }

  /** Times from `t1` on that never go back, and connections that exist. */
  ghost predicate InOrder(offers: seq<Offer>, t1: real, conns: nat) {
    && (forall i :: 0 <= i < |offers| ==> t1 <= offers[i].t && offers[i].conn < conns)
    && (forall i, j :: 0 <= i < j < |offers| ==> offers[i].t <= offers[j].t)
  }

  /** The account of the whole ingress at time `now`. */
  ghost predicate Account(s: Ingress, t1: real, now: real)
    requires |s.locals| == |s.accepted|
  {
    && (forall c :: 0 <= c < |s.locals| ==> Limited(s.locals[c], s.accepted[c] as real, t1, now))
    && (s.shared.Some? ==> Limited(s.shared.value, TotalOf(s.accepted) as real, t1, now))
  }

  lemma {:induction false} TotalOfUpdate(counts: seq<nat>, c: nat, n: nat)
    requires c < |counts|
    ensures TotalOf(counts[c := counts[c] + n]) == TotalOf(counts) + n
  {
    var updated := counts[c := counts[c] + n];
    if c == 0 {
      assert updated[1..] == counts[1..];
    } else {
      TotalOfUpdate(counts[1..], c - 1, n);
      assert updated[1..] == counts[1..][c - 1 := counts[1..][c - 1] + n];
    }
  }

  lemma LimitedLater(b: Bucket, spent: real, t1: real, now: real, later: real)
    requires Limited(b, spent, t1, now) && now <= later
    ensures Limited(b, spent, t1, later)
  {
  }

  ghost predicate SameLimits(s: Ingress, s': Ingress) {
    && |s.locals| == |s'.locals|
    && (forall c :: 0 <= c < |s.locals| ==>
          s.locals[c].rate == s'.locals[c].rate && s.locals[c].burst == s'.locals[c].burst)
    && s.shared.Some? == s'.shared.Some?
    && (s.shared.Some? ==> s.shared.value.rate == s'.shared.value.rate && s.shared.value.burst == s'.shared.value.burst)
  }

  lemma TakeAccounted(s: Ingress, o: Offer, t1: real, now: real)
    requires o.conn < |s.locals| == |s.accepted|
    requires Account(s, t1, now) && t1 <= now <= o.t
    ensures Account(Take(s, o), t1, o.t) && SameLimits(s, Take(s, o))
  {
    hide Limited, Admitted;
    forall c | 0 <= c < |s.locals| ensures Limited(s.locals[c], s.accepted[c] as real, t1, o.t) {
      LimitedLater(s.locals[c], s.accepted[c] as real, t1, now, o.t);
    }
    if s.shared.Some? {
      LimitedLater(s.shared.value, TotalOf(s.accepted) as real, t1, now, o.t);
    }
    var g := Gate(s.locals[o.conn], s.shared);
    CellsWithin(g, t1, o.t, s.accepted[o.conn] as real, TotalOf(s.accepted) as real, o.cells);
    TotalOfUpdate(s.accepted, o.conn, Admitted(g, o.t, o.cells).1);
  }

  lemma {:induction false} AlwaysAccounted(s: Ingress, offers: seq<Offer>, t1: real)
    requires |s.locals| == |s.accepted| && InOrder(offers, t1, |s.locals|) && Account(s, t1, t1)
    ensures Account(Run(s, offers), t1, if offers == [] then t1 else offers[|offers| - 1].t)
    ensures SameLimits(s, Run(s, offers))
  {
    hide Account, Take;
    if offers != [] {
      var before, o := offers[..|offers| - 1], offers[|offers| - 1];
      AlwaysAccounted(s, before, t1);
      TakeAccounted(Run(s, before), o, t1, if before == [] then t1 else before[|before| - 1].t);
    }
  }

  /** A window that starts with nothing counted yet. */
  lemma FirstWindowLimited(s: Ingress, offers: seq<Offer>, t1: real, t2: real)
    requires |s.locals| == |s.accepted| && InOrder(offers, t1, |s.locals|)
    requires Account(s, t1, t1) && TotalOf(s.accepted) == 0
    requires t1 <= t2 && forall i :: 0 <= i < |offers| ==> offers[i].t <= t2
    ensures var r := Run(s, offers);
            && (forall c :: 0 <= c < |s.locals| && s.locals[c].rate > 0.0 ==>
                  r.accepted[c] as real <= s.locals[c].burst + Flow(s.locals[c].rate, t2 - t1))
            && (s.shared.Some? && s.shared.value.rate > 0.0 ==>
                  TotalOf(r.accepted) as real <= s.shared.value.burst + Flow(s.shared.value.rate, t2 - t1))
  {
    hide Run, Limited;
    AlwaysAccounted(s, offers, t1);
    var r := Run(s, offers);
    var now := if offers == [] then t1 else offers[|offers| - 1].t;
    forall c | 0 <= c < |s.locals| && s.locals[c].rate > 0.0
      ensures r.accepted[c] as real <= s.locals[c].burst + Flow(s.locals[c].rate, t2 - t1)
    {
      SpentBounded(r.locals[c], r.accepted[c] as real, t1, now, t2);
    }
    if s.shared.Some? && s.shared.value.rate > 0.0 {
      SpentBounded(r.shared.value, TotalOf(r.accepted) as real, t1, now, t2);
    }
  }

  // ---------------------------------------------------------------- windows inside a run

  /** Every bucket with a rate is filled no higher than its burst and was last used by `now`. */
  ghost predicate Settled(s: Ingress, now: real) {
    && (forall c :: 0 <= c < |s.locals| ==> Filled(s.locals[c], now))
    && (s.shared.Some? ==> Filled(s.shared.value, now))
  }

  ghost predicate Filled(b: Bucket, now: real) {
    b.rate > 0.0 ==> 0.0 <= b.tokens <= b.burst && b.lastT <= now
  }

  function Uncounted(s: Ingress): (r: Ingress)
    requires |s.locals| == |s.accepted|
    ensures |r.locals| == |r.accepted| == |s.locals|
  {
    s.(accepted := seq(|s.accepted|, _ => 0))
  }

  lemma {:induction false} NothingCounted(n: nat)
    ensures TotalOf(seq(n, _ => 0)) == 0
  {
    if n > 0 {
      NothingCounted(n - 1);
      assert seq(n, _ => 0)[1..] == seq(n - 1, _ => 0);
    }
  }

  /** A settled ingress may start a window at any later time. */
  lemma SettledStarts(s: Ingress, now: real, t1: real)
    requires |s.locals| == |s.accepted| && Settled(s, now) && now <= t1
    ensures Account(Uncounted(s), t1, t1) && TotalOf(Uncounted(s).accepted) == 0
  {
    hide Limited;
    NothingCounted(|s.accepted|);
    forall c | 0 <= c < |s.locals| ensures Limited(s.locals[c], 0.0, t1, t1) {
      FilledStarts(s.locals[c], now, t1);
    }
    if s.shared.Some? {
      FilledStarts(s.shared.value, now, t1);
    }
  }

  lemma FilledStarts(b: Bucket, now: real, t1: real)
    requires Filled(b, now) && now <= t1
    ensures Limited(b, 0.0, t1, t1)
  {
    if b.rate > 0.0 {
      WindowStarts(b, t1);
    }
  }

  lemma LimitedFilled(b: Bucket, spent: real, t1: real, now: real)
    requires Limited(b, spent, t1, now)
    ensures Filled(b, now)
  {
  }

  /** A settled ingress stays settled over any run of ordered times. */
  lemma StaysSettled(s: Ingress, offers: seq<Offer>, t0: real)
    requires |s.locals| == |s.accepted| && InOrder(offers, t0, |s.locals|) && Settled(s, t0)
    ensures Settled(Run(s, offers), if offers == [] then t0 else offers[|offers| - 1].t)
    ensures SameLimits(s, Run(s, offers))
  {
    hide Limited, Filled, Run;
    SettledStarts(s, t0, t0);
    AlwaysAccounted(Uncounted(s), offers, t0);
    CountsShift(s, offers);
    var r := Run(Uncounted(s), offers);
    var now := if offers == [] then t0 else offers[|offers| - 1].t;
    forall c | 0 <= c < |r.locals| ensures Filled(r.locals[c], now) {
      LimitedFilled(r.locals[c], r.accepted[c] as real, t0, now);
    }
    if r.shared.Some? {
      LimitedFilled(r.shared.value, TotalOf(r.accepted) as real, t0, now);
    }
  }

  /** Counting from zero changes no verdict: the counts of a run are what it started with and what it
      adds. */
  lemma {:induction false} CountsShift(s: Ingress, offers: seq<Offer>)
    requires |s.locals| == |s.accepted| && forall i :: 0 <= i < |offers| ==> offers[i].conn < |s.locals|
    ensures var r, r0 := Run(s, offers), Run(Uncounted(s), offers);
            && r.locals == r0.locals && r.shared == r0.shared
            && (forall c :: 0 <= c < |s.locals| ==> r.accepted[c] == s.accepted[c] + r0.accepted[c])
            && TotalOf(r.accepted) == TotalOf(s.accepted) + TotalOf(r0.accepted)
  {
    hide Admitted, TotalOf;
    if offers == [] {
      NothingCounted(|s.accepted|);
    } else {
      var before, o := offers[..|offers| - 1], offers[|offers| - 1];
      CountsShift(s, before);
      var r, r0 := Run(s, before), Run(Uncounted(s), before);
      var n := Admitted(Gate(r.locals[o.conn], r.shared), o.t, o.cells).1;
      TotalOfUpdate(r.accepted, o.conn, n);
      TotalOfUpdate(r0.accepted, o.conn, n);
    }
  }

  lemma {:induction false} RunSplits(s: Ingress, pre: seq<Offer>, mid: seq<Offer>)
    requires |s.locals| == |s.accepted| && forall i :: 0 <= i < |pre + mid| ==> (pre + mid)[i].conn < |s.locals|
    ensures forall i :: 0 <= i < |pre| ==> pre[i].conn < |s.locals|
    ensures forall i :: 0 <= i < |mid| ==> mid[i].conn < |s.locals|
    ensures Run(s, pre + mid) == Run(Run(s, pre), mid)
  {
    hide Take;
    var all := pre + mid;
    assert forall i :: 0 <= i < |pre| ==> pre[i] == all[i];
    assert forall i :: 0 <= i < |mid| ==> mid[i] == all[|pre| + i];
    if mid == [] {
      assert all == pre;
    } else {
      var before := mid[..|mid| - 1];
      assert all[..|all| - 1] == pre + before;
      RunSplits(s, pre, before);
    }
  }

  /** Over any window of a run at ordered times, whatever came before it: what the window `mid` adds to
      the cells of a connection is at most its burst plus its rate times the window, and to all
      connections together at most the shared burst plus the shared rate times the window. */
  lemma RateLimited(s: Ingress, pre: seq<Offer>, mid: seq<Offer>, t0: real, t1: real, t2: real)
    requires |s.locals| == |s.accepted| && Settled(s, t0)
    requires InOrder(pre + mid, t0, |s.locals|) && t0 <= t1 <= t2
    requires forall i :: 0 <= i < |pre| ==> pre[i].t <= t1
    requires forall i :: 0 <= i < |mid| ==> t1 <= mid[i].t <= t2
    ensures forall i :: 0 <= i < |pre| ==> pre[i].conn < |s.locals|
    ensures var a, r := Run(s, pre), Run(s, pre + mid);
            && (forall c :: 0 <= c < |s.locals| && s.locals[c].rate > 0.0 ==>
                  r.accepted[c] as real - a.accepted[c] as real <= s.locals[c].burst + Flow(s.locals[c].rate, t2 - t1))
            && (s.shared.Some? && s.shared.value.rate > 0.0 ==>
                  TotalOf(r.accepted) as real - TotalOf(a.accepted) as real
                    <= s.shared.value.burst + Flow(s.shared.value.rate, t2 - t1))
  {
    hide Run, Filled, Flow, TotalOf, Limited;
    RunSplits(s, pre, mid);
    OrderSplits(pre, mid, t0, t1, |s.locals|);
    var a := Run(s, pre);
    StaysSettled(s, pre, t0);
    SettledStarts(a, if pre == [] then t0 else pre[|pre| - 1].t, t1);
    FirstWindowLimited(Uncounted(a), mid, t1, t2);
    CountsShift(a, mid);
  }

  lemma OrderSplits(pre: seq<Offer>, mid: seq<Offer>, t0: real, t1: real, conns: nat)
    requires InOrder(pre + mid, t0, conns) && forall i :: 0 <= i < |mid| ==> t1 <= mid[i].t
    ensures InOrder(pre, t0, conns) && InOrder(mid, t1, conns)
  {
    var all := pre + mid;
    assert forall i :: 0 <= i < |pre| ==> pre[i] == all[i];
    assert forall i :: 0 <= i < |mid| ==> mid[i] == all[|pre| + i];
  }

  lemma SpentBounded(b: Bucket, spent: real, t1: real, now: real, t2: real)
    requires b.rate > 0.0 && Limited(b, spent, t1, now) && t1 <= now <= t2
    ensures spent <= b.burst + Flow(b.rate, t2 - t1)
  {
    hide Flow;
    FlowGrows(b.rate, t2 - t1, t2 - t1);
    if b.lastT >= t1 {
      FlowGrows(b.rate, b.lastT - t1, t2 - t1);
    }
  }

  /** Any window may be looked at: a bucket filled no higher than its burst and last used no later than
      the window starts owes nothing yet. */
  lemma WindowStarts(b: Bucket, t1: real)
    requires 0.0 <= b.tokens <= b.burst && b.lastT <= t1
    ensures Limited(b, 0.0, t1, t1)
  {
    hide Flow;
    FlowNone(b.rate);
  }

  /** If the clock may go back, the bound is lost: four calls within one time unit let three cells
      through a bucket of burst and rate one. */
  lemma BackwardClockOverAdmits()
    ensures var b0 := Bucket(1.0, 1.0, 1.0, 0.0);
            var (b1, ok1) := Allowed(b0, 0.0, 1.0);
            var (b2, ok2) := Allowed(b1, 1.0, 1.0);
            var (b3, ok3) := Allowed(b2, 0.0, 1.0);
            var (b4, ok4) := Allowed(b3, 1.0, 1.0);
            ok1 && ok2 && !ok3 && ok4
  {
    hide Allowed;
    UnitBucket(1.0, 0.0, 0.0);
    UnitBucket(0.0, 0.0, 1.0);
    UnitBucket(0.0, 1.0, 0.0);
    UnitBucket(0.0, 0.0, 1.0);
  }

  /** Exactly when the clock matters: a call at `t` and another at the later of `t` and the last time
      spend and leave no more than the bucket had plus what flowed in, if and only if `t` is not in the
      past, or the bucket is full and the first call asks for more than it can ever hold. */
  lemma RefillHonestIffClockForward(b: Bucket, t: real, n: real, m: real)
    requires b.rate > 0.0 && 0.0 <= b.tokens <= b.burst && n > 0.0 && m > 0.0
    ensures var later := MaxReal(t, b.lastT);
            var (b1, ok1) := Allowed(b, t, n);
            var (b2, ok2) := Allowed(b1, later, m);
            var spent := (if ok1 then n else 0.0) + (if ok2 then m else 0.0);
            (spent + b2.tokens <= b.tokens + Flow(b.rate, later - b.lastT)
        <==> (t >= b.lastT || (b.tokens == b.burst && b.burst < n)))
  {
    hide Flow, Allowed;
    FlowNone(b.rate);
    var b1 := Allowed(b, t, n).0;
    CallSpends(b, t, n);
    CallSpends(b1, MaxReal(t, b.lastT), m);
    if t < b.lastT {
      FlowPositive(b.rate, b.lastT - t);
    } else {
      FlowGrows(b.rate, t - b.lastT, t - b.lastT);
    }
  }

  /** A call refills up to the burst, and what it spends it had. */
  lemma CallSpends(b: Bucket, t: real, n: real)
    requires b.rate > 0.0
    ensures var (b', ok) := Allowed(b, t, n);
            var refilled := MinReal(b.burst, b.tokens + Flow(b.rate, MaxReal(0.0, t - b.lastT)));
            && (ok <==> refilled >= n)
            && b' == b.(tokens := refilled - (if ok then n else 0.0), lastT := t)
  {
    hide Flow;
  }

  lemma FlowNone(rate: real)
    ensures Flow(rate, 0.0) == 0.0
  {
  }

  lemma FlowPositive(rate: real, dt: real)
    requires rate > 0.0 && dt > 0.0
    ensures Flow(rate, dt) > 0.0
  {
  }

  /** A full token is there if it was there before or a time unit has passed. */
  lemma UnitBucket(tokens: real, lastT: real, t: real)
    requires (tokens == 1.0 && lastT == t) || (tokens == 0.0 && t != lastT && 0.0 <= t <= 1.0 && 0.0 <= lastT <= 1.0
                                              && (t == lastT + 1.0 || t == lastT - 1.0))
    ensures Allowed(Bucket(1.0, 1.0, tokens, lastT), t, 1.0)
         == (Bucket(1.0, 1.0, 0.0, t), tokens == 1.0 || t > lastT)
  {
  }
}

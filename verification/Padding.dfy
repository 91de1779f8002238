/** The hard-cap receiver padder: Q slots every round, excess deferred first in, first out; and what
    that does to shape, order, backlog and delay over whole runs. */
module Padding {
  import opened Arithmetic

  datatype DeliverySlot<+T> = Real(item: T) | Dummy

  datatype RoundOutput<+T> = RoundOutput(round: nat, slots: seq<DeliverySlot<T>>, realCount: nat, dummyCount: nat)

  /** An f64 quotient: division by zero gives infinity, or NaN for 0/0. */
  datatype Quotient = Finite(value: real) | Infinite | NotANumber

  function Divided(a: nat, b: nat): Quotient {
    if b > 0 then Finite(a as real / b as real) else if a > 0 then Infinite else NotANumber
  }

  function Min(a: nat, b: nat): nat {
    if a < b then a else b
  }

  /** The items a round releases from a queue, the queue it leaves, and the slots an observer sees. */
  function Released<T>(queue: seq<T>, q: nat): seq<T> {
    queue[..Min(q, |queue|)]
  }

  function Rest<T>(queue: seq<T>, q: nat): seq<T> {
    queue[Min(q, |queue|)..]
  }

  function Slots<T>(queue: seq<T>, q: nat): (r: seq<DeliverySlot<T>>)
    ensures |r| == q
  {
    seq(q, i requires 0 <= i < q => if i < |queue| then Real(queue[i]) else Dummy)
  }

  function CountReal<T>(slots: seq<DeliverySlot<T>>): nat {
    if slots == [] then 0 else CountReal(slots[..|slots| - 1]) + (if slots[|slots| - 1].Real? then 1 else 0)
  }

  lemma {:induction false} CountRealOfSlots<T>(queue: seq<T>, q: nat, n: nat)
    requires n <= q
    ensures CountReal(Slots(queue, q)[..n]) == Min(n, |queue|)
  {
    if n > 0 {
      CountRealOfSlots(queue, q, n - 1);
      assert Slots(queue, q)[..n][..n - 1] == Slots(queue, q)[..n - 1];
    }
  }

  lemma AllSlotsReal<T>(queue: seq<T>, q: nat)
    ensures CountReal(Slots(queue, q)) == |Released(queue, q)| <= q
  {
    CountRealOfSlots(queue, q, q);
    assert Slots(queue, q)[..q] == Slots(queue, q);
  }

  method CountRealSlots<T>(slots: seq<DeliverySlot<T>>) returns (n: nat)
    ensures n == CountReal(slots)
  {
    n := 0;
    for i := 0 to |slots|
      invariant n == CountReal(slots[..i])
    {
      assert slots[..i + 1][..i] == slots[..i];
      if slots[i].Real? {
        n := n + 1;
      }
    }
    assert slots[..|slots|] == slots;
  }

  class HardCapPadder<T> {
    const q: nat
    var pending: seq<T>
    var round: nat
    var deferralSlots: Quotient
    var lastRealCount: nat
    var lastDummyCount: nat

    constructor (q: nat)
      ensures this.q == q && pending == [] && round == 0
      ensures deferralSlots == Finite(0.0) && lastRealCount == 0 && lastDummyCount == 0
    {
      this.q := q;
      pending, round, deferralSlots, lastRealCount, lastDummyCount := [], 0, Finite(0.0), 0, 0;
    }

    method DeliverReal(item: T)
      modifies this`pending
      ensures pending == old(pending) + [item]
    {
      pending := pending + [item];
    }

    /** Q times: pop the oldest pending item, or fill with cover. */
    method TakeSlots() returns (slots: seq<DeliverySlot<T>>)
      modifies this`pending
      ensures slots == Slots(old(pending), q) && pending == Rest(old(pending), q)
    {
      ghost var was, popped: seq<T> := pending, [];
      slots := [];
      for i := 0 to q
        invariant |slots| == i && |popped| <= i && (|popped| == i || pending == [])
        invariant was == popped + pending
        invariant forall j :: 0 <= j < i ==> slots[j] == if j < |popped| then Real(popped[j]) else Dummy
      {
        if pending != [] {
          slots := slots + [Real(pending[0])];
          popped := popped + [pending[0]];
          pending := pending[1..];
        } else {
          slots := slots + [Dummy];
        }
      }
    }

    method RoundTick() returns (out: RoundOutput<T>)
      modifies this
      ensures out == RoundOutput(old(round), Slots(old(pending), q), |Released(old(pending), q)|,
                                 q - |Released(old(pending), q)|)
      ensures pending == Rest(old(pending), q) && round == old(round) + 1
      ensures deferralSlots == Divided(|pending|, q)
      ensures lastRealCount == out.realCount && lastDummyCount == out.dummyCount
    {
      hide *;
      var slots := TakeSlots();
      var realCount := CountRealSlots(slots);
      AllSlotsReal(old(pending), q);
      var dummyCount := q - realCount;

      lastRealCount, lastDummyCount := realCount, dummyCount;
      deferralSlots := Divided(|pending|, q);
      var thisRound := round;
      round := round + 1;
      return RoundOutput(thisRound, slots, realCount, dummyCount);
    }
  }

  // ---------------------------------------------------------------- runs of rounds

  /** `arrivals[i]` is what arrives before round `i`. */
  function PendingAfter<T>(q: nat, arrivals: seq<seq<T>>): seq<T>
    decreases |arrivals|, 1
  {
    if arrivals == [] then [] else Rest(QueueAt(q, arrivals), q)
  }

  /** The queue that the last round of `arrivals` finds. */
  function QueueAt<T>(q: nat, arrivals: seq<seq<T>>): seq<T>
    requires arrivals != []
    decreases |arrivals|, 0
  {
    PendingAfter(q, arrivals[..|arrivals| - 1]) + arrivals[|arrivals| - 1]
  }

  function ReleasedBy<T>(q: nat, arrivals: seq<seq<T>>): seq<T> {
    if arrivals == [] then []
    else ReleasedBy(q, arrivals[..|arrivals| - 1]) + Released(QueueAt(q, arrivals), q)
  }

  function Flatten<T>(arrivals: seq<seq<T>>): seq<T> {
    if arrivals == [] then [] else Flatten(arrivals[..|arrivals| - 1]) + arrivals[|arrivals| - 1]
  }

  /** Conservation, in order: what was released, then what is pending, is what arrived. */
  lemma {:induction false} ReleasedThenPending<T>(q: nat, arrivals: seq<seq<T>>)
    ensures ReleasedBy(q, arrivals) + PendingAfter(q, arrivals) == Flatten(arrivals)
  {
    if arrivals != [] {
      var before := arrivals[..|arrivals| - 1];
      ReleasedThenPending(q, before);
      var queue := QueueAt(q, arrivals);
      assert queue == Released(queue, q) + Rest(queue, q);
      assert ReleasedBy(q, before) + queue == Flatten(before) + arrivals[|arrivals| - 1];
    }
  }

  /** The observer sees the same number of slots every round, whatever arrives. */
  function Shape<T>(q: nat, arrivals: seq<seq<T>>): seq<nat> {
    if arrivals == [] then []
    else Shape(q, arrivals[..|arrivals| - 1]) + [|Slots(QueueAt(q, arrivals), q)|]
  }

  lemma {:induction false} ShapeHidesArrivals<T, U>(q: nat, a: seq<seq<T>>, b: seq<seq<U>>)
    requires |a| == |b|
    ensures Shape(q, a) == Shape(q, b)
  {
    if a != [] {
      ShapeHidesArrivals(q, a[..|a| - 1], b[..|b| - 1]);
    }
  }

  // ---------------------------------------------------------------- backlog

  /** Arrivals in rounds `s`.., over what those rounds can release. */
  function Excess<T>(q: nat, arrivals: seq<seq<T>>, s: nat): int
    requires s <= |arrivals|
  {
    if s == |arrivals| then 0
    else Excess(q, arrivals[..|arrivals| - 1], s) + |arrivals[|arrivals| - 1]| - q
  }

  lemma {:induction false} ExcessIs<T>(q: nat, arrivals: seq<seq<T>>, s: nat)
    requires s <= |arrivals|
    ensures Excess(q, arrivals, s) == |Flatten(arrivals)| - |Flatten(arrivals[..s])| - q * (|arrivals| - s)
  {
    if s == |arrivals| {
      assert arrivals[..s] == arrivals;
    } else {
      ExcessIs(q, arrivals[..|arrivals| - 1], s);
      assert arrivals[..|arrivals| - 1][..s] == arrivals[..s];
      assert q * (|arrivals| - 1 - s) + q == q * (|arrivals| - s);
    }
  }

  /** The backlog is the largest excess over any closing window of rounds. */
  lemma {:induction false} BacklogIsWorstExcess<T>(q: nat, arrivals: seq<seq<T>>) returns (worst: nat)
    ensures forall s :: 0 <= s <= |arrivals| ==> Excess(q, arrivals, s) <= |PendingAfter(q, arrivals)|
    ensures worst <= |arrivals| && Excess(q, arrivals, worst) == |PendingAfter(q, arrivals)|
  {
    if arrivals == [] {
      worst := 0;
    } else {
      var before := arrivals[..|arrivals| - 1];
      worst := BacklogIsWorstExcess(q, before);
      if |QueueAt(q, arrivals)| <= q {
        worst := |arrivals|;
      }
    }
  }

  /** Arrivals never more than `sigma` over the rate in any window keep the backlog at `sigma`. */
  lemma BurstBoundsBacklog<T>(q: nat, arrivals: seq<seq<T>>, sigma: nat)
    requires forall s :: 0 <= s <= |arrivals| ==> Excess(q, arrivals, s) <= sigma
    ensures |PendingAfter(q, arrivals)| <= sigma
  {
    var worst := BacklogIsWorstExcess(q, arrivals);
  }

  // ---------------------------------------------------------------- delay

  /** The queue found by the `k`-th round from one that finds `queue`, if `later[i]` arrives in between. */
  function QueueLater<T>(q: nat, queue: seq<T>, later: seq<seq<T>>, k: nat): seq<T>
    requires k <= |later|
    decreases k
  {
    if k == 0 then queue else QueueLater(q, Rest(queue, q) + later[0], later[1..], k - 1)
  }

  /** An item at position `p` of the queue a round finds leaves in the round `p / q` later, in slot
      `p % q`, whatever arrives meanwhile. */
  lemma {:induction false} ReleasedOnTime<T>(q: nat, queue: seq<T>, later: seq<seq<T>>, p: nat)
    requires q > 0 && p < |queue| && p / q <= |later|
    ensures Slots(QueueLater(q, queue, later, p / q), q)[p % q] == Real(queue[p])
    decreases p
  {
    if p >= q {
      DivStep(p, q);
      var queue' := Rest(queue, q) + later[0];
      assert queue'[p - q] == queue[p];
      ReleasedOnTime(q, queue', later[1..], p - q);
    } else {
      DivUnique(p, q, 0, p);
    }
  }

  /** Looking ahead from a round is running on: the queue found `k` rounds after the last of `arrivals`. */
  lemma {:induction false} QueueLaterIs<T>(q: nat, arrivals: seq<seq<T>>, later: seq<seq<T>>, k: nat)
    requires arrivals != [] && k <= |later|
    ensures QueueLater(q, QueueAt(q, arrivals), later, k) == QueueAt(q, arrivals + later[..k])
    decreases k
  {
    if k == 0 {
      assert arrivals + later[..0] == arrivals;
    } else {
      var next := arrivals + [later[0]];
      assert next[..|next| - 1] == arrivals;
      QueueLaterIs(q, next, later[1..], k - 1);
      assert next + later[1..][..k - 1] == arrivals + later[..k];
    }
  }

  /** Under the same burst bound every item of the queue a round finds is released, and at most
      `sigma / q` rounds later, rounded up: the item at position `p` comes out of the run in the round
      `p / q` after, in slot `p % q`, whatever arrives in between. */
  lemma BurstBoundsDelay<T>(q: nat, arrivals: seq<seq<T>>, sigma: nat, p: nat, later: seq<seq<T>>)
    requires q > 0 && arrivals != []
    requires forall s :: 0 <= s <= |arrivals| ==> Excess(q, arrivals, s) <= sigma
    requires p < |QueueAt(q, arrivals)| && |later| >= (sigma + q - 1) / q
    ensures p / q <= (sigma + q - 1) / q
    ensures Slots(QueueAt(q, arrivals + later[..p / q]), q)[p % q] == Real(QueueAt(q, arrivals)[p])
  {
    hide Slots, QueueLater, Excess;
    BurstBoundsBacklog(q, arrivals, sigma);
    assert p <= sigma + q - 1;
    DivMonotone(p, sigma + q - 1, q);
    ReleasedOnTime(q, QueueAt(q, arrivals), later, p);
    QueueLaterIs(q, arrivals, later, p / q);
  }
}

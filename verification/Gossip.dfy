/** Gossip merge buffers: reports wait until a quorum of distinct reporters (and, in the diverse buffer,
    of organisations) is in, then merge by median. */
module Gossip {
  import opened Arithmetic
  import opened Bytes
  import opened Median

  // ---------------------------------------------------------------- the pending dictionary

  /** An insertion-ordered dictionary from reporter to counts. */
  ghost predicate Distinct(pending: seq<Obs>) {
    forall i, j :: 0 <= i < j < |pending| ==> pending[i].reporter != pending[j].reporter
  }

  /** `pending[reporter] = (ok, fail)`: replaces in place, or appends. */
  function Put(pending: seq<Obs>, o: Obs): (r: seq<Obs>)
    ensures |pending| <= |r| <= |pending| + 1
  {
    if pending == [] then [o]
    else if pending[0].reporter == o.reporter then [o] + pending[1..]
    else [pending[0]] + Put(pending[1..], o)
  }

  lemma {:induction false} PutKeepsDistinct(pending: seq<Obs>, o: Obs)
    requires Distinct(pending)
    ensures Distinct(Put(pending, o)) && o in Put(pending, o)
    ensures forall x :: x in Put(pending, o) ==> x == o || x in pending
  {
    if pending != [] && pending[0].reporter != o.reporter {
      PutKeepsDistinct(pending[1..], o);
      var r := Put(pending[1..], o);
      assert forall i :: 0 <= i < |r| ==> r[i] in r;
      assert Put(pending, o) == [pending[0]] + r;
    }
  }

  lemma {:induction false} PutNew(pending: seq<Obs>, o: Obs)
    requires forall x :: x in pending ==> x.reporter != o.reporter
    ensures Put(pending, o) == pending + [o]
  {
    if pending != [] {
      PutNew(pending[1..], o);
    }
  }

  function HonestCount(obs: seq<Obs>): nat {
    if obs == [] then 0 else HonestCount(obs[..|obs| - 1]) + (if Honest(obs[|obs| - 1]) then 1 else 0)
  }

  /** Every reporter is counted as honest or as an adversary. */
  lemma {:induction false} HonestOrAdversary(obs: seq<Obs>)
    ensures HonestCount(obs) + Adversaries(obs) == |obs|
  {
    if obs != [] {
      HonestOrAdversary(obs[..|obs| - 1]);
    }
  }

  method CountHonest(obs: seq<Obs>) returns (n: nat)
    ensures n == HonestCount(obs)
  {
    n := 0;
    for i := 0 to |obs|
      invariant n == HonestCount(obs[..i])
    {
      assert obs[..i + 1][..i] == obs[..i];
      if obs[i].reporter >= 0 {
        n := n + 1;
      }
    }
    assert obs[..|obs|] == obs;
  }

  // ---------------------------------------------------------------- the basic buffer

  datatype Ingested =
    | Buffered(have: nat)
    | Applied(median: Option<(int, int)>, have: nat, honestInMerge: nat)

  /** What one report does to a buffer with quorum `k`. */
  function IngestedInto(k: nat, pending: seq<Obs>, o: Obs): (seq<Obs>, Ingested) {
    var p := Put(pending, o);
    if |p| < k then (p, Buffered(|p|)) else ([], Applied(MedianOutcomeCounts(p), |p|, HonestCount(p)))
  }

  class GossipMergeBuffer {
    const majorityK: nat
    var pending: seq<Obs>

    constructor (k: int)
      ensures majorityK == (if k < 1 then 1 else k) && pending == []
    {
      majorityK := if k < 1 then 1 else k;
      pending := [];
    }

    method Ingest(o: Obs) returns (r: Ingested)
      modifies this
      ensures (pending, r) == IngestedInto(majorityK, old(pending), o)
    {
      pending := Put(pending, o);
      var have := |pending|;
      if have < majorityK {
        return Buffered(have);
      }
      var observations := pending;
      var honestIn := CountHonest(pending);
      pending := [];
      return Applied(MedianOutcomeCounts(observations), have, honestIn);
    }
  }

  // ---------------------------------------------------------------- runs of the basic buffer

  /** The batches merged over a run of reports, and what is then pending. */
  function Merged(k: nat, reports: seq<Obs>): (seq<seq<Obs>>, seq<Obs>) {
    if reports == [] then ([], [])
    else
      var (batches, pending) := Merged(k, reports[..|reports| - 1]);
      var p := Put(pending, reports[|reports| - 1]);
      if |p| < k then (batches, p) else (batches + [p], [])
  }

  /** One report taken in is one step of the run, and its answer says which. */
  lemma IngestIsRunStep(k: nat, reports: seq<Obs>)
    requires reports != []
    ensures var (batches, p) := Merged(k, reports[..|reports| - 1]);
            var (batches', p') := Merged(k, reports);
            var (q, r) := IngestedInto(k, p, reports[|reports| - 1]);
            var now := Put(p, reports[|reports| - 1]);
            && q == p' && r.have == |now|
            && (r.Applied? <==> |now| >= k)
            && batches' == (if r.Applied? then batches + [now] else batches)
            && (r.Applied? ==> r.honestInMerge == |now| - Adversaries(now))
  {
    hide Put, MedianOutcomeCounts, HonestCount;
    HonestOrAdversary(Put(Merged(k, reports[..|reports| - 1]).1, reports[|reports| - 1]));
  }

  function Adversarial(batches: seq<seq<Obs>>): nat {
    if batches == [] then 0
    else Adversarial(batches[..|batches| - 1]) + (if HonestCount(batches[|batches| - 1]) == 0 then 1 else 0)
  }

  /** Every merge is of exactly `k` distinct reporters, and no report is counted twice. */
  lemma {:induction false} QuorumAccounting(k: nat, reports: seq<Obs>)
    requires k >= 1
    ensures var (batches, pending) := Merged(k, reports);
            && (forall b :: b in batches ==> |b| == k && Distinct(b) && forall x :: x in b ==> x in reports)
            && Distinct(pending) && |pending| < k && (forall x :: x in pending ==> x in reports)
            && k * |batches| + |pending| <= |reports|
  {
    if reports != [] {
      var before, o := reports[..|reports| - 1], reports[|reports| - 1];
      QuorumAccounting(k, before);
      var (batches, pending) := Merged(k, before);
      PutKeepsDistinct(pending, o);
      assert k * (|batches| + 1) == k * |batches| + k;
    }
  }

  /** When the reporters of a run are all distinct, no report is replaced: the merges are exactly one in
      every `k` reports. */
  lemma {:induction false} MergesCounted(k: nat, reports: seq<Obs>)
    requires k >= 1 && Distinct(reports)
    ensures var (batches, pending) := Merged(k, reports);
            k * |batches| + |pending| == |reports| && |pending| < k && |batches| == |reports| / k
  {
    MergesCover(k, reports);
    DivUnique(|reports|, k, |Merged(k, reports).0|, |Merged(k, reports).1|);
  }

  lemma {:induction false} MergesCover(k: nat, reports: seq<Obs>)
    requires k >= 1 && Distinct(reports)
    ensures var (batches, pending) := Merged(k, reports);
            k * |batches| + |pending| == |reports| && |pending| < k
  {
    if reports != [] {
      var before, o := reports[..|reports| - 1], reports[|reports| - 1];
      MergesCover(k, before);
      QuorumAccounting(k, before);
      var (batches, pending) := Merged(k, before);
      PutNew(pending, o);
      assert k * (|batches| + 1) == k * |batches| + k;
    }
  }
}

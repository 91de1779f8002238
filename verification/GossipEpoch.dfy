/** One gossip epoch at a victim, and the buffer that also asks for diverse organisations. */
module GossipEpoch {
  import opened Bytes
  import opened Median
  import opened Gossip

  datatype MergeRecord = MergeRecord(reporters: nat, honestInMerge: nat, medianRate: real, pureAdversarial: bool)

  /** Half-weight merge into the victim's window, each count floored on its own. */
  function HalfWeight(window: (int, int), counts: (int, int)): (int, int) {
    (window.0 + counts.0 / 2, window.1 + counts.1 / 2)
  }

  method ApplyGossipHalfWeight(windowOk: int, windowFail: int, ok: int, fail: int) returns (r: (int, int))
    ensures r == HalfWeight((windowOk, windowFail), (ok, fail))
  {
    var addOk, addFail := ok / 2, fail / 2;
    if addOk == 0 && addFail == 0 {
      return (windowOk, windowFail);
    }
    return (windowOk + addOk, windowFail + addFail);
  }

  function RateOf(counts: (int, int)): real {
    var total := counts.0 + counts.1;
    counts.1 as real / (if total > 1 then total else 1) as real
  }

  /** The record of a merged batch, if its median exists. */
  function RecordOf(batch: seq<Obs>): seq<MergeRecord> {
    match MedianOutcomeCounts(batch)
    case None => []
    case Some(counts) => [MergeRecord(|batch|, HonestCount(batch), RateOf(counts), HonestCount(batch) == 0)]
  }

  function Records(batches: seq<seq<Obs>>): seq<MergeRecord> {
    if batches == [] then [] else Records(batches[..|batches| - 1]) + RecordOf(batches[|batches| - 1])
  }

  function Window(batches: seq<seq<Obs>>, start: (int, int)): (int, int) {
    if batches == [] then start
    else
      var w := Window(batches[..|batches| - 1], start);
      match MedianOutcomeCounts(batches[|batches| - 1])
      case None => w
      case Some(counts) => HalfWeight(w, counts)
  }

  function Pure(records: seq<MergeRecord>): nat {
    if records == [] then 0
    else Pure(records[..|records| - 1]) + (if records[|records| - 1].pureAdversarial then 1 else 0)
  }

  /** The reporter loop of `simulate_victim_epoch`. */
  method ReporterLoop(k: int, reporters: seq<Obs>, localOk: int, localFail: int)
    returns (merges: seq<MergeRecord>, windowOk: int, windowFail: int, pureAdv: nat, honestIncluded: nat)
    ensures var batches := Merged(if k < 1 then 1 else k, reporters).0;
            && merges == Records(batches)
            && (windowOk, windowFail) == Window(batches, (localOk, localFail))
    ensures pureAdv == Pure(merges) && pureAdv + honestIncluded == |merges|
  {
    hide *;
    LoopStarts(if k < 1 then 1 else k, (localOk, localFail));
    var buf := new GossipMergeBuffer(k);
    ghost var start := (localOk, localFail);
    windowOk, windowFail := localOk, localFail;
    merges, pureAdv, honestIncluded := [], 0, 0;
    for i := 0 to |reporters|
      invariant fresh(buf) && buf.majorityK == (if k < 1 then 1 else k)
      invariant buf.pending == Merged(buf.majorityK, reporters[..i]).1
      invariant merges == Records(Merged(buf.majorityK, reporters[..i]).0)
      invariant (windowOk, windowFail) == Window(Merged(buf.majorityK, reporters[..i]).0, start)
      invariant pureAdv == Pure(merges) && pureAdv + honestIncluded == |merges|
    {
      assert reporters[..i + 1][..i] == reporters[..i];
      LoopStep(buf.majorityK, reporters[..i + 1], start);
      IngestMeans(buf.majorityK, buf.pending, reporters[i]);
      var r := buf.Ingest(reporters[i]);
      if r.Buffered? || r.median.None? {
        continue;
      }
      var (mok, mfail) := r.median.value;
      var total := mok + mfail;
      var medianRate := mfail as real / (if total > 1 then total else 1) as real;
      assert medianRate == RateOf((mok, mfail)) by { RateOfIs(mok, mfail); }
      var w := ApplyGossipHalfWeight(windowOk, windowFail, mok, mfail);
      windowOk, windowFail := w.0, w.1;
      var pure := r.honestInMerge == 0;
      if pure {
        pureAdv := pureAdv + 1;
      } else {
        honestIncluded := honestIncluded + 1;
      }
      PureAppend(merges, MergeRecord(r.have, r.honestInMerge, medianRate, pure));
      merges := merges + [MergeRecord(r.have, r.honestInMerge, medianRate, pure)];
    }
    assert reporters[..|reporters|] == reporters;
  }

  lemma LoopStarts(k: nat, start: (int, int))
    ensures Merged(k, []) == ([], []) && Records([]) == [] && Window([], start) == start && Pure([]) == 0
  {
  }

  lemma PureAppend(records: seq<MergeRecord>, r: MergeRecord)
    ensures Pure(records + [r]) == Pure(records) + (if r.pureAdversarial then 1 else 0)
  {
    assert (records + [r])[..|records|] == records;
  }

  /** What the last report of a run adds. */
  lemma LoopStep(k: nat, reports: seq<Obs>, start: (int, int))
    requires reports != []
    ensures var (batches, pending) := Merged(k, reports[..|reports| - 1]);
            var (batches', pending') := Merged(k, reports);
            var p := Put(pending, reports[|reports| - 1]);
            if |p| < k then batches' == batches && pending' == p
            else
              && pending' == []
              && (MedianOutcomeCounts(p).None? ==>
                    Records(batches') == Records(batches) && Window(batches', start) == Window(batches, start))
              && (MedianOutcomeCounts(p).Some? ==>
                    var counts := MedianOutcomeCounts(p).value;
                    && Records(batches')
                       == Records(batches) + [MergeRecord(|p|, HonestCount(p), RateOf(counts), HonestCount(p) == 0)]
                    && Window(batches', start) == HalfWeight(Window(batches, start), counts))
  {
    hide MedianOutcomeCounts, HonestCount, RateOf, HalfWeight, Put;
    var (batches, pending) := Merged(k, reports[..|reports| - 1]);
    var p := Put(pending, reports[|reports| - 1]);
    assert (batches + [p])[..|batches|] == batches;
    assert Records(batches) + [] == Records(batches);
  }

  lemma RateOfIs(ok: int, fail: int)
    ensures RateOf((ok, fail)) == fail as real / (if ok + fail > 1 then ok + fail else 1) as real
  {
  }

  lemma IngestMeans(k: nat, pending: seq<Obs>, o: Obs)
    ensures var (p', r) := IngestedInto(k, pending, o);
            var p := Put(pending, o);
            if |p| < k then p' == p && r == Buffered(|p|)
            else p' == [] && r == Applied(MedianOutcomeCounts(p), |p|, HonestCount(p))
  {
  }

  // ---------------------------------------------------------------- adversaries first

  ghost predicate AllHonest(obs: seq<Obs>) {
    forall i :: 0 <= i < |obs| ==> Honest(obs[i])
  }

  ghost predicate AllAdversarial(obs: seq<Obs>) {
    forall i :: 0 <= i < |obs| ==> !Honest(obs[i])
  }

  lemma {:induction false} NoHonest(obs: seq<Obs>)
    ensures HonestCount(obs) == 0 <==> AllAdversarial(obs)
  {
    if obs != [] {
      NoHonest(obs[..|obs| - 1]);
    }
  }

  /** Among adversaries alone every merge is purely adversarial. */
  lemma {:induction false} AdversariesMergeAlone(k: nat, adv: seq<Obs>)
    requires k >= 1 && AllAdversarial(adv)
    ensures Adversarial(Merged(k, adv).0) == |Merged(k, adv).0|
  {
    if adv != [] {
      AdversariesMergeAlone(k, adv[..|adv| - 1]);
      QuorumAccounting(k, adv);
      var batches := Merged(k, adv).0;
      if batches != [] {
        var last := batches[|batches| - 1];
        assert last in batches;
        forall i | 0 <= i < |last| ensures !Honest(last[i]) {
          assert last[i] in adv;
        }
        NoHonest(last);
      }
    }
  }

  lemma HoldsHonest(p: seq<Obs>, o: Obs)
    requires o in p && Honest(o)
    ensures HonestCount(p) > 0
  {
    hide Honest;
    NoHonest(p);
    var i :| 0 <= i < |p| && p[i] == o;
  }

  /** A merge set off by an honest report holds that report, so it is not purely adversarial. */
  lemma {:induction false} HonestReportsAddNoPureMerge(k: nat, adv: seq<Obs>, honest: seq<Obs>)
    requires k >= 1 && AllHonest(honest)
    ensures Adversarial(Merged(k, adv + honest).0) == Adversarial(Merged(k, adv).0)
  {
    hide Put, HonestCount, Distinct, Honest;
    if honest == [] {
      assert adv + honest == adv;
    } else {
      var before, o := honest[..|honest| - 1], honest[|honest| - 1];
      HonestReportsAddNoPureMerge(k, adv, before);
      assert (adv + honest)[..|adv + honest| - 1] == adv + before;
      QuorumAccounting(k, adv + before);
      var p := Put(Merged(k, adv + before).1, o);
      PutKeepsDistinct(Merged(k, adv + before).1, o);
      HoldsHonest(p, o);
      var batches := Merged(k, adv + before).0;
      assert (batches + [p])[..|batches|] == batches;
    }
  }

  /** When `a` adversaries report before `h` honest reporters, all distinct, exactly `a / k` merges are
      purely adversarial, of `(a + h) / k` in all. */
  lemma PureMergesExactly(k: nat, adv: seq<Obs>, honest: seq<Obs>)
    requires k >= 1 && AllAdversarial(adv) && AllHonest(honest) && Distinct(adv + honest)
    ensures Adversarial(Merged(k, adv + honest).0) == |adv| / k
    ensures |Merged(k, adv + honest).0| == (|adv| + |honest|) / k
  {
    assert Distinct(adv) by {
      assert forall i :: 0 <= i < |adv| ==> (adv + honest)[i] == adv[i];
    }
    MergesCounted(k, adv);
    MergesCounted(k, adv + honest);
    AdversariesMergeAlone(k, adv);
    HonestReportsAddNoPureMerge(k, adv, honest);
  }

  // ---------------------------------------------------------------- a minority moves no merge

  lemma {:induction false} AdversariesBounded(p: seq<Obs>, n: nat)
    requires n <= |p|
    ensures Adversaries(p[..n]) <= Adversaries(p)
    decreases |p|
  {
    if n < |p| {
      AdversariesBounded(p[..|p| - 1], n);
      assert p[..|p| - 1][..n] == p[..n];
    } else {
      assert p[..n] == p;
    }
  }

  lemma {:induction false} AdversariesSplit(a: seq<Obs>, b: seq<Obs>)
    ensures Adversaries(a + b) == Adversaries(a) + Adversaries(b)
  {
    if b == [] {
      assert a + b == a;
    } else {
      AdversariesSplit(a, b[..|b| - 1]);
      assert (a + b)[..|a + b| - 1] == a + b[..|b| - 1];
    }
  }

  lemma {:induction false} PutAdversaries(pending: seq<Obs>, o: Obs)
    ensures Adversaries(Put(pending, o)) <= Adversaries(pending) + (if Honest(o) then 0 else 1)
  {
    AdversariesOne(o);
    if pending != [] {
      AdversariesOne(pending[0]);
      AdversariesSplit([pending[0]], pending[1..]);
      assert pending == [pending[0]] + pending[1..];
      if pending[0].reporter == o.reporter {
        AdversariesSplit([o], pending[1..]);
      } else {
        PutAdversaries(pending[1..], o);
        AdversariesSplit([pending[0]], Put(pending[1..], o));
      }
    }
  }

  lemma AdversariesOne(o: Obs)
    ensures Adversaries([o]) == if Honest(o) then 0 else 1
  {
    assert [o][..0] == [];
  }

  /** No batch holds more adversarial reports than the run. */
  lemma {:induction false} BatchAdversaries(k: nat, reports: seq<Obs>)
    ensures var (batches, pending) := Merged(k, reports);
            && (forall b :: b in batches ==> Adversaries(b) <= Adversaries(reports))
            && Adversaries(pending) <= Adversaries(reports)
  {
    if reports != [] {
      var before, o := reports[..|reports| - 1], reports[|reports| - 1];
      BatchAdversaries(k, before);
      PutAdversaries(Merged(k, before).1, o);
    }
  }

  lemma WithinPasses(reports: seq<Obs>, lo: real, hi: real, b: seq<Obs>)
    requires HonestWithin(reports, lo, hi) && forall x :: x in b ==> x in reports
    ensures HonestWithin(b, lo, hi)
  {
    hide Rate, Honest, Total;
    forall i | 0 <= i < |b| && Honest(b[i]) ensures Total(b[i]) > 0 && lo <= Rate(b[i]) <= hi {
      assert b[i] in reports;
    }
  }

  /** In any order of reports: if fewer than half a quorum of them are adversarial and the honest ones
      have samples, every merge of the epoch is applied, with a median rate between any bounds the
      honest rates respect, and failures within a half of that rate times the total. Adversarial
      reports may be empty; the median discards those. */
  lemma EpochRobust(k: nat, reports: seq<Obs>, lo: real, hi: real, b: seq<Obs>)
    requires k >= 1 && 2 * Adversaries(reports) < k && 0.0 <= lo && hi <= 1.0
    requires HonestWithin(reports, lo, hi)
    requires b in Merged(k, reports).0
    ensures NonEmpty(b) != [] && lo <= MedianOf(Rates(NonEmpty(b))) <= hi && MedianOutcomeCounts(b).Some?
    ensures var (ok, fail) := MedianOutcomeCounts(b).value;
            var total := SampleTotal(NonEmpty(b));
            && ok >= 0 && fail >= 0 && ok + fail == total
            && -0.5 <= fail as real - MedianOf(Rates(NonEmpty(b))) * total as real <= 0.5
  {
    hide *;
    QuorumAccounting(k, reports);
    BatchAdversaries(k, reports);
    WithinPasses(reports, lo, hi, b);
    HonestAreKept(b, lo, hi);
    MergeRobust(b, lo, hi);
  }

  // ---------------------------------------------------------------- what the epoch reports

  /** Half the weight of each count, short of it by less than one sample. */
  lemma HalfWeightIs(window: (int, int), counts: (int, int))
    ensures var w := HalfWeight(window, counts);
            0 <= counts.0 - 2 * (w.0 - window.0) <= 1 && 0 <= counts.1 - 2 * (w.1 - window.1) <= 1
  {
  }

  /** A rate times its samples is the failures. */
  lemma RateTimesSamples(ok: int, fail: int)
    requires ok + fail >= 1
    ensures RateOf((ok, fail)) * (ok + fail) as real == fail as real
  {
  }

  /** All counts merged in a run. */
  function CountsOf(batches: seq<seq<Obs>>): (int, int) {
    if batches == [] then (0, 0)
    else
      var sum := CountsOf(batches[..|batches| - 1]);
      match MedianOutcomeCounts(batches[|batches| - 1])
      case None => sum
      case Some(counts) => (sum.0 + counts.0, sum.1 + counts.1)
  }

  /** The window moves by half of all counts merged, short of it by less than one sample a merge. */
  lemma {:induction false} WindowIsHalf(batches: seq<seq<Obs>>, start: (int, int))
    ensures var w, sum, n := Window(batches, start), CountsOf(batches), |Records(batches)|;
            0 <= sum.0 - 2 * (w.0 - start.0) <= n && 0 <= sum.1 - 2 * (w.1 - start.1) <= n
  {
    hide MedianOutcomeCounts, HalfWeight, HonestCount, RateOf;
    if batches != [] {
      var before, last := batches[..|batches| - 1], batches[|batches| - 1];
      WindowIsHalf(before, start);
      if MedianOutcomeCounts(last).Some? {
        HalfWeightIs(Window(before, start), MedianOutcomeCounts(last).value);
      }
    }
  }

  ghost predicate AllMerge(batches: seq<seq<Obs>>) {
    forall i :: 0 <= i < |batches| ==> MedianOutcomeCounts(batches[i]).Some?
  }

  /** When every batch has a median, each has its record, in order, and the purely adversarial records are
      those of the purely adversarial batches. */
  lemma {:induction false} RecordsOfBatches(batches: seq<seq<Obs>>)
    requires AllMerge(batches)
    ensures |Records(batches)| == |batches| && Pure(Records(batches)) == Adversarial(batches)
    ensures DescribesAll(Records(batches), batches)
  {
    if batches == [] {
      assert DescribesAll([], []);
    } else {
      hide *;
      var before, last := batches[..|batches| - 1], batches[|batches| - 1];
      BatchesStep(batches);
      RecordsOfBatches(before);
      OneRecord(last);
      PureAppend(Records(before), RecordOf(last)[0]);
      DescribesOneMore(Records(before), before, RecordOf(last)[0], last);
      assert RecordOf(last) == [RecordOf(last)[0]];
    }
  }

  /** What the last batch adds to a run's records and counts. */
  lemma BatchesStep(batches: seq<seq<Obs>>)
    requires batches != [] && AllMerge(batches)
    ensures var before, last := batches[..|batches| - 1], batches[|batches| - 1];
            && batches == before + [last] && AllMerge(before) && MedianOutcomeCounts(last).Some?
            && Records(batches) == Records(before) + RecordOf(last)
            && Adversarial(batches) == Adversarial(before) + (if HonestCount(last) == 0 then 1 else 0)
  {
    hide MedianOutcomeCounts, RecordOf, HonestCount;
    var before := batches[..|batches| - 1];
    assert forall i :: 0 <= i < |before| ==> before[i] == batches[i];
  }

  ghost predicate DescribesAll(records: seq<MergeRecord>, batches: seq<seq<Obs>>) {
    |records| == |batches| && forall i :: 0 <= i < |batches| ==> Describes(records[i], batches[i])
  }

  lemma DescribesOneMore(records: seq<MergeRecord>, batches: seq<seq<Obs>>, record: MergeRecord, batch: seq<Obs>)
    requires DescribesAll(records, batches) && Describes(record, batch)
    ensures DescribesAll(records + [record], batches + [batch])
  {
    hide Describes;
  }

  lemma DescribesEach(records: seq<MergeRecord>, batches: seq<seq<Obs>>, i: nat)
    requires DescribesAll(records, batches) && i < |batches|
    ensures Describes(records[i], batches[i])
  {
  }

  /** What a record says of its batch. */
  ghost predicate Describes(r: MergeRecord, b: seq<Obs>) {
    && MedianOutcomeCounts(b).Some?
    && r.reporters == |b| && r.honestInMerge == |b| - Adversaries(b)
    && (r.pureAdversarial <==> r.honestInMerge == 0)
    && r.medianRate == RateOf(MedianOutcomeCounts(b).value)
  }

  lemma OneRecord(b: seq<Obs>)
    requires MedianOutcomeCounts(b).Some?
    ensures |RecordOf(b)| == 1 && Describes(RecordOf(b)[0], b)
    ensures RecordOf(b)[0].pureAdversarial <==> HonestCount(b) == 0
  {
    hide MedianOutcomeCounts, RateOf, HonestCount, Adversaries;
    HonestOrAdversary(b);
  }

  /** With a small minority of adversaries, in any order, the epoch records every merge, each with an honest
      majority and a rate whose failures are within a half of the median rate, and that within any bounds
      the honest rates respect. */
  lemma EpochRecords(k: nat, reports: seq<Obs>, lo: real, hi: real, i: nat)
    requires k >= 1 && 2 * Adversaries(reports) < k && 0.0 <= lo && hi <= 1.0
    requires HonestWithin(reports, lo, hi)
    requires i < |Merged(k, reports).0|
    ensures var batches := Merged(k, reports).0;
            && |Records(batches)| == |batches| && Pure(Records(batches)) == 0
            && Honestly(k, Records(batches)[i], batches[i], lo, hi)
  {
    hide *;
    var batches := Merged(k, reports).0;
    QuorumAccounting(k, reports);
    BatchAdversaries(k, reports);
    AllBatchesMerge(k, reports, lo, hi);
    RecordsOfBatches(batches);
    NoPureBatch(k, batches);
    assert batches[i] in batches;
    EpochRobust(k, reports, lo, hi, batches[i]);
    DescribesEach(Records(batches), batches, i);
    RecordIsHonest(k, Records(batches)[i], batches[i], lo, hi);
  }

  /** A merge of `k` reports with an honest majority, recorded at a rate whose failures are within a half of
      the median's, which is within the bounds. */
  ghost predicate Honestly(k: nat, r: MergeRecord, b: seq<Obs>, lo: real, hi: real) {
    && r.reporters == k && 2 * r.honestInMerge > k && !r.pureAdversarial
    && NonEmpty(b) != [] && lo <= MedianOf(Rates(NonEmpty(b))) <= hi
    && -0.5 <= (r.medianRate - MedianOf(Rates(NonEmpty(b)))) * SampleTotal(NonEmpty(b)) as real <= 0.5
  }

  lemma RecordIsHonest(k: nat, r: MergeRecord, b: seq<Obs>, lo: real, hi: real)
    requires Describes(r, b) && |b| == k && 2 * Adversaries(b) < k
    requires NonEmpty(b) != [] && lo <= MedianOf(Rates(NonEmpty(b))) <= hi
    requires var (ok, fail) := MedianOutcomeCounts(b).value;
             && ok + fail == SampleTotal(NonEmpty(b))
             && -0.5 <= fail as real - MedianOf(Rates(NonEmpty(b))) * SampleTotal(NonEmpty(b)) as real <= 0.5
    ensures Honestly(k, r, b, lo, hi)
  {
    hide MedianOutcomeCounts, RateOf, MedianOf, Rates, NonEmpty, Adversaries;
    RecordRate(b, r);
  }

  lemma AllBatchesMerge(k: nat, reports: seq<Obs>, lo: real, hi: real)
    requires k >= 1 && 2 * Adversaries(reports) < k && 0.0 <= lo && hi <= 1.0
    requires HonestWithin(reports, lo, hi)
    ensures AllMerge(Merged(k, reports).0)
  {
    hide Merged, MedianOutcomeCounts, HonestWithin, Adversaries, MedianOf, Rates, NonEmpty, SampleTotal;
    var batches := Merged(k, reports).0;
    forall i | 0 <= i < |batches| ensures MedianOutcomeCounts(batches[i]).Some? {
      assert batches[i] in batches;
      EpochRobust(k, reports, lo, hi, batches[i]);
    }
  }

  lemma {:induction false} NoPureBatch(k: nat, batches: seq<seq<Obs>>)
    requires k >= 1 && forall b :: b in batches ==> |b| == k && 2 * Adversaries(b) < k
    ensures Adversarial(batches) == 0
  {
    hide HonestCount, Adversaries;
    if batches != [] {
      assert batches[|batches| - 1] in batches;
      NoPureBatch(k, batches[..|batches| - 1]);
      HonestOrAdversary(batches[|batches| - 1]);
    }
  }

  lemma RecordRate(b: seq<Obs>, r: MergeRecord)
    requires NonEmpty(b) != [] && MedianOutcomeCounts(b).Some? && r.medianRate == RateOf(MedianOutcomeCounts(b).value)
    requires var (ok, fail) := MedianOutcomeCounts(b).value;
             && ok + fail == SampleTotal(NonEmpty(b))
             && -0.5 <= fail as real - MedianOf(Rates(NonEmpty(b))) * SampleTotal(NonEmpty(b)) as real <= 0.5
    ensures -0.5 <= (r.medianRate - MedianOf(Rates(NonEmpty(b)))) * SampleTotal(NonEmpty(b)) as real <= 0.5
  {
    hide MedianOutcomeCounts, RateOf, MedianOf, Rates, NonEmpty;
    var (ok, fail) := MedianOutcomeCounts(b).value;
    RateTimesSamples(ok, fail);
    Distribute(r.medianRate, MedianOf(Rates(NonEmpty(b))), SampleTotal(NonEmpty(b)) as real);
  }

  lemma Distribute(a: real, b: real, t: real)
    ensures (a - b) * t == a * t - b * t
  {
  }
}

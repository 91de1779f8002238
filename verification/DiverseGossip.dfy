/** The diverse gossip buffer: a quorum of reporters and of organisations before any merge. */
module DiverseGossip {
  import opened Bytes
  import opened Median
  import opened Gossip
  import opened GossipEpoch

  datatype Ingested =
    | Buffered(have: nat, orgs: nat)
    | WaitingDiversity(have: nat, orgs: nat)
    | Applied(median: Option<(int, int)>, have: nat, honestInMerge: nat, orgs: nat)

  datatype ReporterId = ReporterId(id: int)

  /** The two dictionaries of the buffer, always keyed alike. */
  datatype Pending = Pending(reports: seq<Obs>, orgOf: map<ReporterId, nat>)

  const Nothing := Pending([], map[])

  function Noted(p: Pending, o: Obs, org: nat): Pending {
    Pending(Put(p.reports, o), p.orgOf[ReporterId(o.reporter) := org])
  }

  function Orgs(p: Pending): nat {
    |p.orgOf.Values|
  }

  function DiverselyIngested(k: nat, minOrgs: nat, p: Pending, o: Obs, org: nat): (Pending, Ingested) {
    var n := Noted(p, o, org);
    if |n.reports| < k then (n, Ingested.Buffered(|n.reports|, Orgs(n)))
    else if Orgs(n) < minOrgs then (n, WaitingDiversity(|n.reports|, Orgs(n)))
    else (Nothing, Ingested.Applied(MedianOutcomeCounts(n.reports), |n.reports|, HonestCount(n.reports), Orgs(n)))
  }

  class DiverseGossipMergeBuffer {
    const majorityK: nat
    const minOrgs: nat
    var pending: seq<Obs>
    var pendingOrg: map<ReporterId, nat>

    constructor (k: int, orgs: int)
      ensures majorityK == (if k < 1 then 1 else k) && minOrgs == (if orgs < 1 then 1 else orgs)
      ensures Pending(pending, pendingOrg) == Nothing
    {
      majorityK, minOrgs := if k < 1 then 1 else k, if orgs < 1 then 1 else orgs;
      pending, pendingOrg := [], map[];
    }

    method Ingest(o: Obs, org: nat) returns (r: Ingested)
      modifies this
      ensures (Pending(pending, pendingOrg), r)
           == DiverselyIngested(majorityK, minOrgs, old(Pending(pending, pendingOrg)), o, org)
    {
      pending := Put(pending, o);
      pendingOrg := pendingOrg[ReporterId(o.reporter) := org];
      var have, orgs := |pending|, |pendingOrg.Values|;
      if have < majorityK {
        return Ingested.Buffered(have, orgs);
      }
      if orgs < minOrgs {
        return WaitingDiversity(have, orgs);
      }
      var observations := pending;
      var honestIn := CountHonest(pending);
      pending, pendingOrg := [], map[];
      return Ingested.Applied(MedianOutcomeCounts(observations), have, honestIn, orgs);
    }
  }

  // ---------------------------------------------------------------- whole runs

  datatype Report = Report(obs: Obs, org: nat)

  /** The batches merged over a run, with their organisations, and what is then pending. */
  function DiverselyMerged(k: nat, minOrgs: nat, reports: seq<Report>): (seq<Pending>, Pending) {
    if reports == [] then ([], Nothing)
    else
      var (batches, p) := DiverselyMerged(k, minOrgs, reports[..|reports| - 1]);
      var last := reports[|reports| - 1];
      var n := Noted(p, last.obs, last.org);
      if |n.reports| < k || Orgs(n) < minOrgs then (batches, n) else (batches + [n], Nothing)
  }

  /** One report taken in is one step of the run: the buffer holds what is then pending, and answers
      that it merged exactly when the run has one batch more, which is the pending reports with this one. */
  lemma IngestIsRunStep(k: nat, minOrgs: nat, reports: seq<Report>)
    requires reports != []
    ensures var (batches, p) := DiverselyMerged(k, minOrgs, reports[..|reports| - 1]);
            var (batches', p') := DiverselyMerged(k, minOrgs, reports);
            var last := reports[|reports| - 1];
            var (q, r) := DiverselyIngested(k, minOrgs, p, last.obs, last.org);
            && q == p'
            && (r.Applied? ==> batches' == batches + [Noted(p, last.obs, last.org)])
            && (!r.Applied? ==> batches' == batches && p' == Noted(p, last.obs, last.org))
  {
    hide Noted, Orgs, MedianOutcomeCounts, HonestCount;
  }

  /** A merge is answered exactly when both quorums are there, and the answer counts them. */
  lemma AppliedIffQuorate(k: nat, minOrgs: nat, p: Pending, o: Obs, org: nat)
    ensures var n := Noted(p, o, org);
            var (q, r) := DiverselyIngested(k, minOrgs, p, o, org);
            && (r.Applied? <==> |n.reports| >= k && |n.orgOf.Values| >= minOrgs)
            && (r.WaitingDiversity? <==> |n.reports| >= k && |n.orgOf.Values| < minOrgs)
            && r.have == |n.reports| && r.orgs == |n.orgOf.Values|
            && (r.Applied? ==> q == Nothing && r.have >= k && r.orgs >= minOrgs)
  {
    hide Noted, MedianOutcomeCounts, HonestCount;
  }

  /** Every report of a run, one after the other: the answers merge exactly the run's batches. */
  method IngestAll(k: int, orgs: int, reports: seq<Report>)
    returns (buffer: DiverseGossipMergeBuffer, merges: seq<Ingested>)
    ensures fresh(buffer)
    ensures var (batches, p) := DiverselyMerged(if k < 1 then 1 else k, if orgs < 1 then 1 else orgs, reports);
            && Pending(buffer.pending, buffer.pendingOrg) == p
            && |merges| == |batches|
            && forall i :: 0 <= i < |merges| ==>
                 merges[i] == Ingested.Applied(MedianOutcomeCounts(batches[i].reports), |batches[i].reports|,
                                               HonestCount(batches[i].reports), Orgs(batches[i]))
  {
    hide Noted, Orgs, MedianOutcomeCounts, HonestCount;
    buffer := new DiverseGossipMergeBuffer(k, orgs);
    merges := [];
    for i := 0 to |reports|
      invariant fresh(buffer) && buffer.majorityK == (if k < 1 then 1 else k)
      invariant buffer.minOrgs == (if orgs < 1 then 1 else orgs)
      invariant Pending(buffer.pending, buffer.pendingOrg)
             == DiverselyMerged(buffer.majorityK, buffer.minOrgs, reports[..i]).1
      invariant |merges| == |DiverselyMerged(buffer.majorityK, buffer.minOrgs, reports[..i]).0|
      invariant forall j :: 0 <= j < |merges| ==>
                  var b := DiverselyMerged(buffer.majorityK, buffer.minOrgs, reports[..i]).0[j];
                  merges[j] == Ingested.Applied(MedianOutcomeCounts(b.reports), |b.reports|,
                                                HonestCount(b.reports), Orgs(b))
    {
      assert reports[..i + 1][..i] == reports[..i];
      IngestIsRunStep(buffer.majorityK, buffer.minOrgs, reports[..i + 1]);
      var r := buffer.Ingest(reports[i].obs, reports[i].org);
      if r.Applied? {
        merges := merges + [r];
      }
    }
    assert reports[..|reports|] == reports;
  }

  ghost predicate KeyedAlike(p: Pending) {
    && Distinct(p.reports)
    && (forall x :: x in p.reports ==> ReporterId(x.reporter) in p.orgOf)
    && (forall r :: r in p.orgOf ==> exists x :: x in p.reports && x.reporter == r.id)
  }

  /** At least `k` distinct reporters, and at least `minOrgs` organisations between them. */
  ghost predicate Quorate(k: nat, minOrgs: nat, b: Pending) {
    KeyedAlike(b) && |b.reports| >= k && Orgs(b) >= minOrgs
  }

  /** Every merge is quorate. */
  lemma {:induction false} MergesAreQuorate(k: nat, minOrgs: nat, reports: seq<Report>)
    ensures KeyedAlike(DiverselyMerged(k, minOrgs, reports).1)
    ensures forall b :: b in DiverselyMerged(k, minOrgs, reports).0 ==> Quorate(k, minOrgs, b)
  {
    hide KeyedAlike, Noted, Orgs, Quorate;
    NothingKeyedAlike();
    if reports != [] {
      var before, last := reports[..|reports| - 1], reports[|reports| - 1];
      MergesAreQuorate(k, minOrgs, before);
      var p := DiverselyMerged(k, minOrgs, before).1;
      NotedKeyedAlike(p, last.obs, last.org);
      IsQuorate(k, minOrgs, Noted(p, last.obs, last.org));
    }
  }

  /** No report is counted in two merges: `k` to a merge, and the pending ones, are within the reports
      taken in. */
  lemma {:induction false} DiverseQuorumAccounting(k: nat, minOrgs: nat, reports: seq<Report>)
    ensures var (batches, p) := DiverselyMerged(k, minOrgs, reports);
            k * |batches| + |p.reports| <= |reports|
  {
    hide Put, Orgs;
    if reports != [] {
      DiverseQuorumAccounting(k, minOrgs, reports[..|reports| - 1]);
      var batches := DiverselyMerged(k, minOrgs, reports[..|reports| - 1]).0;
      assert k * (|batches| + 1) == k * |batches| + k;
    }
  }

  lemma IsQuorate(k: nat, minOrgs: nat, b: Pending)
    ensures KeyedAlike(b) && |b.reports| >= k && Orgs(b) >= minOrgs ==> Quorate(k, minOrgs, b)
  {
  }

  lemma NothingKeyedAlike()
    ensures KeyedAlike(Nothing)
  {
  }

  lemma NotedKeyedAlike(p: Pending, o: Obs, org: nat)
    requires KeyedAlike(p)
    ensures KeyedAlike(Noted(p, o, org)) && |Noted(p, o, org).reports| <= |p.reports| + 1
  {
    PutKeepsDistinct(p.reports, o);
    forall x | x in p.reports ensures x.reporter == o.reporter || x in Put(p.reports, o) {
      if x.reporter != o.reporter {
        PutKeepsOthers(p.reports, o, x);
      }
    }
  }

  lemma {:induction false} PutKeepsOthers(pending: seq<Obs>, o: Obs, x: Obs)
    requires x in pending && x.reporter != o.reporter
    ensures x in Put(pending, o)
  {
    if pending[0].reporter != o.reporter && x != pending[0] {
      PutKeepsOthers(pending[1..], o, x);
    }
  }

  /** The organisation of every adversary noted. */
  ghost predicate AdversariesIn(p: Pending, org: nat) {
    forall r :: r in p.orgOf && r.id < 0 ==> p.orgOf[r] == org
  }

  lemma {:induction false} AdversaryOrgs(k: nat, minOrgs: nat, reports: seq<Report>, org: nat)
    requires forall i :: 0 <= i < |reports| && !Honest(reports[i].obs) ==> reports[i].org == org
    ensures AdversariesIn(DiverselyMerged(k, minOrgs, reports).1, org)
    ensures forall b :: b in DiverselyMerged(k, minOrgs, reports).0 ==> AdversariesIn(b, org)
  {
    if reports != [] {
      AdversaryOrgs(k, minOrgs, reports[..|reports| - 1], org);
    }
  }

  /** Adversaries that all sit in one organisation never merge alone, in any order of reports. */
  lemma ColludersNeverMergeAlone(k: nat, minOrgs: nat, reports: seq<Report>, org: nat, b: Pending)
    requires minOrgs >= 2
    requires forall i :: 0 <= i < |reports| && !Honest(reports[i].obs) ==> reports[i].org == org
    requires b in DiverselyMerged(k, minOrgs, reports).0
    ensures HonestCount(b.reports) > 0
  {
    hide DiverselyMerged;
    MergesAreQuorate(k, minOrgs, reports);
    AdversaryOrgs(k, minOrgs, reports, org);
    NoHonest(b.reports);
    if AllAdversarial(b.reports) {
      forall r | r in b.orgOf ensures b.orgOf[r] == org {
        var x :| x in b.reports && x.reporter == r.id;
      }
      OneValue(b.orgOf, org);
    }
  }

  lemma OneValue(m: map<ReporterId, nat>, v: nat)
    requires forall r :: r in m ==> m[r] == v
    ensures |m.Values| <= 1
  {
    if v in m.Values {
      assert m.Values == {v};
    } else {
      assert m.Values == {};
    }
  }

  /** Reporters all in one organisation never cause a merge. */
  lemma {:induction false} OneOrgNeverMerges(k: nat, minOrgs: nat, reports: seq<Report>, org: nat)
    requires minOrgs >= 2
    requires forall i :: 0 <= i < |reports| ==> reports[i].org == org
    ensures DiverselyMerged(k, minOrgs, reports).0 == []
    ensures forall r :: r in DiverselyMerged(k, minOrgs, reports).1.orgOf ==>
              DiverselyMerged(k, minOrgs, reports).1.orgOf[r] == org
  {
    if reports != [] {
      var before, last := reports[..|reports| - 1], reports[|reports| - 1];
      OneOrgNeverMerges(k, minOrgs, before, org);
      OneValue(Noted(DiverselyMerged(k, minOrgs, before).1, last.obs, last.org).orgOf, org);
    }
  }

  /** An honest reporter's organisation is dealt in turn, so every one of them gets its share. */
  lemma HonestOrgsSpread(nOrgs: int, org: nat)
    requires 1 <= org < nOrgs
    ensures HonestOrg(org - 1, nOrgs) == org
  {
  }

  /** Two honest reporters share an organisation exactly when their numbers are a whole number of rounds
      apart. */
  lemma SameHonestOrgIff(nOrgs: int, i: nat, j: nat)
    requires nOrgs >= 2
    ensures HonestOrg(i, nOrgs) == HonestOrg(j, nOrgs) <==> i % (nOrgs - 1) == j % (nOrgs - 1)
  {
  }

  /** Honest reporters are dealt round-robin over the organisations from 1 up, at least one. */
  function HonestOrg(id: nat, nOrgs: int): (org: nat)
    ensures org >= 1 && (nOrgs >= 2 ==> org < nOrgs)
  {
    1 + id % (if nOrgs < 2 then 1 else nOrgs - 1)
  }

  /** A draw from `0..n`: the next of the given numbers, which may be any. */
  function OrgDraw(draws: seq<nat>, i: nat, n: nat): (org: nat)
    requires n > 0
    ensures org < n
  {
    (if i < |draws| then draws[i] else 0) % n
  }

  /** The organisation of a reporter: colluding adversaries share number 0, which no honest reporter is
      in; without collusion, or without adversaries, every reporter draws one. */
  function OrgFor(id: int, adv: nat, nOrgs: int, collude: bool, draws: seq<nat>): (org: nat)
    requires 0 <= adv + id
    ensures collude && adv > 0 ==> (org == 0 <==> id < 0)
    ensures nOrgs >= 2 ==> org < nOrgs
  {
    if collude && adv > 0 then if id < 0 then 0 else HonestOrg(id, nOrgs)
    else OrgDraw(draws, if id < 0 then -id - 1 else adv + id, if nOrgs < 1 then 1 else nOrgs)
  }

  /** Without collusion each reporter takes a draw of its own, adversaries first. */
  lemma EveryReporterDraws(adv: nat, nOrgs: int, draws: seq<nat>, i: int)
    requires 0 <= i < |draws| && draws[i] < nOrgs
    ensures OrgFor(if i < adv then -i - 1 else i - adv, adv, nOrgs, false, draws) == draws[i]
  {
  }

  /** `assign_org_ids`, with the numbers its generator draws. */
  method AssignOrgIds(nNeighbors: int, advCount: int, nOrgs: int, collude: bool, draws: seq<nat>)
    returns (orgOf: map<ReporterId, nat>)
    ensures var n := if nNeighbors < 1 then 1 else nNeighbors;
            var adv := if advCount < 0 then 0 else if advCount > n then n else advCount;
            && (forall r :: r in orgOf <==> -adv <= r.id < n - adv)
            && forall r :: r in orgOf ==> orgOf[r] == OrgFor(r.id, adv, nOrgs, collude, draws)
  {
    hide HonestOrg, OrgDraw;
    var n := if nNeighbors < 1 then 1 else nNeighbors;
    var adv := if advCount < 0 then 0 else if advCount > n then n else advCount;
    var orgs := if nOrgs < 1 then 1 else nOrgs;
    orgOf := map[];
    for i := 0 to adv
      invariant forall r :: r in orgOf <==> -i <= r.id < 0
      invariant forall r :: r in orgOf ==> orgOf[r] == OrgFor(r.id, adv, nOrgs, collude, draws)
    {
      var org := if collude && adv > 0 then 0 else OrgDraw(draws, i, orgs);
      orgOf := orgOf[ReporterId(-(i + 1)) := org];
    }
    for i := 0 to n - adv
      invariant forall r :: r in orgOf <==> -adv <= r.id < i
      invariant forall r :: r in orgOf ==> orgOf[r] == OrgFor(r.id, adv, nOrgs, collude, draws)
    {
      var org := if collude && adv > 0 then HonestOrg(i, nOrgs) else OrgDraw(draws, adv + i, orgs);
      orgOf := orgOf[ReporterId(i) := org];
    }
  }
}

/** Any number of registries exchanging spends by merge and by export file: what one of them knows is
    exactly what has reached it, so a nullifier is accepted twice only by causally concurrent spends. */
module Causality {
  import opened Nullifiers

  /** Events of the whole system, in time order; `site` numbers a registry, and an import names the
      export event whose file it reads. */
  datatype Event =
    | Spend(site: nat, epoch: Epoch, nullifier: Nullifier)
    | Merge(site: nat, other: nat)
    | Export(site: nat)
    | MergeExport(site: nat, file: nat)

  function KeyOf(e: Event): Key
    requires e.Spend?
  {
    (e.epoch, e.nullifier)
  }

  /** What registry `r` holds after the first `t` events. */
  function Contents(evs: seq<Event>, t: nat, r: nat): set<Key>
    requires t <= |evs|
    decreases t
  {
    if t == 0 then {}
    else
      var before, e := Contents(evs, t - 1, r), evs[t - 1];
      if e.site != r then before
      else match e
        case Spend(_, _, _) => before + {KeyOf(e)}
        case Merge(_, other) => before + Contents(evs, t - 1, other)
        case Export(_) => before
        case MergeExport(_, file) =>
          if file < t - 1 && evs[file].Export? then before + Contents(evs, file, evs[file].site) else before
  }

  /** Whether the spend at `j` is accepted. */
  predicate Accepted(evs: seq<Event>, j: nat)
    requires j < |evs| && evs[j].Spend?
  {
    KeyOf(evs[j]) !in Contents(evs, j, evs[j].site)
  }

  // ---------------------------------------------------------------- happens-before

  /** `i` directly precedes `j`: same registry, or its registry is merged from at `j`, or it wrote the
      file that `j` reads. */
  predicate Edge(evs: seq<Event>, i: nat, j: nat)
    requires i < j < |evs|
  {
    || evs[i].site == evs[j].site
    || (evs[j].Merge? && evs[i].site == evs[j].other)
    || (evs[j].MergeExport? && i == evs[j].file && evs[i].Export?)
  }

  /** The transitive closure: `i` is in the causal past of `j`. */
  ghost predicate InPast(evs: seq<Event>, i: nat, j: nat)
    requires j < |evs|
    decreases j
  {
    i < j && (Edge(evs, i, j) || exists k :: i < k < j && InPast(evs, i, k) && Edge(evs, k, j))
  }

  /** Event `i` has reached registry `r` before time `t`. */
  ghost predicate Reaches(evs: seq<Event>, i: nat, r: nat, t: nat)
    requires t <= |evs|
  {
    exists k :: 0 <= k < t && evs[k].site == r && (i == k || InPast(evs, i, k))
  }

  /** Some spend of `key` has reached registry `r` before time `t`. */
  ghost predicate Known(evs: seq<Event>, key: Key, r: nat, t: nat)
    requires t <= |evs|
  {
    exists i :: 0 <= i < t && evs[i].Spend? && KeyOf(evs[i]) == key && Reaches(evs, i, r, t)
  }

  /** What event `t` adds to registry `r`: all that had reached the registries it draws on. */
  ghost predicate Brought(evs: seq<Event>, i: nat, r: nat, t: nat)
    requires t < |evs|
  {
    var e := evs[t];
    e.site == r
    && ((e.Merge? && Reaches(evs, i, e.other, t))
        || (e.MergeExport? && e.file < t && evs[e.file].Export? && Reaches(evs, i, evs[e.file].site, e.file)))
  }

  /** One event brings to its own registry what had reached the registries it draws on. */
  lemma ReachesStep(evs: seq<Event>, i: nat, r: nat, t: nat)
    requires t < |evs| && i < t && evs[i].Spend?
    ensures Reaches(evs, i, r, t + 1) <==> Reaches(evs, i, r, t) || Brought(evs, i, r, t)
  {
    var e := evs[t];
    if Reaches(evs, i, r, t + 1) && !Reaches(evs, i, r, t) {
      LastHop(evs, i, t);
    }
    if e.site == r && e.Merge? && Reaches(evs, i, e.other, t) {
      var k :| 0 <= k < t && evs[k].site == e.other && (i == k || InPast(evs, i, k));
      assert Edge(evs, k, t) && InPast(evs, i, t);
    }
    if e.site == r && e.MergeExport? && e.file < t && evs[e.file].Export? && Reaches(evs, i, evs[e.file].site, e.file) {
      var k :| 0 <= k < e.file && evs[k].site == evs[e.file].site && (i == k || InPast(evs, i, k));
      assert Edge(evs, k, e.file) && InPast(evs, i, e.file);
      assert Edge(evs, e.file, t) && InPast(evs, i, t);
    }
  }

  /** How an event gets into the past of the event at `t`. */
  lemma LastHop(evs: seq<Event>, i: nat, t: nat)
    requires t < |evs| && i < t && evs[i].Spend? && InPast(evs, i, t)
    ensures var e := evs[t];
            || Reaches(evs, i, e.site, t)
            || (e.Merge? && Reaches(evs, i, e.other, t))
            || (e.MergeExport? && e.file < t && evs[e.file].Export? && Reaches(evs, i, evs[e.file].site, e.file))
  {
    if !Edge(evs, i, t) {
      var k :| i < k < t && InPast(evs, i, k) && Edge(evs, k, t);
      var e := evs[t];
      if e.MergeExport? && k == e.file && evs[k].Export? && evs[k].site != e.site {
        LastHop(evs, i, k);
      }
    }
  }

  /** A registry holds exactly the keys whose spends have reached it. */
  lemma {:induction false} ContentsAreWhatReached(evs: seq<Event>, t: nat, r: nat, key: Key)
    requires t <= |evs|
    ensures key in Contents(evs, t, r) <==> Known(evs, key, r, t)
    decreases t
  {
    if t > 0 {
      var e := evs[t - 1];
      ContentsAreWhatReached(evs, t - 1, r, key);
      if e.Merge? {
        ContentsAreWhatReached(evs, t - 1, e.other, key);
      } else if e.MergeExport? && e.file < t - 1 && evs[e.file].Export? {
        ContentsAreWhatReached(evs, e.file, evs[e.file].site, key);
      }
      KnownStep(evs, key, r, t - 1);
    }
  }

  lemma KnownStep(evs: seq<Event>, key: Key, r: nat, t: nat)
    requires t < |evs|
    ensures Known(evs, key, r, t + 1)
       <==> || Known(evs, key, r, t)
            || (evs[t].site == r && evs[t].Spend? && KeyOf(evs[t]) == key)
            || (evs[t].site == r && evs[t].Merge? && Known(evs, key, evs[t].other, t))
            || (evs[t].site == r && evs[t].MergeExport? && evs[t].file < t && evs[evs[t].file].Export?
                && Known(evs, key, evs[evs[t].file].site, evs[t].file))
  {
    var e := evs[t];
    forall i | 0 <= i < t && evs[i].Spend?
      ensures Reaches(evs, i, r, t + 1) <==> Reaches(evs, i, r, t) || Brought(evs, i, r, t)
    {
      ReachesStep(evs, i, r, t);
    }
    assert e.Spend? ==> (Reaches(evs, t, r, t + 1) <==> e.site == r) by {
      assert forall k :: 0 <= k < t ==> !(t == k || InPast(evs, t, k));
    }
    if e.site == r && e.MergeExport? && e.file < t && evs[e.file].Export? {
      ReachedBeforeFile(evs, key, e.file);
    }
  }

  lemma ReachedBeforeFile(evs: seq<Event>, key: Key, file: nat)
    requires file < |evs|
    ensures forall i, r :: 0 <= i < |evs| && Reaches(evs, i, r, file) ==> i < file
  {
    forall i, r | 0 <= i < |evs| && Reaches(evs, i, r, file) ensures i < file {
      var k :| 0 <= k < file && evs[k].site == r && (i == k || InPast(evs, i, k));
    }
  }

  // ---------------------------------------------------------------- double spends

  /** A spend is refused exactly when a spend of the same key is in its causal past. */
  lemma RefusedIffInPast(evs: seq<Event>, j: nat)
    requires j < |evs| && evs[j].Spend?
    ensures !Accepted(evs, j)
       <==> exists i :: 0 <= i < j && evs[i].Spend? && KeyOf(evs[i]) == KeyOf(evs[j]) && InPast(evs, i, j)
  {
    var r, key := evs[j].site, KeyOf(evs[j]);
    ContentsAreWhatReached(evs, j, r, key);
    if Known(evs, key, r, j) {
      var i :| 0 <= i < j && evs[i].Spend? && KeyOf(evs[i]) == key && Reaches(evs, i, r, j);
      var k :| 0 <= k < j && evs[k].site == r && (i == k || InPast(evs, i, k));
      assert Edge(evs, k, j) && InPast(evs, i, j);
    }
    if i :| 0 <= i < j && evs[i].Spend? && KeyOf(evs[i]) == key && InPast(evs, i, j) {
      LastHop(evs, i, j);
      assert Reaches(evs, i, r, j);
    }
  }

  /** Two accepted spends of one key are causally concurrent: neither has reached the other. */
  lemma DoubleSpendsAreConcurrent(evs: seq<Event>, i: nat, j: nat)
    requires i < |evs| && j < |evs| && i != j
    requires evs[i].Spend? && evs[j].Spend? && KeyOf(evs[i]) == KeyOf(evs[j])
    requires Accepted(evs, i) && Accepted(evs, j)
    ensures !InPast(evs, i, j) && !InPast(evs, j, i) && evs[i].site != evs[j].site
  {
    RefusedIffInPast(evs, i);
    RefusedIffInPast(evs, j);
    if i < j {
      SameSiteIsPast(evs, i, j);
    } else {
      SameSiteIsPast(evs, j, i);
    }
  }

  lemma SameSiteIsPast(evs: seq<Event>, i: nat, j: nat)
    requires i < j < |evs|
    ensures evs[i].site == evs[j].site ==> InPast(evs, i, j)
  {
    assert evs[i].site == evs[j].site ==> Edge(evs, i, j);
  }

  /** And every spend, accepted or not, has an accepted one of its key at or before it in causal order. */
  lemma {:induction false} SomeSpendAccepted(evs: seq<Event>, j: nat) returns (i: nat)
    requires j < |evs| && evs[j].Spend?
    ensures i <= j && evs[i].Spend? && KeyOf(evs[i]) == KeyOf(evs[j]) && Accepted(evs, i)
    ensures i == j || InPast(evs, i, j)
  {
    if Accepted(evs, j) {
      i := j;
    } else {
      RefusedIffInPast(evs, j);
      var k :| 0 <= k < j && evs[k].Spend? && KeyOf(evs[k]) == KeyOf(evs[j]) && InPast(evs, k, j);
      i := SomeSpendAccepted(evs, k);
      if i != k {
        PastIsTransitive(evs, i, k, j);
      }
    }
  }

  lemma {:induction false} PastIsTransitive(evs: seq<Event>, i: nat, k: nat, j: nat)
    requires j < |evs| && k < |evs| && InPast(evs, i, k) && InPast(evs, k, j)
    ensures InPast(evs, i, j)
    decreases j
  {
    if !Edge(evs, k, j) {
      var l :| k < l < j && InPast(evs, k, l) && Edge(evs, l, j);
      PastIsTransitive(evs, i, k, l);
    }
  }

  // ---------------------------------------------------------------- the registries themselves

  /** Every site named by an event is one of the `n` registries. */
  ghost predicate SitesIn(evs: seq<Event>, n: nat) {
    forall i :: 0 <= i < |evs| ==> evs[i].site < n && (evs[i].Merge? ==> evs[i].other < n)
  }

  ghost predicate AllDistinct(regs: seq<NullifierRegistry>) {
    forall a, b :: 0 <= a < b < |regs| ==> regs[a] != regs[b]
  }

  /** An export file written at event `k`. */
  ghost predicate Wrote(evs: seq<Event>, k: nat, file: map<Epoch, seq<Nullifier>>)
    requires k < |evs|
  {
    evs[k].Export? ==>
      ExportedKeys(file) == Contents(evs, k, evs[k].site) && forall e :: e in file ==> NoRepeats(file[e])
  }

  /** `n` real registries taken through the events, exports written and read back: they hold the contents
      reasoned about here, and answer every spend as it is accepted or refused here. */
  method RunRegistries(evs: seq<Event>, n: nat) returns (regs: seq<NullifierRegistry>, verdicts: seq<string>)
    requires SitesIn(evs, n)
    ensures |regs| == n && AllDistinct(regs) && forall r :: 0 <= r < n ==> regs[r].Abs() == Contents(evs, |evs|, r)
    ensures |verdicts| == |evs|
    ensures forall j :: 0 <= j < |evs| && evs[j].Spend? ==>
              verdicts[j] == if Accepted(evs, j) then "accepted" else "double_spend_rejected"
  {
    regs := NewRegistries(n);
    verdicts := [];
    var files: seq<map<Epoch, seq<Nullifier>>> := [];
    NothingYet(evs);
    hide NoRepeats, ExportedKeys, Contents, Accepted, Wrote, AllDistinct;
    for i := 0 to |evs|
      invariant |regs| == n && AllDistinct(regs) && (forall r :: 0 <= r < n ==> fresh(regs[r]))
      invariant forall r :: 0 <= r < n ==> regs[r].Abs() == Contents(evs, i, r)
      invariant |verdicts| == |files| == i
      invariant forall k :: 0 <= k < i ==> Wrote(evs, k, files[k])
      invariant forall j :: 0 <= j < i && evs[j].Spend? ==>
                  verdicts[j] == if Accepted(evs, j) then "accepted" else "double_spend_rejected"
    {
      var verdict, file := StepRegistries(evs, i, regs, files);
      verdicts := verdicts + [verdict];
      files := files + [file];
    }
  }

  lemma NothingYet(evs: seq<Event>)
    ensures forall r :: Contents(evs, 0, r) == {}
  {
  }

  method NewRegistries(n: nat) returns (regs: seq<NullifierRegistry>)
    ensures |regs| == n && AllDistinct(regs)
    ensures forall r :: 0 <= r < n ==> fresh(regs[r]) && regs[r].Abs() == {}
  {
    regs := [];
    for i := 0 to n
      invariant |regs| == i && AllDistinct(regs)
      invariant forall r :: 0 <= r < i ==> fresh(regs[r]) && regs[r].Abs() == {}
    {
      var reg := new NullifierRegistry();
      regs := regs + [reg];
    }
  }

  /** One event at its site. */
  method StepRegistries(evs: seq<Event>, i: nat, regs: seq<NullifierRegistry>, files: seq<map<Epoch, seq<Nullifier>>>)
    returns (verdict: string, file: map<Epoch, seq<Nullifier>>)
    requires i < |evs| && SitesIn(evs, |regs|) && AllDistinct(regs) && |files| == i
    requires forall r :: 0 <= r < |regs| ==> regs[r].Abs() == Contents(evs, i, r)
    requires forall k :: 0 <= k < i ==> Wrote(evs, k, files[k])
    modifies regs[evs[i].site]
    ensures forall r :: 0 <= r < |regs| ==> regs[r].Abs() == Contents(evs, i + 1, r)
    ensures Wrote(evs, i, file)
    ensures evs[i].Spend? ==> verdict == if Accepted(evs, i) then "accepted" else "double_spend_rejected"
  {
    hide NoRepeats, ExportedKeys;
    verdict, file := "", map[];
    var site := evs[i].site;
    ghost var before := seq(|regs|, r requires 0 <= r < |regs| => Contents(evs, i, r));
    match evs[i] {
      case Spend(_, epoch, nullifier) =>
        verdict := regs[site].VerifyAndSpend(epoch, nullifier);
      case Merge(_, other) =>
        var added, already := regs[site].Merge(regs[other]);
      case Export(_) =>
        file := regs[site].ExportDict();
      case MergeExport(_, k) =>
        if k < i && evs[k].Export? {
          var read := FromExport(files[k]);
          var added, already := regs[site].Merge(read.value);
        }
    }
    assert forall r :: 0 <= r < |regs| && r != site ==> regs[r].Abs() == Contents(evs, i, r);
  }
}

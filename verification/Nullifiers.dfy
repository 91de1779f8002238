/** The spend registry: local spends, exports, imports and merges of nullifier sets. */
module Nullifiers {
  import opened Bytes

  type Nullifier = Block
  type Epoch = nat
  type Key = (Epoch, Nullifier)

  /** The registry's dictionary as the set of (epoch, nullifier) pairs it marks spent. */
  function Spent(used: map<Epoch, set<Nullifier>>): set<Key> {
    set e, n | e in used && n in used[e] :: (e, n)
  }

  datatype MergeConflict = MergeConflict(epoch: Epoch, nullifier: Nullifier)

  ghost predicate NoRepeats(s: seq<Nullifier>) {
    forall i, j :: 0 <= i < j < |s| ==> s[i] != s[j]
  }

  /** `n` is listed at least twice. */
  ghost predicate Repeats(s: seq<Nullifier>, n: Nullifier) {
    exists i, j :: 0 <= i < j < |s| && s[i] == n && s[j] == n
  }

  lemma RepeatsIf(s: seq<Nullifier>, i: nat)
    requires i < |s| && s[i] in s[..i]
    ensures Repeats(s, s[i]) && !NoRepeats(s)
  {
    var k :| 0 <= k < i && s[..i][k] == s[i];
  }

  /** The pairs a portable export lists. */
  function ExportedKeys(epochs: map<Epoch, seq<Nullifier>>): set<Key> {
    set e, n | e in epochs && n in epochs[e] :: (e, n)
  }

  lemma SpentAfterAdd(used: map<Epoch, set<Nullifier>>, epoch: Epoch, n: Nullifier)
    ensures var bucket := if epoch in used then used[epoch] else {};
            Spent(used[epoch := bucket + {n}]) == Spent(used) + {(epoch, n)}
  {
    var bucket := if epoch in used then used[epoch] else {};
    var used' := used[epoch := bucket + {n}];
    forall k: Key ensures k in Spent(used') <==> k in Spent(used) + {(epoch, n)} {
    }
  }

  function Members(s: seq<Nullifier>): set<Nullifier> {
    set n | n in s
  }

  lemma OneMoreListed(s: seq<Nullifier>, n: Nullifier)
    ensures Members(s + [n]) == Members(s) + {n}
    ensures NoRepeats(s + [n]) <==> NoRepeats(s) && n !in s
  {
    var t := s + [n];
    assert forall i :: 0 <= i < |s| ==> t[i] == s[i];
    assert t[|s|] == n;
  }

  method Listed(bucket: set<Nullifier>) returns (s: seq<Nullifier>)
    ensures NoRepeats(s) && Members(s) == bucket
  {
    hide NoRepeats;
    s := [];
    var rest := bucket;
    assert NoRepeats(s) by { NothingRepeats(); }
    while rest != {}
      invariant rest <= bucket && NoRepeats(s) && Members(s) == bucket - rest
      decreases rest
    {
      var n :| n in rest;
      assert n !in Members(s);
      OneMoreListed(s, n);
      rest := rest - {n};
      s := s + [n];
    }
  }

  lemma NothingRepeats()
    ensures NoRepeats([]) && Members([]) == {}
  {
  }

  /** `from_export`: a fresh registry, or an entry that is listed twice. */
  method FromExport(epochs: map<Epoch, seq<Nullifier>>) returns (r: Result<NullifierRegistry, MergeConflict>)
    ensures r.Ok? <==> forall e :: e in epochs ==> NoRepeats(epochs[e])
    ensures r.Ok? ==> fresh(r.value) && r.value.Abs() == ExportedKeys(epochs)
    ensures r.Err? ==> r.error.epoch in epochs && Repeats(epochs[r.error.epoch], r.error.nullifier)
  {
    hide NoRepeats, Keyed, Repeats;
    var reg := new NullifierRegistry();
    var rest: set<Epoch> := epochs.Keys;
    while rest != {}
      invariant rest <= epochs.Keys && fresh(reg)
      invariant reg.Abs() == ExportedKeys(epochs - rest)
      invariant forall e :: e in epochs.Keys - rest ==> NoRepeats(epochs[e])
      decreases rest
    {
      var epoch :| epoch in rest;
      OneMoreExported(epochs, rest, epoch);
      rest := rest - {epoch};
      var conflict := reg.ImportBucket(epoch, epochs[epoch]);
      if conflict.Some? {
        return Err(MergeConflict(epoch, conflict.value));
      }
    }
    assert epochs - {} == epochs;
    return Ok(reg);
  }

  lemma OneMoreExported(epochs: map<Epoch, seq<Nullifier>>, rest: set<Epoch>, epoch: Epoch)
    requires epoch in rest && rest <= epochs.Keys
    ensures ExportedKeys(epochs - (rest - {epoch}))
         == ExportedKeys(epochs - rest) + Keyed(epoch, Members(epochs[epoch]))
  {
  }

  class NullifierRegistry {
    var used: map<Epoch, set<Nullifier>>

    ghost function Abs(): set<Key>
      reads this
    {
      Spent(used)
    }

    constructor ()
      ensures Abs() == {}
    {
      used := map[];
    }

    method IsSpent(epoch: Epoch, n: Nullifier) returns (b: bool)
      ensures b == ((epoch, n) in Abs())
    {
      b := epoch in used && n in used[epoch];
    }

    /** True if newly spent. */
    method TryRegister(epoch: Epoch, n: Nullifier) returns (b: bool)
      modifies this
      ensures b == ((epoch, n) !in old(Abs()))
      ensures Abs() == old(Abs()) + {(epoch, n)}
    {
      if epoch !in used {
        used := used[epoch := {}];
      }
      if n in used[epoch] {
        assert Spent(used) == Spent(old(used));
        return false;
      }
      SpentAfterAdd(old(used), epoch, n);
      used := used[epoch := used[epoch] + {n}];
      assert used == old(used)[epoch := (if epoch in old(used) then old(used)[epoch] else {}) + {n}];
      return true;
    }

    /** The registry as a portable dictionary of lists, none with a repeat. */
    method ExportDict() returns (out: map<Epoch, seq<Nullifier>>)
      ensures ExportedKeys(out) == Abs()
      ensures forall e :: e in out ==> NoRepeats(out[e])
    {
      out := map[];
      var epochs: set<Epoch> := used.Keys;
      while epochs != {}
        invariant epochs <= used.Keys && out.Keys == used.Keys - epochs
        invariant forall e :: e in out ==> NoRepeats(out[e]) && Members(out[e]) == used[e]
        decreases epochs
      {
        var epoch :| epoch in epochs;
        epochs := epochs - {epoch};
        var listed := Listed(used[epoch]);
        out := out[epoch := listed];
      }
    }

    /** The inner loop of `from_export`: registers one epoch's list, up to its first repeat. */
    method ImportBucket(epoch: Epoch, list: seq<Nullifier>) returns (conflict: Option<Nullifier>)
      modifies this
      ensures conflict.None? <==> NoRepeats(list)
      ensures conflict.None? ==> Abs() == old(Abs()) + Keyed(epoch, Members(list))
      ensures conflict.Some? ==> Repeats(list, conflict.value)
    {
      hide NoRepeats, Keyed, Repeats;
      NothingRepeats();
      NothingMerged(epoch);
      for i := 0 to |list|
        invariant Abs() == old(Abs()) + Keyed(epoch, Members(list[..i]))
        invariant NoRepeats(list[..i])
      {
        assert list[..i + 1] == list[..i] + [list[i]];
        OneMoreListed(list[..i], list[i]);
        if list[i] in list[..i] {
          RepeatsIf(list, i);
          return Some(list[i]);
        }
        KeyedOneMore(epoch, Members(list[..i]), list[i]);
        UnionOneMore(old(Abs()), Keyed(epoch, Members(list[..i])), (epoch, list[i]));
        var registered := TryRegister(epoch, list[i]);
      }
      assert list[..|list|] == list;
      return None;
    }

    /** `verify_and_spend`, the credential's proof taken as valid. */
    method VerifyAndSpend(epoch: Epoch, n: Nullifier) returns (verdict: string)
      modifies this
      ensures verdict == if (epoch, n) in old(Abs()) then "double_spend_rejected" else "accepted"
      ensures Abs() == old(Abs()) + {(epoch, n)}
    {
      var registered := TryRegister(epoch, n);
      verdict := if registered then "accepted" else "double_spend_rejected";
    }

    lemma AbsIs()
      ensures Abs() == Spent(used)
    {
    }

    /** The inner loop of the merge: one epoch's bucket. */
    method MergeBucket(epoch: Epoch, theirs: set<Nullifier>) returns (added: nat, already: nat)
      modifies this
      ensures Abs() == old(Abs()) + Keyed(epoch, theirs)
      ensures added == |Keyed(epoch, theirs) - old(Abs())| && already == |Keyed(epoch, theirs) * old(Abs())|
    {
      hide *;
      ghost var mine := Abs();
      added, already := 0, 0;
      NothingMerged(epoch);
      var bucket := theirs;
      assert theirs - bucket == {};
      while bucket != {}
        invariant bucket <= theirs
        invariant Abs() == mine + Keyed(epoch, theirs - bucket)
        invariant added == |Keyed(epoch, theirs - bucket) - mine|
        invariant already == |Keyed(epoch, theirs - bucket) * mine|
        decreases bucket
      {
        var n :| n in bucket;
        OneMoreKey(mine, epoch, theirs, bucket, n);
        bucket := bucket - {n};
        var spent := IsSpent(epoch, n);
        if spent {
          already := already + 1;
        } else {
          var registered := TryRegister(epoch, n);
          added := added + 1;
        }
      }
      assert theirs - bucket == theirs;
    }

    /** Union with another registry, which may be this one, counting what was new. */
    method Merge(other: NullifierRegistry) returns (added: nat, already: nat)
      modifies this
      ensures Abs() == old(Abs()) + old(other.Abs())
      ensures added == |old(other.Abs()) - old(Abs())| && already == |old(other.Abs()) * old(Abs())|
    {
      hide *;
      ghost var mine := Abs();
      other.AbsIs();
      NothingMerged(0);
      var source := other.used;
      var epochs: set<Epoch> := source.Keys;
      added, already := 0, 0;
      assert source - epochs == map[];
      while epochs != {}
        invariant epochs <= source.Keys
        invariant Abs() == mine + Spent(source - epochs)
        invariant added == |Spent(source - epochs) - mine| && already == |Spent(source - epochs) * mine|
        decreases epochs
      {
        var epoch :| epoch in epochs;
        OneMoreBucket(mine, source, epochs, epoch);
        epochs := epochs - {epoch};
        var a, b := MergeBucket(epoch, source[epoch]);
        added, already := added + a, already + b;
      }
      assert source - epochs == source;
    }
  }

  function Keyed(epoch: Epoch, bucket: set<Nullifier>): set<Key> {
    set n | n in bucket :: (epoch, n)
  }

  lemma NothingMerged(epoch: Epoch)
    ensures Spent(map[]) == {} && Keyed(epoch, {}) == {}
  {
  }

  /** What taking `n` out of the rest of a bucket means for the union and the two counts. */
  lemma OneMoreKey(mine: set<Key>, epoch: Epoch, theirs: set<Nullifier>, rest: set<Nullifier>, n: Nullifier)
    requires n in rest && rest <= theirs
    ensures var k := (epoch, n);
            var old', new' := Keyed(epoch, theirs - rest), Keyed(epoch, theirs - (rest - {n}));
            && mine + new' == (mine + old') + {k}
            && (k in mine + old' ==>
                  mine + new' == mine + old' && |new' - mine| == |old' - mine| && |new' * mine| == |old' * mine| + 1)
            && (k !in mine + old' ==> |new' - mine| == |old' - mine| + 1 && |new' * mine| == |old' * mine|)
  {
    hide Keyed;
    TakeOne(theirs, rest, n);
    KeyedOneMore(epoch, theirs - rest, n);
    OneMore(mine, Keyed(epoch, theirs - rest), (epoch, n));
    UnionOneMore(mine, Keyed(epoch, theirs - rest), (epoch, n));
  }

  lemma UnionOneMore<T>(mine: set<T>, done: set<T>, k: T)
    ensures mine + (done + {k}) == (mine + done) + {k}
    ensures k in mine + done ==> (mine + done) + {k} == mine + done
  {
  }

  lemma KeyedOneMore(epoch: Epoch, done: set<Nullifier>, n: Nullifier)
    requires n !in done
    ensures (epoch, n) !in Keyed(epoch, done) && Keyed(epoch, done + {n}) == Keyed(epoch, done) + {(epoch, n)}
  {
  }

  /** One more element is counted in the difference or in the intersection. */
  lemma OneMore<T>(mine: set<T>, done: set<T>, k: T)
    requires k !in done
    ensures k in mine ==> |done + {k} - mine| == |done - mine| && |(done + {k}) * mine| == |done * mine| + 1
    ensures k !in mine ==> |done + {k} - mine| == |done - mine| + 1 && |(done + {k}) * mine| == |done * mine|
  {
    if k in mine {
      assert done + {k} - mine == done - mine && (done + {k}) * mine == done * mine + {k};
    } else {
      assert done + {k} - mine == (done - mine) + {k} && (done + {k}) * mine == done * mine;
    }
  }

  lemma OneMoreBucket(mine: set<Key>, source: map<Epoch, set<Nullifier>>, epochs: set<Epoch>, epoch: Epoch)
    requires epoch in epochs && epochs <= source.Keys
    ensures var before, keyed := Spent(source - epochs), Keyed(epoch, source[epoch]);
            var after := Spent(source - (epochs - {epoch}));
            && mine + after == (mine + before) + keyed
            && |after - mine| == |before - mine| + |keyed - (mine + before)|
            && |after * mine| == |before * mine| + |keyed * (mine + before)|
  {
    hide Spent, Keyed;
    BucketIsNew(source, epochs, epoch);
    UnionCounted(mine, Spent(source - epochs), Keyed(epoch, source[epoch]));
    UnionRegroups(mine, Spent(source - epochs), Keyed(epoch, source[epoch]));
  }

  lemma BucketIsNew(source: map<Epoch, set<Nullifier>>, epochs: set<Epoch>, epoch: Epoch)
    requires epoch in epochs && epochs <= source.Keys
    ensures Spent(source - epochs) !! Keyed(epoch, source[epoch])
    ensures Spent(source - (epochs - {epoch})) == Spent(source - epochs) + Keyed(epoch, source[epoch])
  {
  }

  /** What is added to a union is new to both parts. */
  lemma UnionCounted<T>(mine: set<T>, before: set<T>, more: set<T>)
    requires before !! more
    ensures |before + more - mine| == |before - mine| + |more - (mine + before)|
    ensures |(before + more) * mine| == |before * mine| + |more * (mine + before)|
  {
    assert before + more - mine == (before - mine) + (more - (mine + before));
    assert (before + more) * mine == before * mine + more * (mine + before);
    DisjointSize(before - mine, more - (mine + before));
    DisjointSize(before * mine, more * (mine + before));
  }

  lemma UnionRegroups<T>(a: set<T>, b: set<T>, c: set<T>)
    ensures a + (b + c) == (a + b) + c
  {
  }

  lemma TakeOne<T>(all: set<T>, rest: set<T>, x: T)
    requires x in rest && rest <= all
    ensures all - (rest - {x}) == (all - rest) + {x} && x !in all - rest
  {
  }

  lemma DisjointSize<T>(a: set<T>, b: set<T>)
    requires a !! b
    ensures |a + b| == |a| + |b|
  {
  }
}

/** The replay cache of replay.rs: a set, a FIFO, a per-generation map and a list of active
    generations, kept in step with each other and with one plain window of tags. */
module ReplayCaches {
  import opened ReplayWindow

  const DEFAULT_MAX_GENERATIONS := 4

  datatype Stamped = Stamped(gen: Generation, tag: Tag)

  function Tags(order: seq<Stamped>): (r: seq<Tag>)
    ensures |r| == |order|
  {
    seq(|order|, i requires 0 <= i < |order| => order[i].tag)
  }

  function Elements(s: seq<Tag>): set<Tag> {
    set t | t in s
  }

  ghost predicate NoDuplicates(s: seq<Tag>) {
    forall i, j :: 0 <= i < j < |s| ==> s[i] != s[j]
  }

  /** `retain(|(g, _)| g != gen)`. */
  function WithoutGeneration(order: seq<Stamped>, gen: Generation): (r: seq<Stamped>)
    ensures (forall i :: 0 <= i < |order| ==> order[i].gen == gen) ==> r == []
  {
    if order == [] then []
    else (if order[0].gen == gen then [] else [order[0]]) + WithoutGeneration(order[1..], gen)
  }

  function Retained(active: seq<Generation>, gen: Generation): (r: seq<Generation>)
    ensures (forall i :: 0 <= i < |active| ==> active[i] == gen) ==> r == []
  {
    if active == [] then []
    else (if active[0] == gen then [] else [active[0]]) + Retained(active[1..], gen)
  }

  lemma {:induction false} NoDuplicatesSize(s: seq<Tag>)
    requires NoDuplicates(s)
    ensures |Elements(s)| == |s|
  {
    if s != [] {
      NoDuplicatesSize(s[1..]);
      assert Elements(s) == Elements(s[1..]) + {s[0]};
      assert s[0] !in s[1..];
    }
  }

  lemma DropFirst(s: seq<Tag>)
    requires s != [] && NoDuplicates(s)
    ensures NoDuplicates(s[1..]) && Elements(s[1..]) == Elements(s) - {s[0]}
  {
    assert s == [s[0]] + s[1..];
    assert s[0] !in s[1..];
  }

  lemma NoElements(s: seq<Tag>)
    ensures Elements(s) == {} <==> s == []
  {
    if s != [] {
      assert s[0] in Elements(s);
    }
  }

  lemma NothingHeld()
    ensures Elements([]) == {} && NoDuplicates([])
  {
  }

  lemma AppendElement(s: seq<Tag>, tag: Tag)
    ensures Elements(s + [tag]) == Elements(s) + {tag}
    ensures NoDuplicates(s) && tag !in s ==> NoDuplicates(s + [tag])
  {
    assert tag in s + [tag];
  }

  class ReplayCache {
    var seen: set<Tag>
    var order: seq<Stamped>
    var byGeneration: map<Generation, set<Tag>>
    var activeGenerations: seq<Generation>
    const capacity: nat
    var generation: Generation
    const maxGenerations: nat
    const fillThreshold: nat

    /** The plain window the four structures stand for. */
    ghost function Abs(): Cache
      reads this
    {
      Cache(capacity, fillThreshold, Tags(order), generation)
    }

    /** All four structures say the same: every tag carries the current generation, which is the only
        one that can be active; the FIFO repeats nothing and stays within the limit. */
    ghost predicate Valid()
      reads this
    {
      && seen == Elements(Tags(order))
      && (forall i :: 0 <= i < |order| ==> order[i].gen == generation)
      && byGeneration == (if order == [] then map[] else map[generation := seen])
      && (activeGenerations == [generation] || (activeGenerations == [] && order == []))
      && (capacity > 0 ==> NoDuplicates(Tags(order)) && |order| <= Limit(Abs()))
    }

    constructor (capacity: nat, fillThreshold: nat, maxGenerations: nat := DEFAULT_MAX_GENERATIONS)
      ensures Valid() && Abs() == Empty(capacity, fillThreshold)
    {
      this.maxGenerations := maxGenerations;
      this.capacity := capacity;
      this.fillThreshold := fillThreshold;
      seen, order, byGeneration, activeGenerations, generation := {}, [], map[], [], 0;
    }

    /** Scans exactly `capacity` slots; pad slots past the FIFO never count, even for the pad's tag. */
    method CtContains(tag: Tag) returns (found: bool)
      requires Valid()
      ensures found == !Accepts(Abs(), tag)
    {
      found := false;
      for i := 0 to capacity
        invariant found <==> exists k :: 0 <= k < i && k < |order| && order[k].tag == tag
      {
        var active := i < |order|;
        var candidate := if i < |order| then order[i].tag else seq(32, _ => 0);
        found := found || (tag == candidate && active);
      }
      assert tag in Tags(order) <==> exists k :: 0 <= k < |order| && order[k].tag == tag by {
        assert forall k :: 0 <= k < |order| ==> Tags(order)[k] == order[k].tag;
      }
    }

    method CheckAndInsert(tag: Tag) returns (isFresh: bool)
      requires Valid()
      modifies this
      ensures Valid()
      ensures isFresh == Accepts(old(Abs()), tag)
      ensures Abs() == Step(old(Abs()), Check(tag))
    {
      var present := CtContains(tag);
      if present {
        return false;
      }
      SizeOfSeen();
      if capacity > 0 {
        var proactive := capacity >= MIN_CAPACITY_FOR_PRESSURE_ADVANCE;
        if proactive && |seen| >= fillThreshold {
          AdvanceEpoch();
        }
      }
      if capacity > 0 && |seen| >= capacity {
        if capacity >= MIN_CAPACITY_FOR_PRESSURE_ADVANCE {
          AdvanceEpoch();
        }
        if |seen| >= capacity {
          EvictOldest();
        }
      }
      InsertTag(tag);
      return true;
    }

    /** Flushes the whole cache, whatever `maxGenerations` is: the one generation there can be is the
        oldest. The generation number wraps at 2^32; the loop over `maxGenerations` finds only the
        new, empty generation, which it drops if not even one may be kept. */
    method AdvanceEpoch()
      requires Valid()
      modifies this
      ensures Valid()
      ensures Abs() == Flushed(old(Abs()))
      ensures seen == {} && order == [] && byGeneration == map[]
      ensures maxGenerations >= 1 ==> activeGenerations == [generation]
    {
      hide Elements, NoDuplicates, WithoutGeneration, Retained;
      NothingHeld();
      NoElements(Tags(order));
      if activeGenerations != [] {
        var oldGen := activeGenerations[0];
        activeGenerations := activeGenerations[1..];
        DropGeneration(oldGen);
      }
      assert order == [] && seen == {} && byGeneration == map[] && activeGenerations == [];
      generation := (generation + 1) % GENERATIONS;
      activeGenerations := activeGenerations + [generation];
      assert |activeGenerations| == 1;
      while |activeGenerations| > maxGenerations
        invariant generation == (old(generation) + 1) % GENERATIONS
        invariant order == [] && seen == {} && byGeneration == map[]
        invariant activeGenerations == [generation] || (activeGenerations == [] && maxGenerations == 0)
        decreases |activeGenerations|
      {
        var oldGen := activeGenerations[0];
        activeGenerations := activeGenerations[1..];
        DropGeneration(oldGen);
      }
    }

    method ClearAll()
      requires Valid()
      modifies this
      ensures Valid()
      ensures Abs() == Step(old(Abs()), Clear)
    {
      seen, order, byGeneration, activeGenerations, generation := {}, [], map[], [], 0;
    }

    ghost method SizeOfSeen()
      requires Valid()
      ensures capacity > 0 ==> |seen| == |order|
    {
      if capacity > 0 {
        NoDuplicatesSize(Tags(order));
      }
    }

    /** Pops the oldest tag, if there is one, and forgets it everywhere. */
    method EvictOldest()
      requires Valid() && capacity > 0
      modifies this
      ensures Valid()
      ensures Abs() == old(Abs()).(window := if old(order) == [] then [] else old(Tags(order))[1..])
    {
      hide Elements, NoDuplicates;
      if order != [] {
        var oldest := order[0];
        order := order[1..];
        ghost var before := old(Tags(order));
        assert Tags(order) == before[1..] && before == [oldest.tag] + Tags(order);
        DropFirst(before);
        NoElements(Tags(order));
        RemoveTagFromGeneration(oldest.gen, oldest.tag);
      }
    }

    method InsertTag(tag: Tag)
      requires Valid()
      requires capacity > 0 ==> tag !in Tags(order) && |order| < Limit(Abs())
      modifies this
      ensures Valid()
      ensures Abs() == old(Abs()).(window := old(Tags(order)) + [tag])
    {
      if activeGenerations == [] {
        activeGenerations := activeGenerations + [generation];
      }
      seen := seen + {tag};
      order := order + [Stamped(generation, tag)];
      var bucket := if generation in byGeneration then byGeneration[generation] else {};
      byGeneration := byGeneration[generation := bucket + {tag}];
      assert Tags(order) == old(Tags(order)) + [tag];
      AppendElement(old(Tags(order)), tag);
      assert old(order) == [] ==> old(Tags(order)) == [] && old(seen) == {};
    }

    /** Forgets a tag already popped from the front of the FIFO. */
    method RemoveTagFromGeneration(gen: Generation, tag: Tag)
      modifies this
      ensures seen == old(seen) - {tag} && order == old(order) && generation == old(generation)
      ensures gen !in old(byGeneration) ==>
                byGeneration == old(byGeneration) && activeGenerations == old(activeGenerations)
      ensures gen in old(byGeneration) ==>
                var left := old(byGeneration)[gen] - {tag};
                && byGeneration == (if left == {} then old(byGeneration) - {gen} else old(byGeneration)[gen := left])
                && activeGenerations
                   == (if left == {} then Retained(old(activeGenerations), gen) else old(activeGenerations))
    {
      seen := seen - {tag};
      if gen in byGeneration {
        byGeneration := byGeneration[gen := byGeneration[gen] - {tag}];
        if byGeneration[gen] == {} {
          byGeneration := byGeneration - {gen};
          activeGenerations := Retained(activeGenerations, gen);
        }
      }
    }

    method DropGeneration(gen: Generation)
      modifies this
      ensures generation == old(generation)
      ensures seen == old(seen) - (if gen in old(byGeneration) then old(byGeneration)[gen] else {})
      ensures byGeneration == old(byGeneration) - {gen}
      ensures order == WithoutGeneration(old(order), gen)
      ensures activeGenerations == Retained(old(activeGenerations), gen)
    {
      if gen in byGeneration {
        var tags := byGeneration[gen];
        byGeneration := byGeneration - {gen};
        ghost var all := tags;
        while tags != {}
          invariant tags <= all
          invariant seen == old(seen) - (all - tags)
          invariant generation == old(generation) && order == old(order)
          invariant byGeneration == old(byGeneration) - {gen} && activeGenerations == old(activeGenerations)
          decreases tags
        {
          var tag :| tag in tags;
          tags := tags - {tag};
          seen := seen - {tag};
        }
      }
      order := WithoutGeneration(order, gen);
      activeGenerations := Retained(activeGenerations, gen);
    }
  }
}

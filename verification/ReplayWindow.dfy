/** What the replay cache remembers, as a plain window of tags, and how that window compares with
    the unbounded seen-set of the packet oracle over whole runs. The cache itself, with its four
    redundant structures, is in module ReplayCaches. */
module ReplayWindow {
  import opened Bytes

  type Tag = Block

  /** Caches at least this large flush everything under fill pressure; smaller ones evict FIFO. */
  const MIN_CAPACITY_FOR_PRESSURE_ADVANCE := 1024
  const GENERATIONS := 0x1_0000_0000

  type Generation = g: nat | g < GENERATIONS

  datatype Cache = Cache(capacity: nat, threshold: nat, window: seq<Tag>, generation: Generation)

  predicate Large(c: Cache) {
    c.capacity >= MIN_CAPACITY_FOR_PRESSURE_ADVANCE
  }

  /** Fill at which a large cache flushes: its threshold, or its capacity if that is smaller. */
  function FlushFill(c: Cache): nat {
    if c.threshold < c.capacity then c.threshold else c.capacity
  }

  /** The most tags the window of a cache of positive capacity ever holds. */
  function Limit(c: Cache): nat {
    if !Large(c) then c.capacity else if FlushFill(c) == 0 then 1 else FlushFill(c)
  }

  function Empty(capacity: nat, threshold: nat): Cache {
    Cache(capacity, threshold, [], 0)
  }

  datatype Event = Check(tag: Tag) | Advance | Clear

  /** The membership scan covers `capacity` slots, so a cache of capacity 0 finds nothing. */
  predicate Accepts(c: Cache, tag: Tag) {
    c.capacity == 0 || tag !in c.window
  }

  function Flushed(c: Cache): Cache {
    c.(window := [], generation := (c.generation + 1) % GENERATIONS)
  }

  function Step(c: Cache, e: Event): Cache {
    match e
    case Advance => Flushed(c)
    case Clear => c.(window := [], generation := 0)
    case Check(tag) =>
      if !Accepts(c, tag) then c
      else if Large(c) && |c.window| >= FlushFill(c) then Flushed(c).(window := [tag])
      else if c.capacity > 0 && !Large(c) && |c.window| >= c.capacity then c.(window := c.window[1..] + [tag])
      else c.(window := c.window + [tag])
  }

  function Run(c: Cache, es: seq<Event>): Cache {
    if es == [] then c else Step(Run(c, es[..|es| - 1]), es[|es| - 1])
  }

  /** The tags accepted since the last explicit clear or advance, oldest first. */
  function History(c: Cache, es: seq<Event>): seq<Tag> {
    if es == [] then []
    else
      var before, e := es[..|es| - 1], es[|es| - 1];
      match e
      case Check(tag) => if Accepts(Run(c, before), tag) then History(c, before) + [tag] else History(c, before)
      case _ => []
  }

  /** The largest multiple of `t` that is at most `m`. */
  function BlockStart(m: nat, t: nat): (s: nat)
    requires t > 0
    ensures s <= m < s + t
  {
    if m < t then 0 else t + BlockStart(m - t, t)
  }

  lemma {:induction false} BlockStartStep(m: nat, t: nat)
    requires t > 0
    ensures BlockStart(m + 1, t) == if m + 1 - BlockStart(m, t) >= t then m + 1 else BlockStart(m, t)
  {
    if m >= t {
      BlockStartStep(m - t, t);
    }
  }

  lemma {:induction false} BlockStartOf(m: nat, n: nat, t: nat)
    requires t > 0 && BlockStart(n, t) <= m <= n
    ensures BlockStart(m, t) == BlockStart(n, t)
    decreases n - m
  {
    if m < n {
      BlockStartOf(m + 1, n, t);
      BlockStartStep(m, t);
    }
  }

  /** Where in a history of `n` acceptances the remembered part starts. */
  function WindowStart(c: Cache, n: nat): (s: nat)
    ensures s <= n
  {
    if c.capacity == 0 || n == 0 then 0
    else if Large(c) then BlockStart(n - 1, Limit(c))
    else if n <= c.capacity then 0 else n - c.capacity
  }

  /** The window is exactly the end of the history: the last `capacity` acceptances of a small cache,
      the acceptances since the last multiple of the threshold for a large one. */
  lemma {:induction false} WindowIsRecentHistory(c: Cache, es: seq<Event>)
    requires c.window == []
    ensures var r := Run(c, es);
            && r.capacity == c.capacity && r.threshold == c.threshold
            && r.window == History(c, es)[WindowStart(c, |History(c, es)|)..]
  {
    hide WindowStart, Accepts, Step;
    if es != [] {
      var before, e := es[..|es| - 1], es[|es| - 1];
      WindowIsRecentHistory(c, before);
      var r, past := Run(c, before), History(c, before);
      StepFrame(r, e);
      if e.Check? && Accepts(r, e.tag) {
        AcceptanceExtends(c, r, past, e.tag);
      }
    }
  }

  /** What every step does but an acceptance. */
  lemma StepFrame(r: Cache, e: Event)
    ensures Step(r, e).capacity == r.capacity && Step(r, e).threshold == r.threshold
    ensures !e.Check? ==> Step(r, e).window == []
    ensures e.Check? && !Accepts(r, e.tag) ==> Step(r, e) == r
  {
  }

  lemma AcceptanceExtends(c: Cache, r: Cache, past: seq<Tag>, tag: Tag)
    requires r.capacity == c.capacity && r.threshold == c.threshold
    requires r.window == past[WindowStart(c, |past|)..] && Accepts(r, tag)
    ensures Step(r, Check(tag)).window == (past + [tag])[WindowStart(c, |past| + 1)..]
  {
    WindowStartAdvances(c, |past|);
  }

  lemma WindowStartAdvances(c: Cache, n: nat)
    ensures var s, s' := WindowStart(c, n), WindowStart(c, n + 1);
            if c.capacity == 0 then s' == s
            else if Large(c) then (s' == if n - s >= Limit(c) then n else s)
            else (s' == if n - s >= c.capacity then s + 1 else s)
  {
    if Large(c) && n > 0 {
      BlockStartStep(n - 1, Limit(c));
    }
  }

  // ---------------------------------------------------------------- the replay window

  /** Between two acceptances of one tag (with no clear or advance between) a small cache accepts at
      least `capacity` others, and a large one starts a new block of `threshold` acceptances. */
  lemma {:induction false} AcceptedTwiceFarApart(c: Cache, es: seq<Event>, i: nat, j: nat)
    requires c.window == [] && c.capacity > 0
    requires i < j < |History(c, es)| && History(c, es)[i] == History(c, es)[j]
    ensures !Large(c) ==> j - i - 1 >= c.capacity
    ensures Large(c) ==> BlockStart(i, Limit(c)) < BlockStart(j, Limit(c))
  {
    hide WindowStart, BlockStart;
    var before, e := es[..|es| - 1], es[|es| - 1];
    if j < |History(c, before)| {
      AcceptedTwiceFarApart(c, before, i, j);
    } else {
      var past := History(c, before);
      WindowIsRecentHistory(c, before);
      var s := WindowStart(c, j);
      if i >= s {
        InTail(past, s, i);
      }
      BeforeWindow(c, i, j);
    }
  }

  lemma BeforeWindow(c: Cache, i: nat, j: nat)
    requires c.capacity > 0 && i < WindowStart(c, j)
    ensures !Large(c) ==> j - i - 1 >= c.capacity
    ensures Large(c) ==> BlockStart(i, Limit(c)) < BlockStart(j, Limit(c))
  {
    if Large(c) {
      var t := Limit(c);
      BlockStartStep(j - 1, t);
      assert i < BlockStart(j - 1, t) <= BlockStart(j, t);
    }
  }

  lemma InTail(past: seq<Tag>, s: nat, i: nat)
    requires s <= i < |past|
    ensures past[i] in past[s..]
  {
    assert past[s..][i - s] == past[i];
  }

  /** The steps after which a large cache remembers nothing older. */
  predicate Flushes(c: Cache, e: Event) {
    match e
    case Check(tag) => Accepts(c, tag) && Large(c) && |c.window| >= FlushFill(c)
    case _ => true
  }

  lemma FlushedForgets(c: Cache, e: Event)
    requires Flushes(c, e)
    ensures Step(c, e).window == if e.Check? then [e.tag] else []
  {
  }

  /** A large cache accepts a tag again only after a flush: strictly between two checks of one tag of
      which the second is accepted, some step forgot everything. */
  lemma RepeatMeansFlush(c: Cache, es: seq<Event>, p: nat, q: nat, tag: Tag)
    requires Large(c) && p < q < |es| && es[p] == es[q] == Check(tag)
    requires Accepts(Run(c, es[..q]), tag)
    ensures exists r :: p < r < q && Flushes(Run(c, es[..r]), es[r])
  {
    hide Flushes, Run;
    RunFrame(c, es[..q]);
    if forall r :: p < r < q ==> !Flushes(Run(c, es[..r]), es[r]) {
      KeptUntilFlush(c, es, p, q, tag);
    }
  }

  lemma {:induction false} KeptUntilFlush(c: Cache, es: seq<Event>, p: nat, q: nat, tag: Tag)
    requires Large(c) && p < q <= |es| && es[p] == Check(tag)
    requires forall r :: p < r < q ==> !Flushes(Run(c, es[..r]), es[r])
    ensures tag in Run(c, es[..q]).window
  {
    var before := es[..q - 1];
    assert es[..q][..q - 1] == before;
    RunFrame(c, before);
    if p < q - 1 {
      KeptUntilFlush(c, es, p, q - 1, tag);
    }
  }

  lemma {:induction false} RunFrame(c: Cache, es: seq<Event>)
    ensures Run(c, es).capacity == c.capacity && Run(c, es).threshold == c.threshold
  {
    hide Step;
    if es != [] {
      RunFrame(c, es[..|es| - 1]);
      StepFrame(Run(c, es[..|es| - 1]), es[|es| - 1]);
    }
  }

  /** A cache below 1024 never holds more than its capacity; a larger one not even more than its threshold,
      if that is at least one. */
  lemma {:induction false} SizeBounded(c: Cache, es: seq<Event>)
    requires c.window == [] && c.capacity > 0
    ensures |Run(c, es).window| <= c.capacity
    ensures c.capacity >= 1024 && c.threshold >= 1 ==> |Run(c, es).window| <= c.threshold
  {
    if es != [] {
      RunFrame(c, es[..|es| - 1]);
      SizeBounded(c, es[..|es| - 1]);
    }
  }

  /** And it fills up that far: a tag it does not hold is added to the rest as long as there is room. */
  lemma FillsUp(c: Cache, tag: Tag)
    requires tag !in c.window && c.capacity > 0
    requires if c.capacity < 1024 then |c.window| < c.capacity else |c.window| < c.threshold && |c.window| < c.capacity
    ensures Step(c, Check(tag)).window == c.window + [tag]
  {
  }

  /** How often a run has flushed since the last clear. */
  function Flushes32(c: Cache, es: seq<Event>): nat {
    if es == [] then 0
    else
      var before, e := es[..|es| - 1], es[|es| - 1];
      match e
      case Clear => 0
      case _ => Flushes32(c, before) + (if Flushes(Run(c, before), e) then 1 else 0)
  }

  /** The generation is the number of flushes since the last clear, wrapped to 32 bits. */
  lemma {:induction false} GenerationCountsFlushes(c: Cache, es: seq<Event>)
    requires c.generation == 0
    ensures Run(c, es).generation == Flushes32(c, es) % 0x1_0000_0000
  {
    hide Accepts, Large, FlushFill;
    if es != [] {
      GenerationCountsFlushes(c, es[..|es| - 1]);
      WrapNext(Flushes32(c, es[..|es| - 1]));
    }
  }

  lemma WrapNext(n: nat)
    ensures (n % 0x1_0000_0000 + 1) % 0x1_0000_0000 == (n + 1) % 0x1_0000_0000
  {
  }

  // ---------------------------------------------------------------- against the plain seen-set

  /** The tags an unbounded seen-set holds after the checks of `es` since the last clear or advance. */
  function Seen(es: seq<Event>): set<Tag> {
    if es == [] then {}
    else match es[|es| - 1]
      case Check(tag) => Seen(es[..|es| - 1]) + {tag}
      case _ => {}
  }

  /** Every tag ever checked was accepted once: the cache's history is the oracle's set. */
  lemma {:induction false} HistoryIsSeen(c: Cache, es: seq<Event>)
    requires c.window == []
    ensures forall tag :: tag in History(c, es) <==> tag in Seen(es)
  {
    if es != [] {
      var before := es[..|es| - 1];
      HistoryIsSeen(c, before);
      WindowIsRecentHistory(c, before);
    }
  }

  /** A tag is rejected only if the oracle's set holds it: nothing fresh is ever refused. */
  lemma NeverRejectsFresh(c: Cache, es: seq<Event>, tag: Tag)
    requires c.window == [] && !Accepts(Run(c, es), tag)
    ensures tag in Seen(es)
  {
    WindowIsRecentHistory(c, es);
    HistoryIsSeen(c, es);
  }

  lemma {:induction false} WithinLimitNothingForgotten(c: Cache, es: seq<Event>)
    requires c.window == [] && c.capacity > 0
    requires |Seen(es)| <= Limit(c)
    ensures |History(c, es)| == |Seen(es)| && Run(c, es).window == History(c, es)
  {
    hide Step, Limit;
    if es != [] {
      var before, e := es[..|es| - 1], es[|es| - 1];
      StepFrame(Run(c, before), e);
      RunFrame(c, before);
      if e.Check? {
        assert Seen(es) == Seen(before) + {e.tag};
        SubsetSize(Seen(before), Seen(es));
        WithinLimitNothingForgotten(c, before);
        HistoryIsSeen(c, before);
        if Accepts(Run(c, before), e.tag) {
          assert e.tag !in Seen(before);
          BelowLimitAppends(c, Run(c, before), e.tag);
        }
      }
    }
  }

  lemma BelowLimitAppends(c: Cache, r: Cache, tag: Tag)
    requires r.capacity == c.capacity > 0 && r.threshold == c.threshold
    requires |r.window| < Limit(c) && Accepts(r, tag)
    ensures Step(r, Check(tag)).window == r.window + [tag]
  {
  }

  lemma {:induction false} SubsetSize<T>(a: set<T>, b: set<T>)
    requires a <= b
    ensures |a| <= |b|
  {
    if a != {} {
      var x :| x in a;
      SubsetSize(a - {x}, b - {x});
    }
  }

  /** The cache's verdicts are the oracle's, for every next tag, exactly as long as the oracle's set is
      within the limit; that includes the first check that evicts or flushes, and no later one. */
  lemma AgreesWithOracleIff(c: Cache, es: seq<Event>)
    requires c.window == [] && c.capacity > 0
    ensures (forall tag :: Accepts(Run(c, es), tag) <==> tag !in Seen(es)) <==> |Seen(es)| <= Limit(c)
  {
    HistoryIsSeen(c, es);
    WindowIsRecentHistory(c, es);
    var window := Run(c, es).window;
    if |Seen(es)| <= Limit(c) {
      WithinLimitNothingForgotten(c, es);
    } else {
      assert |window| <= Limit(c);
      ElementsBound(window);
      var kept := set tag | tag in window;
      if Seen(es) <= kept {
        SubsetSize(Seen(es), kept);
      }
      var forgotten :| forgotten in Seen(es) && forgotten !in window;
      assert Accepts(Run(c, es), forgotten);
    }
  }

  lemma {:induction false} ElementsBound(s: seq<Tag>)
    ensures |set x | x in s| <= |s|
  {
    if s != [] {
      ElementsBound(s[1..]);
      assert (set x | x in s) == (set x | x in s[1..]) + {s[0]};
    }
  }

  /** Any cache of positive capacity refuses an immediate repeat; one of capacity 0 accepts every tag
      after any run. */
  lemma DetectsRepeatIffCapacity(c: Cache, es: seq<Event>, tag: Tag)
    requires c.window == []
    ensures c.capacity == 0 ==> Accepts(Run(c, es), tag)
    ensures c.capacity > 0 ==> !Accepts(Run(c, es + [Check(tag)]), tag)
  {
    WindowIsRecentHistory(c, es);
    var again := es + [Check(tag)];
    assert again[..|again| - 1] == es && again[|again| - 1] == Check(tag);
  }
}

/** When the cover signal comes: over any interleaving, exactly when the cover time has passed since a tick
    that found nothing pending, with nothing received in between. */
module CoverTiming {
  import opened Bytes
  import opened Fragments
  import opened Emitter
  import opened SessionDriver
  import opened SessionRuns

  datatype Session = Session(max: nat, cover: nat, steps: seq<Step>)

  /** The session after its first `t` steps. */
  function At(s: Session, t: nat): Core
    requires t <= |s.steps|
  {
    Run(s.max, s.cover, s.steps[..t]).core
  }

  lemma OneStep(s: Session, t: nat)
    requires t < |s.steps|
    ensures At(s, t + 1) == Next(Run(s.max, s.cover, s.steps[..t]), s.cover, s.steps[t]).core
  {
    assert s.steps[..t + 1] == s.steps[..t] + [s.steps[t]];
    RunOneMore(s.max, s.cover, s.steps[..t], s.steps[t]);
  }

  /** Step `r` takes a cell out of the channel. */
  predicate ReceivedAt(s: Session, r: nat)
    requires r < |s.steps|
  {
    s.steps[r].Recv? && At(s, r).running && At(s, r).channel != []
  }

  /** Step `i` is a tick whose cell the transport takes. */
  predicate TickedAt(s: Session, i: nat)
    requires i < |s.steps|
  {
    s.steps[i].Tick? && s.steps[i].sendOk && At(s, i).running
  }

  /** Nothing is received between steps `a` and `b`. */
  ghost predicate Quiet(s: Session, a: nat, b: nat)
    requires b <= |s.steps|
  {
    forall r :: a < r < b ==> !ReceivedAt(s, r)
  }

  ghost predicate NoSend(s: Session, a: nat, b: nat)
    requires b <= |s.steps|
  {
    forall k :: a < k < b ==> !s.steps[k].SendBegins?
  }

  /** Tick `i` leaves nothing pending, something was received before it, and nothing since. */
  ghost predicate DrainedAt(s: Session, i: nat, t: nat)
    requires t <= |s.steps|
  {
    && i < t && TickedAt(s, i) && Pending(At(s, i + 1).emitter) == 0
    && Quiet(s, i, t) && SomeReceived(s, i)
  }

  /** The clock of tick `j`, read last, is the cover time past that of tick `i`, read first; without a
      cover time the same tick will do. */
  predicate CoverPassed(s: Session, i: nat, j: nat)
    requires i < |s.steps| && j < |s.steps| && s.steps[i].Tick? && s.steps[j].Tick?
  {
    if s.cover == 0 then i == j else s.steps[j].now2 >= s.steps[i].now1 + s.cover
  }

  ghost predicate Covered(s: Session, i: nat, j: nat, t: nat)
    requires t <= |s.steps|
  {
    DrainedAt(s, i, t) && i <= j < t && TickedAt(s, j) && CoverPassed(s, i, j) && NoSend(s, j, t)
  }

  // ---------------------------------------------------------------- one step

  /** What a tick does to deadline and signal. */
  lemma TickedSignal(c: Core, cover: nat, noise: Cell, now1: nat, now2: nat, sendOk: bool)
    requires c.deadline.Some? ==> cover > 0
    ensures var c' := Ticked(c, cover, noise, now1, now2, sendOk).0;
            var drained := sendOk && Pending(c'.emitter) == 0 && c.sawReal;
            var d := if drained && cover > 0 && c.deadline.None? then Some(now1 + cover) else c.deadline;
            var fires := sendOk && ((d.Some? && now2 >= d.value) || (drained && cover == 0));
            && c'.coverDone == (c.coverDone || fires)
            && c'.sawReal == (c.sawReal && !fires)
            && c'.deadline == (if fires then None else d)
            && c'.channel == c.channel
  {
    hide DataCell, DummyCell;
    if cover == 0 {
      assert c.deadline.None?;
    }
  }

  /** A tick that itself sets the deadline cannot raise the signal before the cover time has passed. */
  lemma CoverTakesItsTime(c: Core, cover: nat, noise: Cell, now1: nat, now2: nat, sendOk: bool)
    requires cover > 0 && !c.coverDone && c.deadline.None?
    requires Ticked(c, cover, noise, now1, now2, sendOk).0.coverDone
    ensures now2 >= now1 + cover
  {
    hide Ticked;
    TickedSignal(c, cover, noise, now1, now2, sendOk);
  }

  // ---------------------------------------------------------------- the signal means the time has passed

  ghost predicate SomeReceived(s: Session, t: nat)
    requires t <= |s.steps|
  {
    exists r :: 0 <= r < t && ReceivedAt(s, r)
  }

  ghost predicate SomeDrained(s: Session, t: nat, deadline: nat)
    requires t <= |s.steps|
  {
    exists i: nat :: DrainedAt(s, i, t) && s.steps[i].now1 + s.cover == deadline
  }

  ghost predicate SomeCovered(s: Session, t: nat)
    requires t <= |s.steps|
  {
    exists i: nat, j: nat :: Covered(s, i, j, t)
  }

  /** What the driver's cover state says about the steps so far. */
  ghost predicate Accounted(s: Session, t: nat)
    requires t <= |s.steps|
  {
    var c := At(s, t);
    && (c.sawReal ==> SomeReceived(s, t))
    && (c.deadline.Some? ==> s.cover > 0 && SomeDrained(s, t, c.deadline.value))
    && (c.coverDone ==> SomeCovered(s, t))
  }

  lemma {:induction false} AlwaysAccounted(s: Session, t: nat)
    requires t <= |s.steps|
    ensures Accounted(s, t)
  {
    hide Accounted, At;
    if t == 0 {
      NothingAccounted(s);
    } else {
      AlwaysAccounted(s, t - 1);
      OneStep(s, t - 1);
      if s.steps[t - 1].Tick? && At(s, t - 1).running {
        TickAccounted(s, t - 1);
      } else {
        OtherAccounted(s, t - 1);
      }
    }
  }

  lemma NothingAccounted(s: Session)
    requires |s.steps| >= 0
    ensures Accounted(s, 0)
  {
    assert s.steps[..0] == [];
    RunNothing(s.max, s.cover);
  }

  lemma ReceivedStays(s: Session, t: nat)
    requires t < |s.steps| && (ReceivedAt(s, t) || SomeReceived(s, t))
    ensures SomeReceived(s, t + 1)
  {
    hide ReceivedAt;
  }

  lemma DrainedStays(s: Session, t: nat, deadline: nat)
    requires t < |s.steps| && SomeDrained(s, t, deadline) && !ReceivedAt(s, t)
    ensures SomeDrained(s, t + 1, deadline)
  {
    hide At, ReceivedAt, SomeReceived;
    var i: nat :| DrainedAt(s, i, t) && s.steps[i].now1 + s.cover == deadline;
    assert DrainedAt(s, i, t + 1);
  }

  lemma CoveredStays(s: Session, t: nat)
    requires t < |s.steps| && SomeCovered(s, t) && !ReceivedAt(s, t) && !s.steps[t].SendBegins?
    ensures SomeCovered(s, t + 1)
  {
    hide At, TickedAt, ReceivedAt, SomeReceived;
    var i: nat, j: nat :| Covered(s, i, j, t);
    assert Covered(s, i, j, t + 1);
  }

  lemma DrainsNow(s: Session, t: nat)
    requires t < |s.steps| && s.steps[t].Tick? && TickedAt(s, t)
    requires Pending(At(s, t + 1).emitter) == 0 && SomeReceived(s, t)
    ensures SomeDrained(s, t + 1, s.steps[t].now1 + s.cover)
    ensures s.cover == 0 ==> SomeCovered(s, t + 1)
  {
    hide At, TickedAt, ReceivedAt, SomeReceived;
    assert DrainedAt(s, t, t + 1);
    if s.cover == 0 {
      assert Covered(s, t, t, t + 1);
    }
  }

  lemma CoveredNow(s: Session, t: nat, deadline: nat)
    requires t < |s.steps| && TickedAt(s, t) && s.cover > 0
    requires SomeDrained(s, t + 1, deadline) && s.steps[t].now2 >= deadline
    ensures SomeCovered(s, t + 1)
  {
    hide At, ReceivedAt, SomeReceived, Quiet;
    var i: nat :| DrainedAt(s, i, t + 1) && s.steps[i].now1 + s.cover == deadline;
    assert Covered(s, i, t, t + 1);
  }

  /** Steps other than a tick of the running loop. */
  lemma OtherStep(s: Session, t: nat)
    requires t < |s.steps| && !(s.steps[t].Tick? && At(s, t).running)
    ensures var c, c' := At(s, t), At(s, t + 1);
            && (ReceivedAt(s, t) ==> c'.deadline.None? && !c'.coverDone)
            && (!ReceivedAt(s, t) ==>
                  && c'.deadline == c.deadline && c'.sawReal == c.sawReal
                  && c'.coverDone == (c.coverDone && !s.steps[t].SendBegins?))
  {
    OneStep(s, t);
  }

  /** A tick of the running loop. */
  lemma TickStep(s: Session, t: nat)
    requires t < |s.steps| && s.steps[t].Tick? && At(s, t).running && (At(s, t).deadline.Some? ==> s.cover > 0)
    ensures !ReceivedAt(s, t) && (TickedAt(s, t) <==> s.steps[t].sendOk)
    ensures var c, c', tick := At(s, t), At(s, t + 1), s.steps[t];
            var drained := tick.sendOk && Pending(c'.emitter) == 0 && c.sawReal;
            var d := if drained && s.cover > 0 && c.deadline.None? then Some(tick.now1 + s.cover) else c.deadline;
            var fires := tick.sendOk && ((d.Some? && tick.now2 >= d.value) || (drained && s.cover == 0));
            && c'.coverDone == (c.coverDone || fires)
            && c'.sawReal == (c.sawReal && !fires)
            && c'.deadline == (if fires then None else d)
  {
    OneStep(s, t);
    hide Ticked;
    var tick := s.steps[t];
    TickedSignal(At(s, t), s.cover, tick.noise, tick.now1, tick.now2, tick.sendOk);
  }

  lemma OtherAccounted(s: Session, t: nat)
    requires t < |s.steps| && Accounted(s, t) && !(s.steps[t].Tick? && At(s, t).running)
    ensures Accounted(s, t + 1)
  {
    OtherStep(s, t);
    hide At, ReceivedAt, SomeReceived, SomeDrained, SomeCovered;
    var c, c' := At(s, t), At(s, t + 1);
    if ReceivedAt(s, t) || c.sawReal {
      ReceivedStays(s, t);
    }
    if !ReceivedAt(s, t) {
      if c.deadline.Some? {
        DrainedStays(s, t, c.deadline.value);
      }
      if c'.coverDone {
        CoveredStays(s, t);
      }
    }
  }

  lemma TickAccounted(s: Session, t: nat)
    requires t < |s.steps| && Accounted(s, t) && s.steps[t].Tick? && At(s, t).running
    ensures Accounted(s, t + 1)
  {
    TickStep(s, t);
    hide At, ReceivedAt, TickedAt, SomeReceived, SomeDrained, SomeCovered;
    var tick, c, c' := s.steps[t], At(s, t), At(s, t + 1);
    if c.sawReal {
      ReceivedStays(s, t);
    }
    if c.coverDone {
      CoveredStays(s, t);
    }
    if c.deadline.Some? {
      DrainedStays(s, t, c.deadline.value);
    } else if tick.sendOk && Pending(c'.emitter) == 0 && c.sawReal {
      DrainsNow(s, t);
    }
    var d := if c.deadline.Some? then c.deadline.value else tick.now1 + s.cover;
    if tick.sendOk && s.cover > 0 && SomeDrained(s, t + 1, d) && tick.now2 >= d {
      CoveredNow(s, t, d);
    }
  }

  /** If the signal stands, some tick left nothing pending after the last receive, and the cover time
      passed between it and a later (or the same) tick, since which no new sending began. */
  lemma SignalMeansCovered(s: Session, t: nat)
    requires t <= |s.steps| && At(s, t).coverDone
    ensures exists i: nat, j: nat :: Covered(s, i, j, t)
  {
    hide Covered, At;
    AlwaysAccounted(s, t);
  }

  // ---------------------------------------------------------------- once the time has passed, the signal comes

  /** The clock, as ticks first read it, never goes back. */
  ghost predicate ClockForward(s: Session) {
    forall a, b :: 0 <= a < b < |s.steps| && s.steps[a].Tick? && s.steps[b].Tick? ==> s.steps[a].now1 <= s.steps[b].now1
  }

  /** From a receive on, as long as nothing else is received or begun, the driver remembers it until the
      signal stands. */
  lemma {:induction false} RemembersReceived(s: Session, r: nat, t: nat)
    requires r < t <= |s.steps| && ReceivedAt(s, r) && Quiet(s, r, t) && NoSend(s, r, t)
    ensures At(s, t).coverDone || At(s, t).sawReal
  {
    hide At;
    if t == r + 1 {
      AfterReceive(s, r);
    } else {
      RemembersReceived(s, r, t - 1);
      StepKeepsWaiting(s, t - 1);
    }
  }

  lemma AfterReceive(s: Session, r: nat)
    requires r < |s.steps| && ReceivedAt(s, r)
    ensures At(s, r + 1).sawReal
  {
    OneStep(s, r);
  }

  /** A step that neither receives nor begins keeps the signal, and what the driver waits with unless it
      raises it. */
  lemma StepKeepsWaiting(s: Session, t: nat)
    requires t < |s.steps| && !ReceivedAt(s, t) && !s.steps[t].SendBegins?
    ensures var c, c' := At(s, t), At(s, t + 1);
            && (c.coverDone ==> c'.coverDone)
            && (c.sawReal ==> c'.sawReal || c'.coverDone)
            && (c.deadline.Some? ==> c'.deadline == c.deadline || c'.coverDone)
            && (c.deadline.Some? && TickedAt(s, t) && s.steps[t].now2 >= c.deadline.value ==> c'.coverDone)
  {
    AlwaysAccounted(s, t);
    if s.steps[t].Tick? && At(s, t).running {
      TickStep(s, t);
    } else {
      OtherStep(s, t);
    }
    hide At, ReceivedAt, SomeReceived, SomeDrained, SomeCovered;
  }

  /** A draining tick after receive `r` raises the signal or leaves a deadline at most the cover time away;
      it raises it if that time has passed by its own second reading of the clock. */
  lemma DrainingTick(s: Session, r: nat, i: nat)
    requires r < i < |s.steps| && ClockForward(s)
    requires ReceivedAt(s, r) && Quiet(s, r, i) && NoSend(s, r, i)
    requires s.steps[i].Tick? && TickedAt(s, i) && Pending(At(s, i + 1).emitter) == 0
    ensures var c := At(s, i + 1);
            && (s.cover > 0 ==> c.coverDone || (c.deadline.Some? && c.deadline.value <= s.steps[i].now1 + s.cover))
            && (CoverPassed(s, i, i) ==> c.coverDone)
  {
    RemembersReceived(s, r, i);
    AlwaysAccounted(s, i);
    TickIsRunning(s, i);
    hide At, TickedAt, ReceivedAt, SomeReceived, SomeCovered, SomeDrained, Quiet, NoSend, ClockForward;
    TickStep(s, i);
    if At(s, i).deadline.Some? {
      EarlierDrain(s, i, At(s, i).deadline.value);
    }
  }

  lemma TickIsRunning(s: Session, i: nat)
    requires i < |s.steps| && TickedAt(s, i)
    ensures s.steps[i].Tick? && At(s, i).running
  {
    hide At;
  }

  /** From a draining tick `i` on the deadline is at most the cover time past it, until the signal stands. */
  lemma {:induction false} DeadlineSet(s: Session, r: nat, i: nat, t: nat)
    requires r < i < t <= |s.steps| && s.cover > 0 && ClockForward(s)
    requires ReceivedAt(s, r) && Quiet(s, r, t) && NoSend(s, r, t)
    requires TickedAt(s, i) && Pending(At(s, i + 1).emitter) == 0
    ensures var c := At(s, t);
            c.coverDone || (c.deadline.Some? && c.deadline.value <= s.steps[i].now1 + s.cover)
  {
    hide At, TickedAt, ReceivedAt;
    TickIsRunning(s, i);
    if t == i + 1 {
      DrainingTick(s, r, i);
    } else {
      DeadlineSet(s, r, i, t - 1);
      StepKeepsWaiting(s, t - 1);
    }
  }

  lemma EarlierDrain(s: Session, i: nat, deadline: nat)
    requires i < |s.steps| && s.steps[i].Tick? && ClockForward(s) && SomeDrained(s, i, deadline)
    ensures deadline <= s.steps[i].now1 + s.cover
  {
    hide At, ReceivedAt, SomeReceived, Quiet;
    var k: nat :| DrainedAt(s, k, i) && s.steps[k].now1 + s.cover == deadline;
  }

  /** On a clock that goes forward, with no new sending since receive `r` and nothing received since: the
      signal stands if and only if some tick since then left nothing pending and the cover time passed
      between it and a later (or the same) tick. */
  lemma SignalIff(s: Session, r: nat, t: nat)
    requires r < t <= |s.steps| && ClockForward(s)
    requires ReceivedAt(s, r) && Quiet(s, r, t) && NoSend(s, r, t)
    ensures At(s, t).coverDone
       <==> exists i: nat, j: nat :: Passed(s, r, i, j, t)
  {
    hide At, ReceivedAt;
    if At(s, t).coverDone {
      SignalMeansCovered(s, t);
      var i: nat, j: nat :| Covered(s, i, j, t);
      CoveredIsPassed(s, r, i, j, t);
    }
    if i: nat, j: nat :| Passed(s, r, i, j, t) {
      SignalComes(s, r, i, j, t);
    }
  }

  /** Tick `i` after receive `r` leaves nothing pending, and by tick `j` the cover time has passed. */
  ghost predicate Passed(s: Session, r: nat, i: nat, j: nat, t: nat)
    requires t <= |s.steps|
  {
    r < i <= j < t && TickedAt(s, i) && TickedAt(s, j) && Pending(At(s, i + 1).emitter) == 0 && CoverPassed(s, i, j)
  }

  lemma CoveredIsPassed(s: Session, r: nat, i: nat, j: nat, t: nat)
    requires r < t <= |s.steps| && ReceivedAt(s, r) && Covered(s, i, j, t)
    ensures Passed(s, r, i, j, t)
  {
    hide At, SomeReceived;
    assert r != i;
  }

  lemma {:induction false} SignalComes(s: Session, r: nat, i: nat, j: nat, t: nat)
    requires r < t <= |s.steps| && ClockForward(s)
    requires ReceivedAt(s, r) && Quiet(s, r, t) && NoSend(s, r, t) && Passed(s, r, i, j, t)
    ensures At(s, t).coverDone
  {
    hide At, TickedAt, ReceivedAt;
    TickIsRunning(s, i);
    TickIsRunning(s, j);
    if j < t - 1 {
      SignalComes(s, r, i, j, t - 1);
      StepKeepsWaiting(s, t - 1);
    } else if i == j {
      DrainingTick(s, r, i);
    } else {
      DeadlineSet(s, r, i, j);
      StepKeepsWaiting(s, j);
    }
  }
}

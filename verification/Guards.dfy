/** The guard mitigation loop, written twice in the simulator: once recording every epoch, once stopping
    at the first dirty one. Random numbers are one shared stream, read in order. */
module Guards {
  import opened Arithmetic

  /** The shared random stream. A run reads finitely many draws, so a sequence long enough stands for any
      stream; past its end it reads as zero. */
  type Stream = seq<real>

  function At(s: Stream, i: nat): real {
    if i < |s| then s[i] else 0.0
  }

  datatype Params = Params(
    demotionFloor: real,
    maxStickyEpochs: int,
    softStickyEpochs: int,
    stickinessDecay: real,
    repSignalScale: real,
    repDemotionExtra: real,
    demotionDecay: real,
    aggressive: bool,
    demotionLinger: int)

  /** The mutable variables of the loop, and how far the stream has been read. */
  datatype State = State(effC: real, sticky: int, stickiness: real, linger: int, cursor: nat)

  function Initially(c: real): State {
    State(c, 0, 1.0, 0, 0)
  }

  function FloorC(c: real, p: Params): real {
    c * p.demotionFloor
  }

  function RepP(c: real, g: nat, p: Params): real {
    MinReal(0.45, Times(Times(p.repSignalScale, g as real), c))
  }

  /** Some of the `g` guard draws from `cursor` on is below the exposure `x`. */
  predicate AnyBelow(draws: Stream, cursor: nat, g: nat, x: real) {
    g > 0 && (AnyBelow(draws, cursor, g - 1, x) || At(draws, cursor + g - 1) < x)
  }

  function Times(x: real, y: real): real {
    x * y
  }

  function Decay(p: Params, dirty: bool, rep: bool): real {
    var decay := if dirty && p.aggressive then Times(p.demotionDecay, 0.75) else p.demotionDecay;
    if rep then Times(decay, p.repDemotionExtra) else decay
  }

  /** The exposure after an epoch: never under the floor. */
  function Lowered(c: real, p: Params, x: real, factor: real): real {
    MaxReal(FloorC(c, p), Times(x, factor))
  }

  /** The counters at the start of an epoch. */
  function Aged(p: Params, s: State): State {
    s.(sticky := s.sticky + 1, stickiness := Times(s.stickiness, p.stickinessDecay))
  }

  /** What an aged epoch reads from the stream: dirtiness, the reputation and soft signals, and the new
      cursor. The two signals take a draw each only where the source's short-circuits reach them. */
  function Signals(draws: Stream, c: real, g: nat, p: Params, s: State): (bool, bool, bool, nat) {
    var dirty := AnyBelow(draws, s.cursor, g, s.effC);
    var afterGuards := s.cursor + g;
    var rep := !dirty && At(draws, afterGuards) < RepP(c, g, p);
    var afterRep := if dirty then afterGuards else afterGuards + 1;
    var soft := s.sticky >= p.softStickyEpochs && At(draws, afterRep) > s.stickiness;
    (dirty, rep, soft, if s.sticky >= p.softStickyEpochs then afterRep + 1 else afterRep)
  }

  /** The variables after an aged epoch with the given signals. */
  function Adjusted(c: real, p: Params, s: State, dirty: bool, rep: bool, soft: bool): State {
    var rotate := dirty || s.sticky >= p.maxStickyEpochs || soft || rep;
    var effC := if rotate then Lowered(c, p, s.effC, Decay(p, dirty, rep)) else s.effC;
    var linger := if rotate then p.demotionLinger else s.linger;
    State(if linger > 0 then effC else Lowered(c, p, effC, 0.9998),
          if rotate then 0 else s.sticky, if rotate then 1.0 else s.stickiness,
          if linger > 0 then linger - 1 else linger, s.cursor)
  }

  /** One epoch: the variables afterwards, and whether the epoch was dirty. */
  function Epoch(draws: Stream, c: real, g: nat, p: Params, s: State): (State, bool) {
    var aged := Aged(p, s);
    var (dirty, rep, soft, cursor) := Signals(draws, c, g, p, aged);
    (Adjusted(c, p, aged.(cursor := cursor), dirty, rep, soft), dirty)
  }

  function StateAt(draws: Stream, c: real, g: nat, p: Params, e: nat): State {
    if e == 0 then Initially(c) else Epoch(draws, c, g, p, StateAt(draws, c, g, p, e - 1)).0
  }

  lemma StateSteps(draws: Stream, c: real, g: nat, p: Params, e: nat)
    ensures StateAt(draws, c, g, p, 0) == Initially(c)
    ensures StateAt(draws, c, g, p, e + 1) == Epoch(draws, c, g, p, StateAt(draws, c, g, p, e)).0
    ensures DirtyAt(draws, c, g, p, e) == Epoch(draws, c, g, p, StateAt(draws, c, g, p, e)).1
  {
  }

  predicate DirtyAt(draws: Stream, c: real, g: nat, p: Params, e: nat) {
    Epoch(draws, c, g, p, StateAt(draws, c, g, p, e)).1
  }

  method GuardDraws(draws: Stream, cursor: nat, g: nat, x: real) returns (any: bool)
    ensures any == AnyBelow(draws, cursor, g, x)
  {
    any := false;
    for i := 0 to g
      invariant any == AnyBelow(draws, cursor, i, x)
    {
      if At(draws, cursor + i) < x {
        any := true;
      }
    }
  }

  /** The tail of an epoch, the same in both loops: rotate and demote on any signal, then linger or drift. */
  method Adjust(c: real, p: Params, effC0: real, sticky0: int, stickiness0: real, linger0: int,
                ghost cursor: nat, dirty: bool, rep: bool, soft: bool)
    returns (effC: real, sticky: int, stickiness: real, linger: int)
    ensures State(effC, sticky, stickiness, linger, cursor)
         == Adjusted(c, p, State(effC0, sticky0, stickiness0, linger0, cursor), dirty, rep, soft)
  {
    hide Lowered, Times;
    effC, sticky, stickiness, linger := effC0, sticky0, stickiness0, linger0;
    var hard := sticky >= p.maxStickyEpochs;
    if dirty || hard || soft || rep {
      sticky := 0;
      stickiness := 1.0;
      var decay := p.demotionDecay;
      if dirty && p.aggressive {
        decay := Times(decay, 0.75);
      }
      if rep {
        decay := Times(decay, p.repDemotionExtra);
      }
      effC := Lowered(c, p, effC, decay);
      linger := p.demotionLinger;
    }
    if linger > 0 {
      linger := linger - 1;
    } else {
      effC := Lowered(c, p, effC, 0.9998);
    }
  }

  /** `mitigated_dirty_epochs`: records every epoch, at least one. */
  method MitigatedDirtyEpochs(draws: Stream, epochs: int, c: real, g: nat, p: Params) returns (dirty: array<bool>)
    ensures dirty.Length == (if epochs < 1 then 1 else epochs)
    ensures forall e :: 0 <= e < dirty.Length ==> dirty[e] == DirtyAt(draws, c, g, p, e)
  {
    var n: nat := if epochs < 1 then 1 else epochs;
    dirty := new bool[n];
    hide At, AnyBelow, RepP, Adjusted, Times, StateAt, DirtyAt;
    StateSteps(draws, c, g, p, 0);
    var effC, sticky, stickiness, linger := c, 0, 1.0, 0;
    var cursor: nat := 0;
    var repP := RepP(c, g, p);
    for e := 0 to n
      invariant State(effC, sticky, stickiness, linger, cursor) == StateAt(draws, c, g, p, e)
      invariant forall k :: 0 <= k < e ==> dirty[k] == DirtyAt(draws, c, g, p, k)
    {
      StateSteps(draws, c, g, p, e);
      ghost var s := Aged(p, StateAt(draws, c, g, p, e));
      sticky := sticky + 1;
      stickiness := Times(stickiness, p.stickinessDecay);
      var isDirty := GuardDraws(draws, cursor, g, effC);
      cursor := cursor + g;
      dirty[e] := isDirty;
      var rep := false;
      if !isDirty {
        rep := At(draws, cursor) < repP;
        cursor := cursor + 1;
      }
      var soft := false;
      if sticky >= p.softStickyEpochs {
        soft := At(draws, cursor) > stickiness;
        cursor := cursor + 1;
      }
      assert (isDirty, rep, soft, cursor) == Signals(draws, c, g, p, s);
      effC, sticky, stickiness, linger := Adjust(c, p, effC, sticky, stickiness, linger, cursor, isDirty, rep, soft);
    }
  }

  /** `_run_mitigated_trial`: stops at the first dirty epoch. */
  method RunMitigatedTrial(draws: Stream, epochs: nat, c: real, g: nat, p: Params) returns (ever: bool)
    ensures ever <==> exists e :: 0 <= e < epochs && DirtyAt(draws, c, g, p, e)
  {
    ever := false;
    hide At, AnyBelow, RepP, Adjusted, Times, StateAt, DirtyAt;
    StateSteps(draws, c, g, p, 0);
    var effC, sticky, stickiness, linger := c, 0, 1.0, 0;
    var cursor: nat := 0;
    var repP := RepP(c, g, p);
    for e := 0 to epochs
      invariant !ever
      invariant State(effC, sticky, stickiness, linger, cursor) == StateAt(draws, c, g, p, e)
      invariant forall k :: 0 <= k < e ==> !DirtyAt(draws, c, g, p, k)
    {
      StateSteps(draws, c, g, p, e);
      ghost var s := Aged(p, StateAt(draws, c, g, p, e));
      sticky := sticky + 1;
      stickiness := Times(stickiness, p.stickinessDecay);
      var dirty := GuardDraws(draws, cursor, g, effC);
      cursor := cursor + g;
      if dirty {
        ever := true;
      }
      var rep := false;
      if !dirty {
        rep := At(draws, cursor) < repP;
        cursor := cursor + 1;
      }
      var soft := false;
      if sticky >= p.softStickyEpochs {
        soft := At(draws, cursor) > stickiness;
        cursor := cursor + 1;
      }
      assert (dirty, rep, soft, cursor) == Signals(draws, c, g, p, s);
      effC, sticky, stickiness, linger := Adjust(c, p, effC, sticky, stickiness, linger, cursor, dirty, rep, soft);
      if ever {
        break;
      }
    }
  }

  /** On one stream the early exit answers "some epoch was dirty". Asked for no epochs, the recording loop
      still runs one, so there the two agree exactly when none of the first `g` draws is below `c`. */
  method TrialAgainstRecord(draws: Stream, epochs: nat, c: real, g: nat, p: Params)
    returns (dirty: array<bool>, ever: bool)
    ensures dirty.Length >= 1
    ensures (ever <==> exists e :: 0 <= e < dirty.Length && dirty[e]) <==> (epochs >= 1 || !AnyBelow(draws, 0, g, c))
  {
    dirty := MitigatedDirtyEpochs(draws, epochs, c, g, p);
    ever := RunMitigatedTrial(draws, epochs, c, g, p);
    FirstEpochDirtyIff(draws, c, g, p);
    hide DirtyAt, AnyBelow;
  }

  /** Nothing has been demoted yet in the first epoch. */
  lemma FirstEpochDirtyIff(draws: Stream, c: real, g: nat, p: Params)
    ensures DirtyAt(draws, c, g, p, 0) == AnyBelow(draws, 0, g, c)
  {
    hide AnyBelow, At;
    StateSteps(draws, c, g, p, 0);
  }

  /** A stream on which they disagree: no epochs, one guard, and a first draw below the exposure. */
  method DisagreeOnNoEpochs(p: Params) returns (dirty: array<bool>, ever: bool)
    ensures !ever && dirty.Length == 1 && dirty[0]
  {
    dirty := MitigatedDirtyEpochs([0.25], 0, 0.5, 1, p);
    ever := RunMitigatedTrial([0.25], 0, 0.5, 1, p);
    FirstEpochDirtyIff([0.25], 0.5, 1, p);
    assert At([0.25], 0) == 0.25 && AnyBelow([0.25], 0, 1, 0.5);
    hide DirtyAt;
  }

  // ---------------------------------------------------------------- mitigation never exposes more

  /** Factors no larger than one and a floor no higher than the start. */
  predicate Demoting(c: real, p: Params) {
    && 0.0 <= c && 0.0 <= p.demotionFloor <= 1.0
    && 0.0 <= p.demotionDecay <= 1.0 && 0.0 <= p.repDemotionExtra <= 1.0
  }

  lemma {:induction false} ExposureInRange(draws: Stream, c: real, g: nat, p: Params, e: nat)
    requires Demoting(c, p)
    ensures FloorC(c, p) <= StateAt(draws, c, g, p, e).effC <= c
  {
    FloorInRange(c, p);
    if e > 0 {
      ExposureInRange(draws, c, g, p, e - 1);
      EpochDemotes(draws, c, g, p, StateAt(draws, c, g, p, e - 1));
    }
  }

  lemma FloorInRange(c: real, p: Params)
    requires Demoting(c, p)
    ensures 0.0 <= FloorC(c, p) <= c
  {
    ScaledInRange(p.demotionFloor, c);
  }

  lemma EpochDemotes(draws: Stream, c: real, g: nat, p: Params, s: State)
    requires Demoting(c, p) && 0.0 <= FloorC(c, p) <= c && FloorC(c, p) <= s.effC <= c
    ensures FloorC(c, p) <= Epoch(draws, c, g, p, s).0.effC <= c
  {
    hide At, AnyBelow, RepP, FloorC, Decay, Lowered, Times;
    forall dirty, rep
      ensures FloorC(c, p) <= Lowered(c, p, s.effC, Decay(p, dirty, rep)) <= c
      ensures FloorC(c, p) <= Lowered(c, p, Lowered(c, p, s.effC, Decay(p, dirty, rep)), 0.9998) <= c
    {
      DecayShrinks(p, dirty, rep);
      LoweredInRange(c, p, s.effC, Decay(p, dirty, rep));
      LoweredInRange(c, p, Lowered(c, p, s.effC, Decay(p, dirty, rep)), 0.9998);
    }
    LoweredInRange(c, p, s.effC, 0.9998);
  }

  lemma LoweredInRange(c: real, p: Params, x: real, factor: real)
    requires 0.0 <= FloorC(c, p) <= x <= c && 0.0 <= factor <= 1.0
    ensures FloorC(c, p) <= Lowered(c, p, x, factor) <= c
  {
    hide FloorC, Times;
    TimesShrinks(x, factor);
  }

  lemma DecayShrinks(p: Params, dirty: bool, rep: bool)
    requires 0.0 <= p.demotionDecay <= 1.0 && 0.0 <= p.repDemotionExtra <= 1.0
    ensures 0.0 <= Decay(p, dirty, rep) <= 1.0
  {
    hide Times;
    TimesShrinks(p.demotionDecay, 0.75);
    TimesShrinks(p.demotionDecay, p.repDemotionExtra);
    TimesShrinks(Times(p.demotionDecay, 0.75), p.repDemotionExtra);
  }

  lemma TimesShrinks(x: real, factor: real)
    requires 0.0 <= x && 0.0 <= factor <= 1.0
    ensures 0.0 <= Times(x, factor) <= x
  {
    ScaledInRange(factor, x);
  }

  lemma {:induction false} BelowMore(draws: Stream, cursor: nat, g: nat, x: real, y: real)
    requires AnyBelow(draws, cursor, g, x) && x <= y
    ensures AnyBelow(draws, cursor, g, y)
  {
    if AnyBelow(draws, cursor, g - 1, x) {
      BelowMore(draws, cursor, g - 1, x, y);
    }
  }

  /** An epoch that is dirty under mitigation would be dirty without it on the same guard draws. */
  lemma MitigationNeverExposesMore(draws: Stream, c: real, g: nat, p: Params, e: nat)
    requires Demoting(c, p) && DirtyAt(draws, c, g, p, e)
    ensures AnyBelow(draws, StateAt(draws, c, g, p, e).cursor, g, c)
  {
    hide AnyBelow, StateAt;
    ExposureInRange(draws, c, g, p, e);
    BelowMore(draws, StateAt(draws, c, g, p, e).cursor, g, StateAt(draws, c, g, p, e).effC, c);
  }

  // ---------------------------------------------------------------- what an epoch does

  /** A guard set is dirty exactly when one of the next `g` draws is below the exposure. */
  lemma {:induction false} AnyBelowIff(draws: Stream, cursor: nat, g: nat, x: real)
    ensures AnyBelow(draws, cursor, g, x) <==> exists i :: cursor <= i < cursor + g && At(draws, i) < x
  {
    hide At;
    if g > 0 {
      AnyBelowIff(draws, cursor, g - 1, x);
    }
  }

  /** Something makes the guards rotate: a dirty epoch, either signal, or the hard cap. */
  predicate Rotates(p: Params, s: State, dirty: bool, rep: bool, soft: bool) {
    dirty || rep || soft || s.sticky >= p.maxStickyEpochs
  }

  /** A rotation starts the counters afresh and lowers the exposure to at most the decayed one, further on a
      dirty epoch of an aggressive profile or a reputation signal, but not below the floor. */
  lemma RotationDemotes(c: real, p: Params, s: State, dirty: bool, rep: bool, soft: bool)
    requires Demoting(c, p) && FloorC(c, p) <= s.effC <= c && Rotates(p, s, dirty, rep, soft)
    ensures var s' := Adjusted(c, p, s, dirty, rep, soft);
            && s'.sticky == 0 && s'.stickiness == 1.0 && s'.cursor == s.cursor
            && s'.linger == (if p.demotionLinger > 0 then p.demotionLinger - 1 else p.demotionLinger)
            && c * p.demotionFloor <= s'.effC
            && (s'.effC == c * p.demotionFloor
                || s'.effC <= s.effC * p.demotionDecay * (if dirty && p.aggressive then 0.75 else 1.0)
                                                      * (if rep then p.repDemotionExtra else 1.0))
  {
    hide Lowered, Times, FloorC;
    var f := Decay(p, dirty, rep);
    FloorInRange(c, p);
    DecayShrinks(p, dirty, rep);
    DecayIs(p, dirty, rep);
    LoweredIs(c, p, s.effC, f);
    LoweredIs(c, p, Lowered(c, p, s.effC, f), 0.9998);
    FloorIs(c, p);
    Associate(s.effC, p.demotionDecay, if dirty && p.aggressive then 0.75 else 1.0,
              if rep then p.repDemotionExtra else 1.0);
  }

  /** Without a rotation the counters go on, and the exposure only drifts, and only when no demotion lingers. */
  lemma NoRotationDrifts(c: real, p: Params, s: State, dirty: bool, rep: bool, soft: bool)
    requires Demoting(c, p) && FloorC(c, p) <= s.effC <= c && !Rotates(p, s, dirty, rep, soft)
    ensures var s' := Adjusted(c, p, s, dirty, rep, soft);
            && s'.sticky == s.sticky && s'.stickiness == s.stickiness && s'.cursor == s.cursor
            && (s.linger > 0 ==> s'.effC == s.effC && s'.linger == s.linger - 1)
            && (s.linger <= 0 ==> s'.linger == s.linger && c * p.demotionFloor <= s'.effC
                                  && (s'.effC == c * p.demotionFloor || s'.effC == s.effC * 0.9998))
  {
    hide Lowered, Times, FloorC;
    FloorInRange(c, p);
    LoweredIs(c, p, s.effC, 0.9998);
    FloorIs(c, p);
  }

  lemma FloorIs(c: real, p: Params)
    ensures FloorC(c, p) == c * p.demotionFloor
  {
  }

  lemma DecayIs(p: Params, dirty: bool, rep: bool)
    ensures Decay(p, dirty, rep)
         == p.demotionDecay * (if dirty && p.aggressive then 0.75 else 1.0) * (if rep then p.repDemotionExtra else 1.0)
  {
  }

  lemma LoweredIs(c: real, p: Params, x: real, factor: real)
    requires 0.0 <= FloorC(c, p) <= x <= c && 0.0 <= factor <= 1.0
    ensures FloorC(c, p) <= Lowered(c, p, x, factor) <= x
    ensures Lowered(c, p, x, factor) == FloorC(c, p) || Lowered(c, p, x, factor) == x * factor
  {
    hide FloorC;
    LoweredInRange(c, p, x, factor);
    TimesShrinks(x, factor);
  }

  lemma Associate(x: real, a: real, b: real, d: real)
    ensures x * (a * b * d) == x * a * b * d
  {
  }

  /** No guard set is kept for as long as the hard cap. */
  lemma StickyBounded(draws: Stream, c: real, g: nat, p: Params, e: nat)
    requires p.maxStickyEpochs >= 1
    ensures 0 <= StateAt(draws, c, g, p, e).sticky < p.maxStickyEpochs
  {
    hide AnyBelow, RepP, Lowered, Times, Decay, At;
    if e > 0 {
      StickyBounded(draws, c, g, p, e - 1);
    }
  }

  /** How an epoch reads the stream: `g` guard draws; one for the reputation signal unless it is dirty; one
      for the soft signal once its cap is reached. It rotates exactly when it is dirty, a signal draw
      says so, or the hard cap is reached. */
  lemma EpochReads(draws: Stream, c: real, g: nat, p: Params, e: nat)
    ensures var s, s' := StateAt(draws, c, g, p, e), StateAt(draws, c, g, p, e + 1);
            var dirty := DirtyAt(draws, c, g, p, e);
            var reached := s.sticky + 1 >= p.softStickyEpochs;
            var next := s.cursor + g + (if dirty then 0 else 1);
            && s'.cursor == next + (if reached then 1 else 0)
            && (s'.sticky == 0 || s'.sticky == s.sticky + 1)
            && (s.sticky >= 0 ==>
                  (s'.sticky == 0 <==>
                    || dirty || s.sticky + 1 >= p.maxStickyEpochs
                    || At(draws, s.cursor + g) < MinReal(0.45, Times(Times(p.repSignalScale, g as real), c))
                    || (reached && At(draws, next) > Times(s.stickiness, p.stickinessDecay))))
  {
    hide AnyBelow, Lowered, Decay, At, MinReal, Times, StateAt, DirtyAt;
    StateSteps(draws, c, g, p, e);
  }

  lemma TimesIs(x: real, y: real)
    ensures Times(x, y) == x * y
  {
  }
}

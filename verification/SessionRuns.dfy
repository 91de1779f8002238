/** A paced session over every interleaving of the sender, the driver's branches and the clock. */
module SessionRuns {
  import opened Bytes
  import opened SphinxOnion
  import opened Fragments
  import opened Reassembly
  import opened FragmentStreams
  import opened Emitter
  import opened SessionDriver
  import opened Delivery

  datatype Step =
    | SendBegins
    | TrySend(cell: Cell)
    | Recv
    | Tick(noise: Cell, now1: nat, now2: nat, sendOk: bool)
    | Shutdown

  /** The session and what has happened to its cells so far: `sent` into the channel, `received` by the
      driver, `kept` by the emitter, `shipped` by the emitter to the wire, `lost` to a failing transport; `emitted` is
      the whole wire, cover included. */
  datatype World = World(
    core: Core,
    sent: seq<Cell>,
    received: seq<Cell>,
    kept: seq<Cell>,
    shipped: seq<Cell>,
    lost: seq<Cell>,
    emitted: seq<Cell>)

  function Initial(max: nat): World {
    World(Started(max), [], [], [], [], [], [])
  }

  /** A step that is not enabled leaves the world as it is. */
  function Next(w: World, cover: nat, step: Step): World {
    var c := w.core;
    match step
    case SendBegins => w.(core := c.(coverDone := false))
    case TrySend(cell) => w.(core := TrySent(c, cell), sent := if CanSend(c) then w.sent + [cell] else w.sent)
    case Shutdown => w.(core := c.(running := false))
    case Recv =>
      if !c.running || c.channel == [] then w
      else w.(core := Received(c), received := w.received + [c.channel[0]],
              kept := if Full(c.emitter) then w.kept else w.kept + [c.channel[0]])
    case Tick(noise, now1, now2, sendOk) =>
      if !c.running then w
      else
        var (c', cell) := Ticked(c, cover, noise, now1, now2, sendOk);
        var moved := if c.emitter.cells != [] then [cell] else [];
        if sendOk then w.(core := c', shipped := w.shipped + moved, emitted := w.emitted + [cell])
        else w.(core := c', lost := w.lost + moved)
  }

  function Run(max: nat, cover: nat, steps: seq<Step>): World {
    if steps == [] then Initial(max) else Next(Run(max, cover, steps[..|steps| - 1]), cover, steps[|steps| - 1])
  }

  /** `a` is `b` with some items left out. */
  ghost predicate Thinned(a: seq<Cell>, b: seq<Cell>) {
    if b == [] then a == []
    else
      || (a != [] && a[|a| - 1] == b[|b| - 1] && Thinned(a[..|a| - 1], b[..|b| - 1]))
      || Thinned(a, b[..|b| - 1])
  }

  lemma ThinnedOneMore(a: seq<Cell>, b: seq<Cell>, cell: Cell)
    requires Thinned(a, b)
    ensures Thinned(a + [cell], b + [cell]) && Thinned(a, b + [cell])
  {
    assert (a + [cell])[..|a|] == a && (b + [cell])[..|b|] == b;
  }

  /** On the way in, nothing is duplicated, reordered or lost but by a counted drop. */
  ghost predicate Counted(w: World) {
    && w.sent == w.received + w.core.channel
    && |w.received| == |w.kept| + w.core.emitter.dropped
    && Thinned(w.kept, w.received)
    && (w.core.emitter.dropped == 0 ==> w.kept == w.received)
  }

  /** On the way out, what was kept has been shipped in order or is still queued, but for the one cell a
      failing transport swallows. */
  ghost predicate Placed(w: World) {
    && w.kept == w.shipped + w.lost + w.core.emitter.cells
    && |w.lost| <= 1 && (w.core.running ==> w.lost == [])
    && FragmentCells(w.emitted) == FragmentCells(w.shipped)
  }

  /** What the cover signal stands on. */
  ghost predicate CoverSound(w: World, cover: nat) {
    && w.core.emitter.queue == []
    && |w.core.emitter.cells| <= w.core.emitter.maxBacklog
    && (w.core.deadline.Some? ==> cover > 0 && w.core.emitter.cells == [] && w.core.sawReal)
    && (w.core.sawReal || w.core.coverDone ==> w.received != [])
    && (w.core.coverDone ==> w.core.emitter.cells == [] && w.lost == [])
    && (w.core.running ==> w.lost == [])
    && (w.core.running ==> w.core.pendingSeen == Pending(w.core.emitter))
  }

  lemma {:induction false} AlwaysSound(max: nat, cover: nat, steps: seq<Step>)
    ensures var w := Run(max, cover, steps);
            && Counted(w) && Placed(w) && CoverSound(w, cover) && w.core.emitter.maxBacklog == max
  {
    hide FragmentCells, Next, Counted, Placed, CoverSound;
    if steps == [] {
      InitiallySound(max, cover);
    } else {
      var w, step := Run(max, cover, steps[..|steps| - 1]), steps[|steps| - 1];
      AlwaysSound(max, cover, steps[..|steps| - 1]);
      StepCounted(w, cover, step);
      StepPlaced(w, cover, step);
      StepCoverSound(w, cover, step);
    }
  }

  lemma InitiallySound(max: nat, cover: nat)
    ensures var w := Initial(max);
            Counted(w) && Placed(w) && CoverSound(w, cover) && w.core.emitter.maxBacklog == max
  {
  }

  lemma StepCoverSound(w: World, cover: nat, step: Step)
    requires CoverSound(w, cover)
    ensures CoverSound(Next(w, cover, step), cover)
    ensures Next(w, cover, step).core.emitter.maxBacklog == w.core.emitter.maxBacklog
  {
    hide DataCell, DummyCell;
  }

  lemma StepCounted(w: World, cover: nat, step: Step)
    requires Counted(w)
    ensures Counted(Next(w, cover, step))
  {
    hide Thinned, Ticked;
    if step.Tick? {
      TickedKeeps(w.core, cover, step.noise, step.now1, step.now2, step.sendOk);
    }
    if step.Recv? && w.core.running && w.core.channel != [] {
      var cell := w.core.channel[0];
      assert w.core.channel == [cell] + w.core.channel[1..];
      ThinnedOneMore(w.kept, w.received, cell);
    }
  }

  lemma TickedKeeps(c: Core, cover: nat, noise: Cell, now1: nat, now2: nat, sendOk: bool)
    ensures var c' := Ticked(c, cover, noise, now1, now2, sendOk).0;
            c'.channel == c.channel && c'.emitter.dropped == c.emitter.dropped
  {
    hide DataCell, DummyCell;
  }

  lemma StepPlaced(w: World, cover: nat, step: Step)
    requires Placed(w)
    ensures Placed(Next(w, cover, step))
  {
    hide FragmentCells, Ticked;
    match step {
      case Tick(noise, now1, now2, sendOk) =>
        if w.core.running {
          TickedEmits(w.core, cover, noise, now1, now2, sendOk);
          if sendOk {
            ShippedPlaced(w, noise);
          } else if w.core.emitter.cells != [] {
            assert w.core.emitter.cells == [w.core.emitter.cells[0]] + w.core.emitter.cells[1..];
          }
        }
      case Recv =>
      case _ =>
    }
  }

  lemma TickedEmits(c: Core, cover: nat, noise: Cell, now1: nat, now2: nat, sendOk: bool)
    ensures var (c', cell) := Ticked(c, cover, noise, now1, now2, sendOk);
            (c'.emitter, cell) == Slot(c.emitter, noise) && c'.running == (c.running && sendOk)
  {
  }

  /** The cell of a slot goes to the wire; only a real one counts as shipped. */
  lemma ShippedPlaced(w: World, noise: Cell)
    requires Placed(w) && w.core.running
    ensures var (e', cell) := Slot(w.core.emitter, noise);
            var shipped' := w.shipped + (if w.core.emitter.cells != [] then [cell] else []);
            && w.kept == shipped' + w.lost + e'.cells
            && FragmentCells(w.emitted + [cell]) == FragmentCells(shipped')
  {
    hide FragmentCells, DataCell, DummyCell, Decode;
    var e := w.core.emitter;
    var cell := Slot(e, noise).1;
    FragmentCellsAppend(w.emitted, [cell]);
    if e.cells != [] {
      FragmentCellsAppend(w.shipped, [cell]);
      assert w.shipped + [] + ([cell] + e.cells[1..]) == (w.shipped + [cell]) + [] + e.cells[1..];
    } else {
      CoverIsNotFragment(if e.queue != [] then e.queue[0] else [], noise);
      FragmentCellsOne(cell);
      assert w.shipped + [] == w.shipped;
    }
  }

  // ---------------------------------------------------------------- what the signals mean

  /** When the cover signal stands, no cell is queued and the transport has swallowed none: every cell
      the driver kept is on the wire, in order. So the sent cells are exactly the shipped ones if and
      only if the channel is empty and nothing was dropped. */
  lemma CoverDoneMeans(max: nat, cover: nat, steps: seq<Step>)
    requires Run(max, cover, steps).core.coverDone
    ensures var w := Run(max, cover, steps);
            && w.received != [] && w.lost == [] && w.core.emitter.cells == []
            && w.shipped == w.kept && Thinned(w.shipped, w.received)
            && |w.sent| == |w.shipped| + w.core.emitter.dropped + |w.core.channel|
            && (w.sent == w.shipped <==> w.core.channel == [] && w.core.emitter.dropped == 0)
  {
    hide FragmentCells, Thinned, Next;
    AlwaysSound(max, cover, steps);
  }

  /** The signal can stand while cells are still in the channel: two cells, the second sent between the
      driver's receive and its next tick. */
  lemma CoverDoneTooSoon(a: Cell, b: Cell, noise: Cell)
    ensures var w := Run(2, 0, [SendBegins, TrySend(a), Recv, TrySend(b), Step.Tick(noise, 0, 0, true)]);
            w.core.coverDone && w.core.running && w.core.channel == [b] && w.shipped == [a]
  {
    hide Run;
    assert [] + [SendBegins] == [SendBegins];
    assert [SendBegins] + [TrySend(a)] == [SendBegins, TrySend(a)];
    assert [SendBegins, TrySend(a)] + [Recv] == [SendBegins, TrySend(a), Recv];
    assert [SendBegins, TrySend(a), Recv] + [TrySend(b)] == [SendBegins, TrySend(a), Recv, TrySend(b)];
    assert [SendBegins, TrySend(a), Recv, TrySend(b)] + [Step.Tick(noise, 0, 0, true)]
        == [SendBegins, TrySend(a), Recv, TrySend(b), Step.Tick(noise, 0, 0, true)];
    RunOneMore(2, 0, [], SendBegins);
    RunOneMore(2, 0, [SendBegins], TrySend(a));
    RunOneMore(2, 0, [SendBegins, TrySend(a)], Recv);
    RunOneMore(2, 0, [SendBegins, TrySend(a), Recv], TrySend(b));
    RunOneMore(2, 0, [SendBegins, TrySend(a), Recv, TrySend(b)], Step.Tick(noise, 0, 0, true));
    RunNothing(2, 0);
  }

  /** Nor is an empty channel enough: a full emitter drops a cell whose sender was told it was sent. */
  lemma CoverDoneAfterDrop(a: Cell, b: Cell, noise: Cell)
    ensures var w := Run(1, 0, [SendBegins, TrySend(a), Recv, TrySend(b), Recv, Step.Tick(noise, 0, 0, true)]);
            && w.core.coverDone && w.core.running && w.core.channel == []
            && w.sent == [a, b] && w.shipped == [a] && w.core.emitter.dropped == 1
  {
    hide Run, Next;
    var tick := Step.Tick(noise, 0, 0, true);
    assert [] + [SendBegins] == [SendBegins];
    assert [SendBegins] + [TrySend(a)] == [SendBegins, TrySend(a)];
    assert [SendBegins, TrySend(a)] + [Recv] == [SendBegins, TrySend(a), Recv];
    assert [SendBegins, TrySend(a), Recv] + [TrySend(b)] == [SendBegins, TrySend(a), Recv, TrySend(b)];
    assert [SendBegins, TrySend(a), Recv, TrySend(b)] + [Recv] == [SendBegins, TrySend(a), Recv, TrySend(b), Recv];
    assert [SendBegins, TrySend(a), Recv, TrySend(b), Recv] + [tick]
        == [SendBegins, TrySend(a), Recv, TrySend(b), Recv, tick];
    RunOneMore(1, 0, [], SendBegins);
    RunOneMore(1, 0, [SendBegins], TrySend(a));
    RunOneMore(1, 0, [SendBegins, TrySend(a)], Recv);
    RunOneMore(1, 0, [SendBegins, TrySend(a), Recv], TrySend(b));
    RunOneMore(1, 0, [SendBegins, TrySend(a), Recv, TrySend(b)], Recv);
    RunOneMore(1, 0, [SendBegins, TrySend(a), Recv, TrySend(b), Recv], tick);
    RunNothing(1, 0);
    OneQueuedOneSent(a, b);
    DroppedThenShipped(a, b, noise);
  }

  /** A session of backlog limit 1 with `a` queued and `b` in the channel. */
  function QueuedAndSent(a: Cell, b: Cell): World {
    World(Core(Emitter(1, [], [a], 0, 0), [b], true, false, 1, None, true), [a, b], [a], [a], [], [], [])
  }

  lemma OneQueuedOneSent(a: Cell, b: Cell)
    ensures Next(Next(Next(Next(Initial(1), 0, SendBegins), 0, TrySend(a)), 0, Recv), 0, TrySend(b))
         == QueuedAndSent(a, b)
  {
  }

  lemma DroppedThenShipped(a: Cell, b: Cell, noise: Cell)
    ensures var w := Next(Next(QueuedAndSent(a, b), 0, Recv), 0, Step.Tick(noise, 0, 0, true));
            && w.core.coverDone && w.core.running && w.core.channel == []
            && w.sent == [a, b] && w.shipped == [a] && w.core.emitter.dropped == 1
  {
    hide DataCell, DummyCell;
  }

  lemma RunNothing(max: nat, cover: nat)
    ensures Run(max, cover, []) == Initial(max)
  {
  }

  lemma RunOneMore(max: nat, cover: nat, steps: seq<Step>, step: Step)
    ensures Run(max, cover, steps + [step]) == Next(Run(max, cover, steps), cover, step)
  {
    assert (steps + [step])[..|steps|] == steps;
  }

  /** Channel and emitter together within the backlog limit all along: nothing is dropped. */
  lemma {:induction false} NothingDropped(max: nat, cover: nat, steps: seq<Step>)
    requires forall i :: 0 <= i <= |steps| ==>
               var c := Run(max, cover, steps[..i]).core; |c.channel| + Pending(c.emitter) <= max
    ensures Run(max, cover, steps).core.emitter.dropped == 0
  {
    hide Placed, Counted, CoverSound, Next;
    if steps != [] {
      var before := steps[..|steps| - 1];
      assert forall i :: 0 <= i <= |before| ==> before[..i] == steps[..i];
      NothingDropped(max, cover, before);
      AlwaysSound(max, cover, before);
      assert steps[..|before|] == before;
      StepDropsNothing(Run(max, cover, before), cover, steps[|steps| - 1]);
    }
  }

  lemma StepDropsNothing(w: World, cover: nat, step: Step)
    requires |w.core.channel| + Pending(w.core.emitter) <= w.core.emitter.maxBacklog
    ensures Next(w, cover, step).core.emitter.dropped == w.core.emitter.dropped
  {
    hide Ticked;
    if step.Tick? {
      TickedKeeps(w.core, cover, step.noise, step.now1, step.now2, step.sendOk);
    }
  }

  // ---------------------------------------------------------------- end to end

  lemma {:induction false} AllFragments(cells: seq<Cell>)
    requires forall i :: 0 <= i < |cells| ==> Decode(cells[i]).Ok?
    ensures FragmentCells(cells) == cells
  {
    hide Decode;
    if cells != [] {
      AllFragments(cells[..|cells| - 1]);
    }
  }

  lemma {:induction false} PacketCellsDecode(ps: seq<PacketBytes>, ids: seq<PacketId>, i: nat)
    requires |ps| == |ids| && i < SPHINX_FRAGMENT_COUNT * |ps|
    ensures Decode(PacketCells(ps, ids)[i]).Ok?
  {
    hide Decode, FragmentsOf;
    if i < SPHINX_FRAGMENT_COUNT {
      assert Carries(FragmentsOf(ps[0], ids[0])[i], ps[0], ids[0], i);
    } else {
      PacketCellsDecode(ps[1..], ids[1..], i - SPHINX_FRAGMENT_COUNT);
    }
  }

  lemma ShippedAreFragments(shipped: seq<Cell>, later: seq<Cell>, ps: seq<PacketBytes>, ids: seq<PacketId>, m: nat)
    requires |ps| == |ids| && m <= SPHINX_FRAGMENT_COUNT * |ps|
    requires shipped + later == PacketCells(ps, ids)[..m]
    ensures FragmentCells(shipped) == shipped
  {
    hide Decode, PacketCells;
    forall i | 0 <= i < |shipped| ensures Decode(shipped[i]).Ok? {
      assert shipped[i] == (shipped + later)[i] == PacketCells(ps, ids)[i];
      PacketCellsDecode(ps, ids, i);
    }
    AllFragments(shipped);
  }

  /** A session that was sent the cells of `ps`, packet after packet (the last perhaps cut short), and
      dropped none, delivers through any interleaving: the receiver's reassembler yields a prefix of
      `ps`, every packet whose cells have been shipped; and all that were sent whole once channel and
      queue are empty and the transport has not failed. */
  lemma SessionDelivers(max: nat, cover: nat, steps: seq<Step>, ps: seq<PacketBytes>, ids: seq<PacketId>, m: nat)
    requires |ps| == |ids| && m <= SPHINX_FRAGMENT_COUNT * |ps|
    requires Run(max, cover, steps).sent == PacketCells(ps, ids)[..m]
    requires Run(max, cover, steps).core.emitter.dropped == 0
    ensures var w := Run(max, cover, steps);
            && |w.shipped| <= m
            && Yielded(w.emitted) == ps[..|w.shipped| / SPHINX_FRAGMENT_COUNT]
            && (w.core.running && w.core.channel == [] && w.core.emitter.cells == [] ==>
                  Yielded(w.emitted) == ps[..m / SPHINX_FRAGMENT_COUNT])
  {
    hide *;
    var w := Run(max, cover, steps);
    var later := w.lost + w.core.emitter.cells + w.core.channel;
    ShippedThenTheRest(max, cover, steps);
    ShippedAreFragments(w.shipped, later, ps, ids, m);
    PrefixDelivered(w.emitted, later, ps, ids, m);
  }

  /** With no drops, what was sent is what was shipped, followed by what is on its way. */
  lemma ShippedThenTheRest(max: nat, cover: nat, steps: seq<Step>)
    ensures var w := Run(max, cover, steps);
            && (w.core.emitter.dropped == 0 ==>
                  w.sent == w.shipped + (w.lost + w.core.emitter.cells + w.core.channel))
            && FragmentCells(w.emitted) == FragmentCells(w.shipped)
            && (w.core.running ==> w.lost == [])
  {
    hide FragmentCells, Thinned, Run, CoverSound;
    AlwaysSound(max, cover, steps);
  }
}

/** End to end over the emitter: whatever the timing of slots and whatever else is queued, the packets
    whose fragments were enqueued come out of the receiver's reassembler, in order. */
module Delivery {
  import opened Bytes
  import opened SphinxOnion
  import opened Fragments
  import opened Reassembly
  import opened FragmentStreams
  import opened Emitter

  datatype Event = Offer(cell: Cell) | Say(payload: seq<byte>) | SayOrDrop(payload: seq<byte>) | Tick(noise: Cell)

  function Happened(e: Emitter, ev: Event): Emitter {
    match ev
    case Offer(cell) => Offered(e, cell)
    case Say(payload) => Said(e, payload)
    case SayOrDrop(payload) => SaidOrDropped(e, payload)
    case Tick(noise) => Slot(e, noise).0
  }

  function EmitterAfter(max: nat, evs: seq<Event>): Emitter {
    if evs == [] then New(max) else Happened(EmitterAfter(max, evs[..|evs| - 1]), evs[|evs| - 1])
  }

  /** The cells emitted, one a tick. */
  function EmittedBy(max: nat, evs: seq<Event>): seq<Cell> {
    if evs == [] then []
    else
      var before, ev := evs[..|evs| - 1], evs[|evs| - 1];
      EmittedBy(max, before) + (if ev.Tick? then [Slot(EmitterAfter(max, before), ev.noise).1] else [])
  }

  /** The pre-formed cells that were not refused. */
  function TakenBy(max: nat, evs: seq<Event>): seq<Cell> {
    if evs == [] then []
    else
      var before, ev := evs[..|evs| - 1], evs[|evs| - 1];
      TakenBy(max, before) + (if ev.Offer? && !Full(EmitterAfter(max, before)) then [ev.cell] else [])
  }

  lemma {:induction false} FragmentCellsAppend(a: seq<Cell>, b: seq<Cell>)
    ensures FragmentCells(a + b) == FragmentCells(a) + FragmentCells(b)
  {
    if b == [] {
      assert a + b == a;
    } else {
      var before := b[..|b| - 1];
      FragmentCellsAppend(a, before);
      assert (a + b)[..|a + b| - 1] == a + before;
    }
  }

  lemma FragmentCellsOne(cell: Cell)
    ensures FragmentCells([cell]) == if Decode(cell).Ok? then [cell] else []
  {
    assert [cell][..0] == [];
  }

  /** A slot moves the first queued fragment, if there is one, from queue to wire. */
  lemma SlotConserves(e: Emitter, noise: Cell)
    ensures FragmentCells([Slot(e, noise).1]) + FragmentCells(Slot(e, noise).0.cells) == FragmentCells(e.cells)
  {
    hide Decode, DataCell, DummyCell;
    if e.cells != [] {
      FragmentCellsAppend([e.cells[0]], e.cells[1..]);
      assert e.cells == [e.cells[0]] + e.cells[1..];
    } else {
      CoverIsNotFragment(if e.queue != [] then e.queue[0] else [], noise);
      FragmentCellsOne(Slot(e, noise).1);
    }
  }

  lemma OfferConserves(out: seq<Cell>, taken: seq<Cell>, e: Emitter, cell: Cell)
    requires FragmentCells(out) + FragmentCells(e.cells) == FragmentCells(taken) && !Full(e)
    ensures FragmentCells(out) + FragmentCells(Offered(e, cell).cells) == FragmentCells(taken + [cell])
  {
    hide FragmentCells;
    FragmentCellsAppend(e.cells, [cell]);
    FragmentCellsAppend(taken, [cell]);
    Regroup(FragmentCells(out), FragmentCells(e.cells), FragmentCells([cell]));
  }

  lemma TickConserves(out: seq<Cell>, taken: seq<Cell>, e: Emitter, noise: Cell)
    requires FragmentCells(out) + FragmentCells(e.cells) == FragmentCells(taken)
    ensures FragmentCells(out + [Slot(e, noise).1]) + FragmentCells(Slot(e, noise).0.cells) == FragmentCells(taken)
  {
    hide FragmentCells, Slot;
    FragmentCellsAppend(out, [Slot(e, noise).1]);
    SlotConserves(e, noise);
    Regroup(FragmentCells(out), FragmentCells([Slot(e, noise).1]), FragmentCells(Slot(e, noise).0.cells));
  }

  lemma EventAdds(max: nat, evs: seq<Event>)
    requires evs != []
    ensures var before, ev := evs[..|evs| - 1], evs[|evs| - 1];
            var (e, out, taken) := (EmitterAfter(max, before), EmittedBy(max, before), TakenBy(max, before));
            && EmitterAfter(max, evs) == Happened(e, ev)
            && EmittedBy(max, evs) == (if ev.Tick? then out + [Slot(e, ev.noise).1] else out)
            && TakenBy(max, evs) == (if ev.Offer? && !Full(e) then taken + [ev.cell] else taken)
  {
    hide Slot;
    assert EmittedBy(max, evs[..|evs| - 1]) + [] == EmittedBy(max, evs[..|evs| - 1]);
    assert TakenBy(max, evs[..|evs| - 1]) + [] == TakenBy(max, evs[..|evs| - 1]);
  }

  /** Conservation: fragments emitted, then fragments queued, are the fragments taken, in order. */
  lemma {:induction false} FragmentsConserved(max: nat, evs: seq<Event>)
    ensures FragmentCells(EmittedBy(max, evs)) + FragmentCells(EmitterAfter(max, evs).cells)
         == FragmentCells(TakenBy(max, evs))
  {
    if evs != [] {
      hide FragmentCells, Slot, EmitterAfter, EmittedBy, TakenBy;
      var before, ev := evs[..|evs| - 1], evs[|evs| - 1];
      FragmentsConserved(max, before);
      EventAdds(max, evs);
      var e, out, taken := EmitterAfter(max, before), EmittedBy(max, before), TakenBy(max, before);
      match ev {
        case Offer(cell) =>
          if !Full(e) {
            OfferConserves(out, taken, e, cell);
          }
        case Tick(noise) =>
          TickConserves(out, taken, e, noise);
        case _ =>
      }
    }
  }

  lemma Regroup(a: seq<Cell>, b: seq<Cell>, c: seq<Cell>)
    ensures a + (b + c) == (a + b) + c
  {
  }

  // ---------------------------------------------------------------- backlog and counters

  /** Both queues together never hold more than the backlog limit; the tick counter is the number of cells
      emitted. */
  lemma {:induction false} BacklogBounded(max: nat, evs: seq<Event>)
    ensures var e := EmitterAfter(max, evs);
            e.maxBacklog == max && |e.cells| + |e.queue| <= max && e.tick == |EmittedBy(max, evs)|
  {
    hide DataCell, DummyCell;
    if evs != [] {
      BacklogBounded(max, evs[..|evs| - 1]);
    }
  }

  /** Something offered is turned away exactly when both queues together are at the limit, and only a
      payload that may be dropped then counts as dropped. */
  lemma TurnedAwayIff(e: Emitter, ev: Event)
    requires |e.cells| + |e.queue| <= e.maxBacklog && !ev.Tick?
    ensures var e' := Happened(e, ev);
            && (|e'.cells| + |e'.queue| == |e.cells| + |e.queue| <==> |e.cells| + |e.queue| == e.maxBacklog)
            && e'.dropped - e.dropped == (if ev.SayOrDrop? && |e.cells| + |e.queue| == e.maxBacklog then 1 else 0)
            && (|e.cells| + |e.queue| < e.maxBacklog ==>
                  && e'.cells == (if ev.Offer? then e.cells + [ev.cell] else e.cells)
                  && e'.queue == (if ev.Offer? then e.queue else e.queue + [ev.payload]))
  {
  }

  /** A slot takes at most one item and drops none. */
  lemma SlotTakesOne(e: Emitter, noise: Cell)
    ensures var e' := Slot(e, noise).0;
            && e'.dropped == e.dropped
            && |e'.cells| + |e'.queue| == (if e.cells == [] && e.queue == [] then 0 else |e.cells| + |e.queue| - 1)
  {
    hide DataCell, DummyCell;
  }

  // ---------------------------------------------------------------- timing

  /** The noise of the ticks, in order. */
  function Ticks(evs: seq<Event>): seq<Cell> {
    if evs == [] then [] else (if evs[0].Tick? then [evs[0].noise] else []) + Ticks(evs[1..])
  }

  /** What an emitter in state `e` emits over `evs`, one cell a tick. */
  function EmittedFrom(e: Emitter, evs: seq<Event>): (r: seq<Cell>)
    ensures |r| == |Ticks(evs)|
    decreases |evs|
  {
    if evs == [] then []
    else (if evs[0].Tick? then [Slot(e, evs[0].noise).1] else []) + EmittedFrom(Happened(e, evs[0]), evs[1..])
  }

  /** A pre-formed cell with `p` before it leaves at the tick `p` after the next, whatever else is queued. */
  lemma {:induction false} CellLeavesOnTime(e: Emitter, evs: seq<Event>, p: nat)
    requires p < |e.cells| && p < |Ticks(evs)|
    ensures EmittedFrom(e, evs)[p] == e.cells[p]
    decreases |evs|
  {
    if !evs[0].Tick? {
      assert Happened(e, evs[0]).cells[p] == e.cells[p];
      CellLeavesOnTime(Happened(e, evs[0]), evs[1..], p);
    } else if p > 0 {
      CellLeavesOnTime(Happened(e, evs[0]), evs[1..], p - 1);
    }
  }

  /** A payload waits for every pre-formed cell and the payloads before it, no longer and no less, as
      long as no new cell is offered. */
  lemma {:induction false} PayloadLeavesAfterCells(e: Emitter, evs: seq<Event>, p: nat)
    requires forall i :: 0 <= i < |evs| ==> !evs[i].Offer?
    requires p < |e.queue| && |e.cells| + p < |Ticks(evs)|
    ensures EmittedFrom(e, evs)[|e.cells| + p] == DataCell(e.queue[p], Ticks(evs)[|e.cells| + p])
    decreases |evs|
  {
    hide DataCell, Slot, Happened;
    var e' := Happened(e, evs[0]);
    NoOfferStep(e, evs[0]);
    if !evs[0].Tick? || e.cells != [] {
      PayloadLeavesAfterCells(e', evs[1..], p);
    } else if p > 0 {
      PayloadLeavesAfterCells(e', evs[1..], p - 1);
    }
  }

  lemma NoOfferStep(e: Emitter, ev: Event)
    requires !ev.Offer?
    ensures var e' := Happened(e, ev);
            if !ev.Tick? then e'.cells == e.cells && e.queue <= e'.queue
            else if e.cells != [] then e'.cells == e.cells[1..] && e'.queue == e.queue
            else
              && e'.cells == []
              && (e.queue != [] ==>
                    e'.queue == e.queue[1..] && Slot(e, ev.noise).1 == DataCell(e.queue[0], ev.noise))
  {
    hide DataCell, DummyCell;
  }

  // ---------------------------------------------------------------- delivery

  /** If the fragments taken are those of `ps`, packet after packet (the last one perhaps cut short),
      the receiver gets a prefix of `ps`; once the cell queue has drained, every packet whose
      fragments were all taken. */
  lemma PacketsDelivered(max: nat, evs: seq<Event>, ps: seq<PacketBytes>, ids: seq<PacketId>, m: nat)
    requires |ps| == |ids| && m <= SPHINX_FRAGMENT_COUNT * |ps|
    requires FragmentCells(TakenBy(max, evs)) == PacketCells(ps, ids)[..m]
    ensures var sent := |FragmentCells(EmittedBy(max, evs))|;
            && sent <= m
            && Yielded(EmittedBy(max, evs)) == ps[..sent / SPHINX_FRAGMENT_COUNT]
    ensures EmitterAfter(max, evs).cells == [] ==> Yielded(EmittedBy(max, evs)) == ps[..m / SPHINX_FRAGMENT_COUNT]
  {
    hide Yielded, PacketCells, Decode;
    FragmentsConserved(max, evs);
    PrefixDelivered(EmittedBy(max, evs), FragmentCells(EmitterAfter(max, evs).cells), ps, ids, m);
  }

  lemma PrefixDelivered(out: seq<Cell>, queued: seq<Cell>, ps: seq<PacketBytes>, ids: seq<PacketId>, m: nat)
    requires |ps| == |ids| && m <= SPHINX_FRAGMENT_COUNT * |ps|
    requires FragmentCells(out) + queued == PacketCells(ps, ids)[..m]
    ensures |FragmentCells(out)| + |queued| == m
    ensures Yielded(out) == ps[..|FragmentCells(out)| / SPHINX_FRAGMENT_COUNT]
  {
    hide Yielded, PacketCells, Decode, FragmentCells;
    var k := |FragmentCells(out)|;
    assert FragmentCells(out) == (FragmentCells(out) + queued)[..k] == PacketCells(ps, ids)[..k];
    NoiseIgnored(out);
    StreamYields(ps, ids, k);
  }
}

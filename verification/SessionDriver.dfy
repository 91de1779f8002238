/** A paced session: the sender's side of the bounded channel, and the driver loop that feeds the
    emitter, one select branch a method. The step functions say what each branch does. */
module SessionDriver {
  import opened Bytes
  import opened Fragments
  import opened Emitter

  datatype SendError = EmitterBacklogFull(maxBacklog: nat) | SessionClosed

  /** Everything the two sides share or the driver keeps. `coverDone` and `pendingSeen` are the watch
      values; times are in any fixed unit. */
  datatype Core = Core(
    emitter: Emitter,
    channel: seq<Cell>,
    running: bool,
    coverDone: bool,
    pendingSeen: nat,
    deadline: Option<nat>,
    sawReal: bool)

  function Started(max: nat): Core {
    Core(New(max), [], true, false, 0, None, false)
  }

  // ---------------------------------------------------------------- what each step does

  predicate CanSend(c: Core) {
    c.running && |c.channel| < c.emitter.maxBacklog
  }

  /** `try_send` of one cell. */
  function TrySent(c: Core, cell: Cell): Core {
    if CanSend(c) then c.(channel := c.channel + [cell]) else c
  }

  /** The driver takes the oldest cell from the channel. */
  function Received(c: Core): Core
    requires c.channel != []
  {
    var e := if Full(c.emitter) then c.emitter.(dropped := c.emitter.dropped + 1) else Offered(c.emitter, c.channel[0]);
    c.(emitter := e, channel := c.channel[1..], deadline := None, sawReal := true, coverDone := false,
       pendingSeen := Pending(e))
  }

  /** A tick, with the clock read `now1` then `now2`, and `sendOk` the transport's answer. */
  function Ticked(c: Core, cover: nat, noise: Cell, now1: nat, now2: nat, sendOk: bool): (Core, Cell) {
    var (e, cell) := Slot(c.emitter, noise);
    var c1 := c.(emitter := e);
    if !sendOk then (c1.(running := false), cell)
    else
      var c2 := c1.(pendingSeen := Pending(e));
      var c3 := if Pending(e) == 0 && c2.sawReal then
                  if cover == 0 then c2.(coverDone := true, sawReal := false)
                  else if c2.deadline.None? then c2.(deadline := Some(now1 + cover)) else c2
                else c2;
      var c4 := if c3.deadline.Some? && now2 >= c3.deadline.value then
                  c3.(coverDone := true, deadline := None, sawReal := false)
                else c3;
      (c4, cell)
  }

  // ---------------------------------------------------------------- the two sides

  /** The channel and the watch values, shared by session and driver. */
  class Link {
    const capacity: nat
    var channel: seq<Cell>
    var receiverAlive: bool
    var coverDone: bool
    var pendingEmissions: nat

    constructor (capacity: nat)
      ensures this.capacity == capacity && channel == [] && receiverAlive && !coverDone && pendingEmissions == 0
    {
      this.capacity := capacity;
      channel, receiverAlive, coverDone, pendingEmissions := [], true, false, 0;
    }

    method TrySend(cell: Cell) returns (r: Result<(), SendError>)
      modifies this`channel
      ensures !receiverAlive ==> r == Err(SessionClosed) && channel == old(channel)
      ensures receiverAlive && |old(channel)| >= capacity ==>
                r == Err(EmitterBacklogFull(capacity)) && channel == old(channel)
      ensures receiverAlive && |old(channel)| < capacity ==> r == Ok(()) && channel == old(channel) + [cell]
    {
      if !receiverAlive {
        return Err(SessionClosed);
      }
      if |channel| >= capacity {
        return Err(EmitterBacklogFull(capacity));
      }
      channel := channel + [cell];
      return Ok(());
    }
  }

  class PacedSession {
    const link: Link

    constructor (link: Link)
      ensures this.link == link
    {
      this.link := link;
    }

    /** Sends the cells of one packet, stopping at the first that is refused: run without the driver
        in between, as many as the channel has room for get in, and they stay in. */
    method EnqueueFragments(cells: seq<Cell>) returns (r: Result<(), SendError>)
      requires |link.channel| <= link.capacity
      modifies link
      ensures !link.coverDone && link.receiverAlive == old(link.receiverAlive)
      ensures link.pendingEmissions == old(link.pendingEmissions)
      ensures var room := if link.receiverAlive then link.capacity - |old(link.channel)| else 0;
              if |cells| <= room then r == Ok(()) && link.channel == old(link.channel) + cells
              else
                && link.channel == old(link.channel) + cells[..room]
                && r == Err(if link.receiverAlive then EmitterBacklogFull(link.capacity) else SessionClosed)
    {
      link.coverDone := false;
      for i := 0 to |cells|
        invariant !link.coverDone && link.receiverAlive == old(link.receiverAlive)
        invariant link.pendingEmissions == old(link.pendingEmissions)
        invariant link.channel == old(link.channel) + cells[..i] && |link.channel| <= link.capacity
        invariant i > 0 ==> link.receiverAlive
      {
        var sent := link.TrySend(cells[i]);
        if sent.Err? {
          return Err(sent.error);
        }
      }
      assert cells[..|cells|] == cells;
      return Ok(());
    }
  }

  class Driver {
    const emitter: ConstantRateEmitter
    const link: Link
    const coverAfterSend: nat
    var coverDeadline: Option<nat>
    var sawRealSinceCover: bool
    var running: bool

    ghost function Abs(): Core
      reads this, emitter, link
    {
      Core(emitter.Abs(), link.channel, running, link.coverDone, link.pendingEmissions, coverDeadline,
           sawRealSinceCover)
    }

    ghost predicate Valid()
      reads this, emitter, link
    {
      link.receiverAlive == running && link.capacity == emitter.maxBacklog
    }

    constructor (emitter: ConstantRateEmitter, link: Link, coverAfterSend: nat)
      requires link.capacity == emitter.maxBacklog && link.receiverAlive
      requires emitter.Abs() == New(emitter.maxBacklog)
      requires link.channel == [] && !link.coverDone && link.pendingEmissions == 0
      ensures this.emitter == emitter && this.link == link && this.coverAfterSend == coverAfterSend
      ensures Valid() && Abs() == Started(emitter.maxBacklog)
    {
      this.emitter, this.link, this.coverAfterSend := emitter, link, coverAfterSend;
      coverDeadline, sawRealSinceCover, running := None, false, true;
    }

    method SyncPending()
      modifies link`pendingEmissions
      ensures link.pendingEmissions == Pending(emitter.Abs())
    {
      link.pendingEmissions := emitter.PendingEmissions();
    }

    /** `enqueue_rx.recv()` gave a cell. */
    method OnRecv()
      requires Valid() && running && link.channel != []
      modifies this, emitter, link
      ensures Valid() && Abs() == Received(old(Abs()))
    {
      var cell := link.channel[0];
      link.channel := link.channel[1..];
      var r := emitter.EnqueueCell(cell);
      if r.Err? {
        emitter.NoteDroppedEnqueue();
      }
      coverDeadline := None;
      sawRealSinceCover := true;
      link.coverDone := false;
      SyncPending();
    }

    /** The interval fired. */
    method OnTick(noise: Cell, now1: nat, now2: nat, sendOk: bool) returns (cell: Cell)
      requires Valid() && running && now1 <= now2
      modifies this, emitter, link
      ensures Valid() && (Abs(), cell) == Ticked(old(Abs()), coverAfterSend, noise, now1, now2, sendOk)
    {
      var slot;
      slot, cell := emitter.NextCell(noise);
      if !sendOk {
        running := false;
        link.receiverAlive := false;
        return;
      }
      SyncPending();
      var pending := emitter.PendingEmissions();
      if pending == 0 && sawRealSinceCover {
        if coverAfterSend == 0 {
          link.coverDone := true;
          sawRealSinceCover := false;
        } else if coverDeadline.None? {
          coverDeadline := Some(now1 + coverAfterSend);
        }
      }
      if coverDeadline.Some? {
        if now2 >= coverDeadline.value {
          link.coverDone := true;
          coverDeadline := None;
          sawRealSinceCover := false;
        }
      }
    }

    /** `shutdown.changed()` resolved, or every sender is gone and the channel is empty. */
    method OnShutdown(changedOk: bool, value: bool)
      requires Valid() && running
      modifies this, link
      ensures Valid() && Abs() == old(Abs()).(running := !(changedOk && value))
    {
      if changedOk && value {
        running := false;
        link.receiverAlive := false;
      }
    }
  }

  /** `start_with_transport`: a session and a running driver on one new channel, which like every bounded
      channel needs room for a cell. */
  method StartWithTransport(maxBacklog: nat, coverAfterSend: nat) returns (session: PacedSession, driver: Driver)
    requires maxBacklog > 0
    ensures fresh(session) && fresh(session.link) && fresh(driver) && fresh(driver.emitter)
    ensures session.link == driver.link && session.link.capacity == maxBacklog
    ensures driver.coverAfterSend == coverAfterSend
    ensures driver.Valid() && driver.running && driver.Abs() == Started(maxBacklog)
  {
    var link := new Link(maxBacklog);
    var emitter := new ConstantRateEmitter(maxBacklog);
    assert emitter.Abs().maxBacklog == maxBacklog;
    driver := new Driver(emitter, link, coverAfterSend);
    session := new PacedSession(link);
  }

  /** `try_send` of several cells, one after the other. */
  function AllSent(c: Core, cells: seq<Cell>): Core {
    if cells == [] then c else TrySent(AllSent(c, cells[..|cells| - 1]), cells[|cells| - 1])
  }

  lemma {:induction false} AllSentIs(c: Core, cells: seq<Cell>)
    requires |c.channel| <= c.emitter.maxBacklog
    ensures var room := if c.running then c.emitter.maxBacklog - |c.channel| else 0;
            AllSent(c, cells) == c.(channel := c.channel + cells[..if |cells| <= room then |cells| else room])
  {
    if cells != [] {
      var before := cells[..|cells| - 1];
      AllSentIs(c, before);
      var room := if c.running then c.emitter.maxBacklog - |c.channel| else 0;
      if |cells| <= room {
        assert c.channel + before + [cells[|before|]] == c.channel + cells && cells[..|cells|] == cells;
      } else {
        assert before[..room] == cells[..room];
      }
    } else {
      assert c.channel + [] == c.channel;
    }
  }

  /** A session's sending, seen from its driver: the cover signal withdrawn, then one attempt a cell. It
      succeeds exactly when every attempt does. */
  method EnqueueSeenByDriver(session: PacedSession, driver: Driver, cells: seq<Cell>) returns (r: Result<(), SendError>)
    requires driver.Valid() && session.link == driver.link && |driver.link.channel| <= driver.link.capacity
    modifies driver.link
    ensures driver.Valid()
    ensures driver.Abs() == AllSent(old(driver.Abs()).(coverDone := false), cells)
    ensures r.Ok? <==> driver.link.channel == old(driver.link.channel) + cells
  {
    ghost var c := driver.Abs().(coverDone := false);
    AllSentIs(c, cells);
    r := session.EnqueueFragments(cells);
    assert cells[..|cells|] == cells;
  }
}

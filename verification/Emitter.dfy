/** The constant-rate emitter: one cell a slot, the oldest queued real cell if there is one, else cover. */
module Emitter {
  import opened Bytes
  import opened Fragments

  const MAX_CELL_PAYLOAD := 509

  datatype Emitter = Emitter(maxBacklog: nat, queue: seq<seq<byte>>, cells: seq<Cell>, tick: nat, dropped: nat)

  datatype BacklogFullError = BacklogFullError(maxBacklog: nat)

  function New(maxBacklog: nat): Emitter {
    Emitter(maxBacklog, [], [], 0, 0)
  }

  function Pending(e: Emitter): nat {
    |e.cells| + |e.queue|
  }

  predicate Full(e: Emitter) {
    Pending(e) >= e.maxBacklog
  }

  // ---------------------------------------------------------------- wire cells

  function CopyLen(payload: seq<byte>): nat {
    if |payload| < MAX_CELL_PAYLOAD then |payload| else MAX_CELL_PAYLOAD
  }

  function WireLen(payload: seq<byte>): nat {
    if |payload| <= 65535 then |payload| else 65535
  }

  /** `n.to_be_bytes()` for a u16. */
  function BigEndian(n: nat): (byte, byte)
    requires n < 0x1_0000
  {
    ((n / 256) as byte, (n % 256) as byte)
  }

  /** A data cell: command, big-endian length, payload, and random bytes to the end. */
  function DataCell(payload: seq<byte>, noise: Cell): Cell {
    [3 as byte, BigEndian(WireLen(payload)).0, BigEndian(WireLen(payload)).1]
    + payload[..CopyLen(payload)] + noise[3 + CopyLen(payload)..]
  }

  function DummyCell(noise: Cell): Cell {
    [4 as byte] + noise[1..]
  }

  lemma CoverIsNotFragment(payload: seq<byte>, noise: Cell)
    ensures Decode(DataCell(payload, noise)).Err? && Decode(DummyCell(noise)).Err?
  {
    assert DataCell(payload, noise)[0] == 3 && DummyCell(noise)[0] == 4;
  }

  /** A receiver reads back the command, the payload's length up to 65535 and its first 509 bytes; the rest
      of the cell is noise. */
  lemma DataCellReads(payload: seq<byte>, noise: Cell)
    ensures var cell := DataCell(payload, noise);
            var n := if |payload| < 509 then |payload| else 509;
            && CommandFromU8(cell[0]) == Some(Data)
            && 256 * (cell[1] as nat) + cell[2] as nat == (if |payload| > 65535 then 65535 else |payload|)
            && cell[3..3 + n] == payload[..n] && cell[3 + n..] == noise[3 + n..]
  {
    ByteOf(WireLen(payload) / 256);
    ByteOf(WireLen(payload) % 256);
    var cell, n := DataCell(payload, noise), CopyLen(payload);
    assert cell[3..3 + n] == payload[..n] && cell[3 + n..] == noise[3 + n..];
  }

  lemma DummyCellReads(noise: Cell)
    ensures CommandFromU8(DummyCell(noise)[0]) == Some(Drop) && DummyCell(noise)[1..] == noise[1..]
  {
  }

  method EncodeDataCell(payload: seq<byte>, noise: Cell) returns (cell: Cell)
    ensures cell == DataCell(payload, noise)
  {
    hide Splice, Zeros, BigEndian;
    var buf := ToArray(Zeros(CELL_LEN));
    buf[0] := 3;
    var len := if |payload| <= 65535 then |payload| else 65535;
    buf[1], buf[2] := BigEndian(len).0, BigEndian(len).1;
    var copyLen := if |payload| < MAX_CELL_PAYLOAD then |payload| else MAX_CELL_PAYLOAD;
    ghost var head := buf[..];
    CopyInto(buf, 3, payload[..copyLen]);
    CopyInto(buf, 3 + copyLen, noise[3 + copyLen..]);
    HeadKept(head, payload[..copyLen], noise[3 + copyLen..]);
    cell := buf[..];
  }

  lemma HeadKept(buf: Cell, data: seq<byte>, tail: seq<byte>)
    requires 3 + |data| + |tail| == CELL_LEN
    ensures Splice(Splice(buf, 3, data), 3 + |data|, tail) == [buf[0], buf[1], buf[2]] + data + tail
  {
  }

  method EncodeDummyCell(noise: Cell) returns (cell: Cell)
    ensures cell == DummyCell(noise)
  {
    var buf := ToArray(Zeros(CELL_LEN));
    buf[0] := 4;
    CopyInto(buf, 1, noise[1..]);
    cell := buf[..];
  }

  // ---------------------------------------------------------------- what each call does

  function Offered(e: Emitter, cell: Cell): Emitter {
    if Full(e) then e else e.(cells := e.cells + [cell])
  }

  function Said(e: Emitter, payload: seq<byte>): Emitter {
    if Full(e) then e else e.(queue := e.queue + [payload])
  }

  function SaidOrDropped(e: Emitter, payload: seq<byte>): Emitter {
    if Full(e) then e.(dropped := e.dropped + 1) else e.(queue := e.queue + [payload])
  }

  /** One slot. Pre-formed cells go before payloads; `noise` is what the generator would draw. */
  function Slot(e: Emitter, noise: Cell): (Emitter, Cell) {
    if e.cells != [] then (e.(cells := e.cells[1..], tick := e.tick + 1), e.cells[0])
    else if e.queue != [] then (e.(queue := e.queue[1..], tick := e.tick + 1), DataCell(e.queue[0], noise))
    else (e.(tick := e.tick + 1), DummyCell(noise))
  }

  class ConstantRateEmitter {
    const maxBacklog: nat
    var queue: seq<seq<byte>>
    var cellQueue: seq<Cell>
    var tick: nat
    var droppedEnqueueCount: nat

    ghost function Abs(): Emitter
      reads this
    {
      Emitter(maxBacklog, queue, cellQueue, tick, droppedEnqueueCount)
    }

    constructor (maxBacklog: nat)
      ensures Abs() == New(maxBacklog)
    {
      this.maxBacklog := maxBacklog;
      queue, cellQueue, tick, droppedEnqueueCount := [], [], 0, 0;
    }

    method PendingEmissions() returns (n: nat)
      ensures n == Pending(Abs())
    {
      n := |cellQueue| + |queue|;
    }

    method TryPushReal() returns (r: Result<(), BacklogFullError>)
      ensures r == if Full(Abs()) then Err(BacklogFullError(maxBacklog)) else Ok(())
    {
      var pending := PendingEmissions();
      r := if pending >= maxBacklog then Err(BacklogFullError(maxBacklog)) else Ok(());
    }

    method Enqueue(payload: seq<byte>) returns (r: Result<(), BacklogFullError>)
      modifies this
      ensures Abs() == Said(old(Abs()), payload)
      ensures r == if Full(old(Abs())) then Err(BacklogFullError(maxBacklog)) else Ok(())
    {
      r := TryPushReal();
      if r.Ok? {
        queue := queue + [payload];
      }
    }

    method EnqueueCell(cell: Cell) returns (r: Result<(), BacklogFullError>)
      modifies this
      ensures Abs() == Offered(old(Abs()), cell)
      ensures r == if Full(old(Abs())) then Err(BacklogFullError(maxBacklog)) else Ok(())
    {
      r := TryPushReal();
      if r.Ok? {
        cellQueue := cellQueue + [cell];
      }
    }

    method EnqueueDropNewest(payload: seq<byte>)
      modifies this
      ensures Abs() == SaidOrDropped(old(Abs()), payload)
    {
      var pending := PendingEmissions();
      if pending >= maxBacklog {
        droppedEnqueueCount := droppedEnqueueCount + 1;
        return;
      }
      queue := queue + [payload];
    }

    method NoteDroppedEnqueue()
      modifies this
      ensures Abs() == old(Abs()).(dropped := old(Abs()).dropped + 1)
    {
      droppedEnqueueCount := droppedEnqueueCount + 1;
    }

    method NextCell(noise: Cell) returns (slot: nat, cell: Cell)
      modifies this
      ensures slot == old(tick) && (Abs(), cell) == Slot(old(Abs()), noise)
    {
      slot := tick;
      if cellQueue != [] {
        cell := cellQueue[0];
        cellQueue := cellQueue[1..];
      } else if queue != [] {
        cell := EncodeDataCell(queue[0], noise);
        queue := queue[1..];
      } else {
        cell := EncodeDummyCell(noise);
      }
      tick := tick + 1;
    }
  }
}

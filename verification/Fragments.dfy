/** Sphinx packets as 18 link cells and back: the cell codec, the in-order reassembler, and what a
    reassembler makes of any stream of cells. */
module Fragments {
  import opened Bytes
  import opened SphinxOnion

  const CELL_LEN := 512
  const FRAGMENT_HEADER_LEN := 12
  const FRAGMENT_PAYLOAD_LEN := 500
  const SPHINX_FRAGMENT_COUNT := 18
  const LAST_FRAGMENT_DATA_LEN := 12

  type Cell = b: seq<byte> | |b| == CELL_LEN witness seq(CELL_LEN, _ => 0)
  type PacketId = b: seq<byte> | |b| == 8 witness seq(8, _ => 0)
  type SlotBytes = b: seq<byte> | |b| == FRAGMENT_PAYLOAD_LEN witness seq(FRAGMENT_PAYLOAD_LEN, _ => 0)

  datatype Command = Create | Extend | Data | Drop | LoopToSelf | SphinxFragment | PeerHealthAdvert

  function CommandFromU8(b: byte): Option<Command> {
    if b == 1 then Some(Create)
    else if b == 2 then Some(Extend)
    else if b == 3 then Some(Data)
    else if b == 4 then Some(Drop)
    else if b == 5 then Some(LoopToSelf)
    else if b == 6 then Some(SphinxFragment)
    else if b == 7 then Some(PeerHealthAdvert)
    else None
  }

  datatype FragmentError =
    | Malformed(what: string)
    | Incomplete(expected: nat, got: nat)
    | OutOfOrder(expectedIndex: nat, gotIndex: nat)
    | PacketIdMismatch

  /** The decoded fields of one fragment cell. */
  datatype Fragment = Fragment(id: PacketId, index: nat, payload: SlotBytes)

  function Zeros(n: nat): (r: seq<byte>)
    ensures |r| == n
  {
    seq(n, _ => 0)
  }

  // ---------------------------------------------------------------- cell codec

  /** How many packet bytes fragment `index` carries. */
  function DataLen(index: nat): nat {
    if index == SPHINX_FRAGMENT_COUNT - 1 then LAST_FRAGMENT_DATA_LEN else FRAGMENT_PAYLOAD_LEN
  }

  /** Bytes of the packet that fragment `index` carries. */
  function Chunk(packet: PacketBytes, index: nat): (r: seq<byte>)
    requires index < SPHINX_FRAGMENT_COUNT
    ensures |r| == DataLen(index)
  {
    packet[index * FRAGMENT_PAYLOAD_LEN..index * FRAGMENT_PAYLOAD_LEN + DataLen(index)]
  }

  /** A cell with the given fields, laid out side by side. */
  function Assembled(f: Fragment): Cell
    requires f.index < SPHINX_FRAGMENT_COUNT
  {
    [6 as byte, f.index as byte] + f.id + Zeros(2) + f.payload
  }

  function FragmentOf(packet: PacketBytes, id: PacketId, index: nat): Fragment
    requires index < SPHINX_FRAGMENT_COUNT
  {
    Fragment(id, index, Chunk(packet, index) + Zeros(FRAGMENT_PAYLOAD_LEN - DataLen(index)))
  }

  function Decode(cell: Cell): (r: Result<Fragment, FragmentError>)
    ensures r.Ok? ==> r.value.index < SPHINX_FRAGMENT_COUNT
  {
    var command := CommandFromU8(cell[0]);
    if command.None? then Err(FragmentError.Malformed("command"))
    else if command.value != SphinxFragment then Err(FragmentError.Malformed("not a sphinx fragment"))
    else if cell[1] as nat >= SPHINX_FRAGMENT_COUNT then Err(FragmentError.Malformed("fragment index"))
    else if cell[10..12] != Zeros(2) then Err(FragmentError.Malformed("reserved bytes"))
    else Ok(Fragment(cell[2..10], cell[1] as nat, cell[12..]))
  }

  /** A cell decodes to a fragment exactly when it is that fragment's cell. */
  lemma DecodeIffAssembled(cell: Cell, f: Fragment)
    requires f.index < SPHINX_FRAGMENT_COUNT
    ensures Decode(cell) == Ok(f) <==> cell == Assembled(f)
  {
    if cell == Assembled(f) {
      DecodeAssembled(f);
    } else if Decode(cell) == Ok(f) {
      AssembledDecode(cell);
    }
  }

  /** Which cells do not decode, and what is wrong with them. */
  lemma DecodeComplains(cell: Cell)
    ensures var r, command := Decode(cell), cell[0] as int;
            && (r == Err(FragmentError.Malformed("command")) <==> !(1 <= command <= 7))
            && (r == Err(FragmentError.Malformed("not a sphinx fragment")) <==> 1 <= command <= 7 && command != 6)
            && (r == Err(FragmentError.Malformed("fragment index")) <==> command == 6 && cell[1] as int > 17)
            && (r == Err(FragmentError.Malformed("reserved bytes")) <==>
                  command == 6 && cell[1] as int <= 17 && !(cell[10] == 0 && cell[11] == 0))
            && (r.Ok? <==> command == 6 && cell[1] as int <= 17 && cell[10] == 0 && cell[11] == 0)
  {
    CommandBytes(cell[0]);
    assert cell[10..12] == [cell[10], cell[11]] && Zeros(2) == [0, 0];
    var texts := ["command", "not a sphinx fragment", "fragment index", "reserved bytes"];
    assert |texts[0]| == 7 && |texts[1]| == 21 && |texts[2]| == 14 && |texts[3]| == 14;
    assert texts[2][0] == 'f' && texts[3][0] == 'r';
  }

  lemma CommandBytes(b: byte)
    ensures CommandFromU8(b).Some? <==> 1 <= b as int <= 7
    ensures CommandFromU8(b) == Some(SphinxFragment) <==> b as int == 6
  {
  }

  lemma DecodeAssembled(f: Fragment)
    requires f.index < SPHINX_FRAGMENT_COUNT
    ensures Decode(Assembled(f)) == Ok(f)
  {
    ByteOf(f.index);
    var made := Assembled(f);
    assert made[2..10] == f.id && made[10..12] == Zeros(2) && made[12..] == f.payload;
  }

  lemma AssembledDecode(cell: Cell)
    requires Decode(cell).Ok?
    ensures cell == Assembled(Decode(cell).value)
  {
    ByteBack(cell[1]);
    assert cell == cell[..2] + cell[2..10] + cell[10..12] + cell[12..];
    assert cell[..2] == [cell[0], cell[1]];
  }

  method EncodeFragmentCell(id: PacketId, index: nat, packet: PacketBytes) returns (cell: Cell)
    requires index < SPHINX_FRAGMENT_COUNT
    ensures cell == Assembled(FragmentOf(packet, id, index))
  {
    hide Splice, Zeros;
    var buf := ToArray(Zeros(CELL_LEN));
    buf[0] := 6;
    buf[1] := index as byte;
    assert buf[..] == Zeros(CELL_LEN)[0 := 6][1 := index as byte];
    CopyInto(buf, 2, id);
    var srcOff := index * FRAGMENT_PAYLOAD_LEN;
    var copyLen := if index == SPHINX_FRAGMENT_COUNT - 1 then LAST_FRAGMENT_DATA_LEN else FRAGMENT_PAYLOAD_LEN;
    CopyInto(buf, FRAGMENT_HEADER_LEN, packet[srcOff..srcOff + copyLen]);
    LaidOut(packet, id, index);
    cell := buf[..];
  }

  lemma LaidOut(packet: PacketBytes, id: PacketId, index: nat)
    requires index < SPHINX_FRAGMENT_COUNT
    ensures var head := Splice(Zeros(CELL_LEN)[0 := 6][1 := index as byte], 2, id);
            Splice(head, FRAGMENT_HEADER_LEN, Chunk(packet, index)) == Assembled(FragmentOf(packet, id, index))
  {
  }

  // ---------------------------------------------------------------- the reassembler

  datatype State = State(expected: nat, id: Option<PacketId>, buf: PacketBytes)

  const Fresh := State(0, None, Zeros(SPHINX_PACKET_LEN))

  type PushResult = Result<Option<PacketBytes>, FragmentError>

  /** Accepting one cell: the new state and the answer. A cell that decodes but does not fit is
      refused after its id has been noted, if none was. */
  function Pushed(s: State, cell: Cell): (State, PushResult)
    requires s.expected < SPHINX_FRAGMENT_COUNT
  {
    match Decode(cell)
    case Err(e) => (s, Err(e))
    case Ok(f) =>
      if s.id.Some? && s.id.value != f.id then (s, Err(PacketIdMismatch))
      else if f.index != s.expected then (s.(id := Some(f.id)), Err(OutOfOrder(s.expected, f.index)))
      else
        var buf := Splice(s.buf, f.index * FRAGMENT_PAYLOAD_LEN, f.payload[..DataLen(f.index)]);
        if s.expected + 1 == SPHINX_FRAGMENT_COUNT then (Fresh, Ok(Some(buf)))
        else (State(s.expected + 1, Some(f.id), buf), Ok(None))
  }

  class SphinxReassembler {
    var expectedIndex: nat
    var packetId: Option<PacketId>
    const buf: array<byte>

    ghost predicate Valid()
      reads this, buf
    {
      expectedIndex < SPHINX_FRAGMENT_COUNT && buf.Length == SPHINX_PACKET_LEN
    }

    ghost function Abs(): State
      requires Valid()
      reads this, buf
    {
      State(expectedIndex, packetId, buf[..])
    }

    constructor ()
      ensures Valid() && fresh(buf) && Abs() == Fresh
    {
      expectedIndex, packetId := 0, None;
      buf := new byte[SPHINX_PACKET_LEN](_ => 0);
    }

    method Push(cell: Cell) returns (r: PushResult)
      requires Valid()
      modifies this, buf
      ensures Valid()
      ensures (Abs(), r) == Pushed(old(Abs()), cell)
    {
      var decoded := Decode(cell);
      if decoded.Err? {
        return Err(decoded.error);
      }
      var f := decoded.value;
      if packetId.Some? {
        if packetId.value != f.id {
          return Err(PacketIdMismatch);
        }
      } else {
        packetId := Some(f.id);
      }
      if f.index != expectedIndex {
        return Err(OutOfOrder(expectedIndex, f.index));
      }
      var destOff := f.index * FRAGMENT_PAYLOAD_LEN;
      var copyLen := if f.index == SPHINX_FRAGMENT_COUNT - 1 then LAST_FRAGMENT_DATA_LEN else FRAGMENT_PAYLOAD_LEN;
      CopyInto(buf, destOff, f.payload[..copyLen]);
      expectedIndex := expectedIndex + 1;
      if expectedIndex == SPHINX_FRAGMENT_COUNT {
        var packet := buf[..];
        Reset();
        return Ok(Some(packet));
      }
      return Ok(None);
    }

    method Reset()
      requires buf.Length == SPHINX_PACKET_LEN
      modifies this, buf
      ensures Valid() && Abs() == Fresh
    {
      expectedIndex, packetId := 0, None;
      forall i | 0 <= i < buf.Length {
        buf[i] := 0;
      }
    }
  }
}

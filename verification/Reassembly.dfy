/** What the reassembler makes of any stream of cells: the packets it yields are made of exactly the
    fragments it accepted, cutting and reassembling are inverse, and a stream that carries packets in
    order yields those packets in order. */
module Reassembly {
  import opened Bytes
  import opened SphinxOnion
  import opened Fragments

  /** The state after a fresh reassembler was pushed `cells`. */
  function After(cells: seq<Cell>): (s: State)
    ensures s.expected < SPHINX_FRAGMENT_COUNT
  {
    if cells == [] then Fresh else Pushed(After(cells[..|cells| - 1]), cells[|cells| - 1]).0
  }

  /** The answer to cell `i` of the stream. */
  function Answer(cells: seq<Cell>, i: nat): PushResult
    requires i < |cells|
  {
    Pushed(After(cells[..i]), cells[i]).1
  }

  /** `cell` carries chunk `k` of `packet`; the bytes of its payload past the chunk do not matter. */
  ghost predicate Carries(cell: Cell, packet: PacketBytes, id: PacketId, k: nat)
    requires k < SPHINX_FRAGMENT_COUNT
  {
    && Decode(cell).Ok?
    && Decode(cell).value.id == id && Decode(cell).value.index == k
    && Decode(cell).value.payload[..DataLen(k)] == Chunk(packet, k)
  }

  /** Carrying a chunk means agreeing with the encoded cell on header and data. */
  lemma CarriesIff(cell: Cell, packet: PacketBytes, id: PacketId, k: nat)
    requires k < SPHINX_FRAGMENT_COUNT
    ensures Carries(cell, packet, id, k)
       <==> cell[..FRAGMENT_HEADER_LEN + DataLen(k)]
              == Assembled(FragmentOf(packet, id, k))[..FRAGMENT_HEADER_LEN + DataLen(k)]
  {
    var made := Assembled(FragmentOf(packet, id, k));
    var n := FRAGMENT_HEADER_LEN + DataLen(k);
    DecodeAssembled(FragmentOf(packet, id, k));
    if Decode(cell).Ok? {
      AssembledDecode(cell);
    }
    if cell[..n] == made[..n] {
      SamePrefix(cell, made, n);
    }
  }

  lemma SamePrefix(a: Cell, b: Cell, n: nat)
    requires FRAGMENT_HEADER_LEN <= n <= CELL_LEN && a[..n] == b[..n]
    requires Decode(b).Ok?
    ensures Decode(a).Ok? && Decode(a).value.id == Decode(b).value.id && Decode(a).value.index == Decode(b).value.index
    ensures Decode(a).value.payload[..n - FRAGMENT_HEADER_LEN] == Decode(b).value.payload[..n - FRAGMENT_HEADER_LEN]
  {
    assert forall i :: 0 <= i < n ==> a[i] == a[..n][i] == b[..n][i] == b[i];
  }

  // ---------------------------------------------------------------- soundness

  /** Where the cells accepted since the last completed packet stand in the stream. */
  function AcceptedAt(cells: seq<Cell>): seq<nat> {
    if cells == [] then []
    else
      var before := cells[..|cells| - 1];
      match Pushed(After(before), cells[|cells| - 1]).1
      case Err(_) => AcceptedAt(before)
      case Ok(None) => AcceptedAt(before) + [|before|]
      case Ok(Some(_)) => []
  }

  /** Up to where the stream has gone into completed packets. */
  function DoneUpTo(cells: seq<Cell>): (d: nat)
    ensures d <= |cells|
  {
    if cells == [] then 0
    else if Pushed(After(cells[..|cells| - 1]), cells[|cells| - 1]).1.Ok?
            && Pushed(After(cells[..|cells| - 1]), cells[|cells| - 1]).1.value.Some? then |cells|
    else DoneUpTo(cells[..|cells| - 1])
  }

  /** Since the last completed packet the positions `at` hold fragments 0, 1, .. of one packet whose
      data is in `buf`, in stream order. */
  ghost predicate Collects(cells: seq<Cell>, at: seq<nat>, id: PacketId, buf: PacketBytes) {
    && |at| <= SPHINX_FRAGMENT_COUNT
    && (forall i, j :: 0 <= i < j < |at| ==> at[i] < at[j])
    && (forall i :: 0 <= i < |at| ==> at[i] < |cells| && Carries(cells[at[i]], buf, id, i))
  }

  lemma {:induction false} AcceptedCollects(cells: seq<Cell>)
    ensures |AcceptedAt(cells)| == After(cells).expected
    ensures AcceptedAt(cells) != [] ==>
              After(cells).id.Some? && Collects(cells, AcceptedAt(cells), After(cells).id.value, After(cells).buf)
  {
    if cells != [] {
      hide Pushed, Splice, Collects;
      var before, cell := cells[..|cells| - 1], cells[|cells| - 1];
      AcceptedCollects(before);
      PushCases(After(before), cell);
      assert before + [cell] == cells;
      if Pushed(After(before), cell).1.Ok? {
        AcceptedOneMore(before, cell);
      } else if AcceptedAt(before) != [] {
        CollectsLonger(before, cell, AcceptedAt(before), After(before).id.value, After(before).buf);
      }
    }
  }

  lemma CollectsLonger(cells: seq<Cell>, cell: Cell, at: seq<nat>, id: PacketId, buf: PacketBytes)
    requires Collects(cells, at, id, buf)
    ensures Collects(cells + [cell], at, id, buf)
  {
    hide Carries;
  }

  /** The accepted positions are exactly those, since the last completed packet, that were not refused. */
  lemma {:induction false} AcceptedIffOk(cells: seq<Cell>, j: nat)
    requires j < |cells|
    ensures j in AcceptedAt(cells) <==> DoneUpTo(cells) <= j && Answer(cells, j).Ok?
    ensures forall i :: i in AcceptedAt(cells) ==> i < |cells|
  {
    hide Pushed;
    var before := cells[..|cells| - 1];
    if j < |before| {
      AcceptedIffOk(before, j);
      assert before[..j] == cells[..j];
    } else if j > 0 {
      AcceptedIffOk(before, j - 1);
    }
  }

  lemma PushCases(s: State, cell: Cell)
    requires s.expected < SPHINX_FRAGMENT_COUNT
    ensures var (s', r) := Pushed(s, cell);
            && (r.Err? ==> s' == s || (s.id.None? && s' == s.(id := s'.id)))
            && (r.Ok? ==>
                  && Decode(cell).Ok? && Decode(cell).value.index == s.expected
                  && var f := Decode(cell).value;
                     var buf := Splice(s.buf, f.index * FRAGMENT_PAYLOAD_LEN, f.payload[..DataLen(f.index)]);
                     && (s.id.Some? ==> s.id.value == f.id)
                     && (r.value.None? ==> f.index < 17 && s' == State(s.expected + 1, Some(f.id), buf))
                     && (r.value.Some? ==> f.index == 17 && s' == Fresh && r.value.value == buf))
  {
  }

  /** Writing one chunk leaves the other chunks alone. */
  lemma ChunkWritten(buf: PacketBytes, index: nat, data: seq<byte>)
    requires index < SPHINX_FRAGMENT_COUNT && |data| == DataLen(index)
    ensures var after := Splice(buf, index * FRAGMENT_PAYLOAD_LEN, data);
            && Chunk(after, index) == data
            && forall i :: 0 <= i < SPHINX_FRAGMENT_COUNT && i != index ==> Chunk(after, i) == Chunk(buf, i)
  {
  }

  /** The accepted positions and this cell collect the packet as it then stands. */
  lemma AcceptedOneMore(before: seq<Cell>, cell: Cell)
    requires Pushed(After(before), cell).1.Ok?
    requires |AcceptedAt(before)| == After(before).expected
    requires AcceptedAt(before) != [] ==>
               After(before).id.Some? && Collects(before, AcceptedAt(before), After(before).id.value, After(before).buf)
    ensures Decode(cell).Ok?
    ensures var f := Decode(cell).value;
            Collects(before + [cell], AcceptedAt(before) + [|before|], f.id,
                     Splice(After(before).buf, f.index * FRAGMENT_PAYLOAD_LEN, f.payload[..DataLen(f.index)]))
  {
    hide Splice, Chunk, AcceptedAt, After;
    var f := Decode(cell).value;
    ChunkWritten(After(before).buf, f.index, f.payload[..DataLen(f.index)]);
  }

  /** Whenever a packet comes out, the cells accepted since the last one are, in order, fragments 0 to
      17 of that very packet under one id; every other cell since then was refused. */
  lemma CompletedPacketIsItsFragments(cells: seq<Cell>, cell: Cell, p: PacketBytes)
    requires Pushed(After(cells), cell).1 == Ok(Some(p))
    ensures var at := AcceptedAt(cells) + [|cells|];
            && |at| == SPHINX_FRAGMENT_COUNT
            && Decode(cell).Ok?
            && Collects(cells + [cell], at, Decode(cell).value.id, p)
    ensures forall j :: 0 <= j < |cells| ==>
              (j in AcceptedAt(cells) <==> DoneUpTo(cells) <= j && Answer(cells, j).Ok?)
  {
    hide Carries, Splice, After, AcceptedAt, DoneUpTo, Answer, Collects;
    AcceptedCollects(cells);
    forall j | 0 <= j < |cells|
      ensures j in AcceptedAt(cells) <==> DoneUpTo(cells) <= j && Answer(cells, j).Ok?
    {
      AcceptedIffOk(cells, j);
    }
    PushCases(After(cells), cell);
    AcceptedOneMore(cells, cell);
  }

  /** A refusal changes nothing, except that a reassembler with no id yet notes the id of any cell
      that decodes. */
  lemma RefusalKeepsState(s: State, cell: Cell)
    requires s.expected < SPHINX_FRAGMENT_COUNT && Pushed(s, cell).1.Err?
    ensures Pushed(s, cell).0 == s <==> s.id.Some? || Decode(cell).Err?
  {
  }

  /** What a refusal reports: the decoder's own complaint; a foreign id; or else the index that was expected
      and the one the cell has, which differ. */
  lemma RefusalReports(s: State, cell: Cell)
    requires s.expected < SPHINX_FRAGMENT_COUNT && Pushed(s, cell).1.Err?
    ensures var e := Pushed(s, cell).1.error;
            && (Decode(cell).Err? ==> e == Decode(cell).error)
            && (Decode(cell).Ok? ==>
                  && (e == PacketIdMismatch <==> s.id.Some? && s.id.value != cell[2..10])
                  && (e != PacketIdMismatch ==>
                        && e.OutOfOrder? && e.expectedIndex == s.expected && e.gotIndex == cell[1] as nat
                        && e.expectedIndex != e.gotIndex))
  {
  }

  lemma StrayNoted(stray: Cell)
    requires Decode(stray).Ok? && Decode(stray).value.index != 0
    ensures Pushed(Fresh, stray).0 == Fresh.(id := Some(Decode(stray).value.id))
  {
  }

  lemma OtherIdRefused(s: State, cell: Cell)
    requires s.expected < SPHINX_FRAGMENT_COUNT && s.id.Some?
    requires Decode(cell).Ok? ==> Decode(cell).value.id != s.id.value
    ensures Pushed(s, cell).0 == s && Pushed(s, cell).1.Err?
  {
  }

  /** Having noted the id of a stray fragment, a reassembler yields nothing from the other packets'
      cells until it is reset. */
  lemma {:induction false} StrayIdBlocks(stray: Cell, cells: seq<Cell>)
    requires Decode(stray).Ok? && Decode(stray).value.index != 0
    requires forall i :: 0 <= i < |cells| && Decode(cells[i]).Ok? ==>
               Decode(cells[i]).value.id != Decode(stray).value.id
    ensures After([stray] + cells) == Fresh.(id := Some(Decode(stray).value.id))
    ensures forall i :: 1 <= i <= |cells| ==> Answer([stray] + cells, i).Err?
  {
    hide Pushed, Decode;
    var all := [stray] + cells;
    if cells == [] {
      assert all[..0] == [];
      StrayNoted(stray);
    } else {
      var before := cells[..|cells| - 1];
      StrayIdBlocks(stray, before);
      assert all[..|all| - 1] == [stray] + before;
      OtherIdRefused(After([stray] + before), cells[|cells| - 1]);
      forall i | 1 <= i <= |before| ensures Answer(all, i).Err? {
        assert all[..i] == ([stray] + before)[..i];
        assert Answer(all, i) == Answer([stray] + before, i);
      }
    }
  }
}

/** Cutting a packet and reassembling it, in one batch and as a stream of packets with noise between
    the cells. */
module FragmentStreams {
  import opened Bytes
  import opened SphinxOnion
  import opened Fragments
  import opened Reassembly

  function FragmentsOf(packet: PacketBytes, id: PacketId): (r: seq<Cell>)
    ensures |r| == SPHINX_FRAGMENT_COUNT
    ensures forall k :: 0 <= k < SPHINX_FRAGMENT_COUNT ==> Carries(r[k], packet, id, k)
  {
    CutCellsCarry(packet, id);
    seq(SPHINX_FRAGMENT_COUNT, k requires 0 <= k < SPHINX_FRAGMENT_COUNT => Assembled(FragmentOf(packet, id, k)))
  }

  lemma CutCellsCarry(packet: PacketBytes, id: PacketId)
    ensures forall k :: 0 <= k < SPHINX_FRAGMENT_COUNT ==> Carries(Assembled(FragmentOf(packet, id, k)), packet, id, k)
  {
    hide Assembled, Carries;
    forall k | 0 <= k < SPHINX_FRAGMENT_COUNT
      ensures Carries(Assembled(FragmentOf(packet, id, k)), packet, id, k)
    {
      CarriesIff(Assembled(FragmentOf(packet, id, k)), packet, id, k);
    }
  }

  /** `fragment`: one cell a chunk. */
  method Fragment(packet: PacketBytes, id: PacketId) returns (cells: seq<Cell>)
    ensures cells == FragmentsOf(packet, id)
  {
    hide Assembled, Carries;
    cells := [];
    for k := 0 to SPHINX_FRAGMENT_COUNT
      invariant |cells| == k
      invariant forall i :: 0 <= i < k ==> cells[i] == Assembled(FragmentOf(packet, id, i))
    {
      var cell := EncodeFragmentCell(id, k, packet);
      cells := cells + [cell];
    }
  }

  // ---------------------------------------------------------------- one packet

  function FilledUpTo(packet: PacketBytes, k: nat): PacketBytes
    requires k < SPHINX_FRAGMENT_COUNT
  {
    packet[..k * FRAGMENT_PAYLOAD_LEN] + Zeros(SPHINX_PACKET_LEN - k * FRAGMENT_PAYLOAD_LEN)
  }

  /** The state half-way through a packet: its first `k` chunks are in the buffer. */
  function Midway(packet: PacketBytes, id: PacketId, k: nat): State
    requires k < SPHINX_FRAGMENT_COUNT
  {
    if k == 0 then Fresh else State(k, Some(id), FilledUpTo(packet, k))
  }

  lemma PushMidway(packet: PacketBytes, id: PacketId, k: nat, cell: Cell)
    requires k < SPHINX_FRAGMENT_COUNT && Carries(cell, packet, id, k)
    ensures Pushed(Midway(packet, id, k), cell)
         == if k == SPHINX_FRAGMENT_COUNT - 1 then (Fresh, Ok(Some(packet))) else (Midway(packet, id, k + 1), Ok(None))
  {
    hide Splice, Decode, Chunk, Zeros;
    assert Midway(packet, id, k).buf == FilledUpTo(packet, k) by { FilledNone(packet); }
    ChunkFills(packet, k);
  }

  lemma FilledNone(packet: PacketBytes)
    ensures FilledUpTo(packet, 0) == Fresh.buf
  {
  }

  lemma ChunkFills(packet: PacketBytes, k: nat)
    requires k < SPHINX_FRAGMENT_COUNT
    ensures Splice(FilledUpTo(packet, k), k * FRAGMENT_PAYLOAD_LEN, Chunk(packet, k))
         == if k == SPHINX_FRAGMENT_COUNT - 1 then packet else FilledUpTo(packet, k + 1)
  {
  }

  /** Cells that carry the chunks in order leave the reassembler midway, and say nothing yet. */
  lemma {:induction false} AfterChunks(cells: seq<Cell>, packet: PacketBytes, id: PacketId, k: nat)
    requires k < SPHINX_FRAGMENT_COUNT && k <= |cells|
    requires forall i :: 0 <= i < k ==> Carries(cells[i], packet, id, i)
    ensures After(cells[..k]) == Midway(packet, id, k)
    ensures forall i :: 0 <= i < k ==> Answer(cells, i) == Ok(None)
  {
    hide Carries, Pushed;
    if k > 0 {
      AfterChunks(cells, packet, id, k - 1);
      PushMidway(packet, id, k - 1, cells[k - 1]);
      assert cells[..k][..k - 1] == cells[..k - 1];
    }
  }

  // ---------------------------------------------------------------- reassembling a batch

  /** The first answer of the stream that is an error or a packet, from cell `i` on. */
  function FirstAnswer(cells: seq<Cell>, i: nat): Result<PacketBytes, FragmentError>
    requires i <= |cells|
    decreases |cells| - i
  {
    if i == |cells| then Err(Incomplete(SPHINX_FRAGMENT_COUNT, |cells|))
    else match Answer(cells, i)
      case Err(e) => Err(e)
      case Ok(Some(p)) => Ok(p)
      case Ok(None) => FirstAnswer(cells, i + 1)
  }

  method Reassemble(cells: seq<Cell>) returns (r: Result<PacketBytes, FragmentError>)
    ensures |cells| != SPHINX_FRAGMENT_COUNT ==> r == Err(Incomplete(SPHINX_FRAGMENT_COUNT, |cells|))
    ensures |cells| == SPHINX_FRAGMENT_COUNT ==> r == FirstAnswer(cells, 0)
  {
    hide Pushed;
    if |cells| != SPHINX_FRAGMENT_COUNT {
      return Err(Incomplete(SPHINX_FRAGMENT_COUNT, |cells|));
    }
    var reassembler := new SphinxReassembler();
    for i := 0 to |cells|
      invariant reassembler.Valid() && fresh(reassembler) && fresh(reassembler.buf)
      invariant reassembler.Abs() == After(cells[..i])
      invariant FirstAnswer(cells, 0) == FirstAnswer(cells, i)
    {
      assert cells[..i + 1][..i] == cells[..i];
      var answer := reassembler.Push(cells[i]);
      match answer {
        case Err(e) => return Err(e);
        case Ok(Some(packet)) => return Ok(packet);
        case Ok(None) =>
      }
    }
    return Err(Incomplete(SPHINX_FRAGMENT_COUNT, |cells|));
  }

  /** A batch of 18 cells reassembles to `p` exactly when its cells carry the chunks of `p` in order
      under one id. So cutting then reassembling gives the packet back, and reassembling then cutting
      gives the cells back except for the last one's unused tail. */
  lemma ReassemblesIff(cells: seq<Cell>, p: PacketBytes)
    requires |cells| == SPHINX_FRAGMENT_COUNT
    ensures FirstAnswer(cells, 0) == Ok(p)
       <==> forall k :: 0 <= k < SPHINX_FRAGMENT_COUNT ==> Carries(cells[k], p, cells[0][2..10], k)
  {
    hide Carries, Pushed;
    if forall k :: 0 <= k < SPHINX_FRAGMENT_COUNT ==> Carries(cells[k], p, cells[0][2..10], k) {
      AfterChunks(cells, p, cells[0][2..10], 17);
      PushMidway(p, cells[0][2..10], 17, cells[17]);
      SilentUntil(cells, 0, 17);
    }
    if FirstAnswer(cells, 0) == Ok(p) {
      ChunksOfAnswer(cells, p);
    }
  }

  lemma {:induction false} SilentUntil(cells: seq<Cell>, i: nat, j: nat)
    requires i <= j <= |cells|
    requires forall k :: i <= k < j ==> Answer(cells, k) == Ok(None)
    ensures FirstAnswer(cells, i) == FirstAnswer(cells, j)
    decreases j - i
  {
    if i < j {
      SilentUntil(cells, i + 1, j);
    }
  }

  lemma {:induction false} AnswerFound(cells: seq<Cell>, i: nat, p: PacketBytes) returns (j: nat)
    requires i <= |cells| && FirstAnswer(cells, i) == Ok(p)
    ensures i <= j < |cells| && Answer(cells, j) == Ok(Some(p))
    ensures forall k :: i <= k < j ==> Answer(cells, k) == Ok(None)
    decreases |cells| - i
  {
    hide Answer;
    if Answer(cells, i) == Ok(None) {
      j := AnswerFound(cells, i + 1, p);
    } else {
      j := i;
    }
  }

  lemma {:induction false} AllAccepted(cells: seq<Cell>, j: nat)
    requires j <= |cells|
    requires forall k :: 0 <= k < j ==> Answer(cells, k) == Ok(None)
    ensures |AcceptedAt(cells[..j])| == j && forall k :: 0 <= k < j ==> AcceptedAt(cells[..j])[k] == k
  {
    if j > 0 {
      hide Pushed;
      AllAccepted(cells, j - 1);
      assert cells[..j][..j - 1] == cells[..j - 1];
      assert Answer(cells, j - 1) == Ok(None);
    }
  }

  lemma ChunksOfAnswer(cells: seq<Cell>, p: PacketBytes)
    requires |cells| == SPHINX_FRAGMENT_COUNT && FirstAnswer(cells, 0) == Ok(p)
    ensures forall k :: 0 <= k < SPHINX_FRAGMENT_COUNT ==> Carries(cells[k], p, cells[0][2..10], k)
  {
    hide Pushed, After, AcceptedAt;
    var j := AnswerFound(cells, 0, p);
    CompletedPacketIsItsFragments(cells[..j], cells[j], p);
    AllAccepted(cells, j);
    var at := AcceptedAt(cells[..j]) + [j];
    var all := cells[..j] + [cells[j]];
    assert j == 17 && all == cells;
    var id := Decode(cells[j]).value.id;
    assert at[0] == 0 && Carries(all[at[0]], p, id, 0);
    assert id == cells[0][2..10];
    forall k | 0 <= k < SPHINX_FRAGMENT_COUNT ensures Carries(cells[k], p, cells[0][2..10], k) {
      assert at[k] == k && Carries(all[at[k]], p, id, k);
    }
  }

  // ---------------------------------------------------------------- a stream of packets

  /** The packets a fresh reassembler yields over `cells`, errors ignored. */
  function Yielded(cells: seq<Cell>): seq<PacketBytes> {
    if cells == [] then []
    else
      Yielded(cells[..|cells| - 1]) + PacketsIn(Answer(cells, |cells| - 1))
  }

  function PacketsIn(answer: PushResult): seq<PacketBytes> {
    match answer
    case Ok(Some(p)) => [p]
    case _ => []
  }

  /** The cells of `cells` that decode as fragments. */
  function FragmentCells(cells: seq<Cell>): seq<Cell> {
    if cells == [] then []
    else
      FragmentCells(cells[..|cells| - 1]) + (if Decode(cells[|cells| - 1]).Ok? then [cells[|cells| - 1]] else [])
  }

  /** Cover, data and malformed cells between the fragments change nothing. */
  lemma {:induction false} NoiseIgnored(cells: seq<Cell>)
    ensures After(cells) == After(FragmentCells(cells))
    ensures Yielded(cells) == Yielded(FragmentCells(cells))
  {
    if cells != [] {
      hide Pushed, Decode;
      var before, cell := cells[..|cells| - 1], cells[|cells| - 1];
      NoiseIgnored(before);
      UndecodedRefused(After(before), cell);
      var kept := FragmentCells(before);
      assert (kept + [cell])[..|kept|] == kept && kept + [] == kept;
      assert Answer(cells, |before|) == Answer(kept + [cell], |kept|);
    }
  }

  lemma UndecodedRefused(s: State, cell: Cell)
    requires s.expected < SPHINX_FRAGMENT_COUNT
    ensures Decode(cell).Err? ==> Pushed(s, cell).0 == s && Pushed(s, cell).1.Err?
  {
  }

  /** After a stream that ends between packets, the reassembler starts over. */
  lemma {:induction false} StartsOver(a: seq<Cell>, b: seq<Cell>)
    requires After(a) == Fresh
    ensures After(a + b) == After(b) && Yielded(a + b) == Yielded(a) + Yielded(b)
  {
    hide Pushed, PacketsIn;
    if b == [] {
      assert a + b == a;
    } else {
      var before := b[..|b| - 1];
      StartsOver(a, before);
      var ab := a + b;
      assert ab[..|ab| - 1] == a + before;
      assert Answer(ab, |ab| - 1) == Answer(b, |b| - 1);
      assert Yielded(a) + (Yielded(before) + PacketsIn(Answer(b, |b| - 1)))
          == (Yielded(a) + Yielded(before)) + PacketsIn(Answer(b, |b| - 1));
    }
  }

  /** The cells of the packets `ps`, packet after packet. */
  function PacketCells(ps: seq<PacketBytes>, ids: seq<PacketId>): (r: seq<Cell>)
    requires |ps| == |ids|
    ensures |r| == SPHINX_FRAGMENT_COUNT * |ps|
  {
    if ps == [] then [] else FragmentsOf(ps[0], ids[0]) + PacketCells(ps[1..], ids[1..])
  }

  lemma OnePacketYields(p: PacketBytes, id: PacketId, m: nat)
    requires m <= SPHINX_FRAGMENT_COUNT
    ensures Yielded(FragmentsOf(p, id)[..m]) == if m == SPHINX_FRAGMENT_COUNT then [p] else []
    ensures m == SPHINX_FRAGMENT_COUNT ==> After(FragmentsOf(p, id)) == Fresh
  {
    hide Pushed, Carries, FragmentsOf, Yielded;
    var cells := FragmentsOf(p, id);
    AfterChunks(cells, p, id, 17);
    SilentPrefix(cells, if m < 17 then m else 17);
    if m == SPHINX_FRAGMENT_COUNT {
      LastCellYields(cells, p, id);
      assert cells[..m] == cells;
    }
  }

  lemma LastCellYields(cells: seq<Cell>, p: PacketBytes, id: PacketId)
    requires |cells| == SPHINX_FRAGMENT_COUNT && Carries(cells[17], p, id, 17)
    requires After(cells[..17]) == Midway(p, id, 17) && Yielded(cells[..17]) == []
    ensures Yielded(cells) == [p] && After(cells) == Fresh
  {
    hide Pushed, Carries, Midway;
    PushMidway(p, id, 17, cells[17]);
  }

  lemma {:induction false} SilentPrefix(cells: seq<Cell>, m: nat)
    requires m <= |cells| && forall i :: 0 <= i < m ==> Answer(cells, i) == Ok(None)
    ensures Yielded(cells[..m]) == []
  {
    if m > 0 {
      hide Pushed;
      SilentPrefix(cells, m - 1);
      assert cells[..m][..m - 1] == cells[..m - 1];
      assert Answer(cells[..m], m - 1) == Answer(cells, m - 1);
    }
  }

  /** Any prefix of such a stream yields exactly the packets that are complete in it, in order. */
  lemma {:induction false} StreamYields(ps: seq<PacketBytes>, ids: seq<PacketId>, m: nat)
    requires |ps| == |ids| && m <= SPHINX_FRAGMENT_COUNT * |ps|
    ensures Yielded(PacketCells(ps, ids)[..m]) == ps[..m / SPHINX_FRAGMENT_COUNT]
  {
    hide Pushed, Carries, Assembled, After, Yielded;
    if ps == [] {
      assert PacketCells(ps, ids)[..m] == [];
      OnePacketYields(Zeros(SPHINX_PACKET_LEN), Zeros(8), 0);
      assert FragmentsOf(Zeros(SPHINX_PACKET_LEN), Zeros(8))[..0] == [];
    } else {
      var first, rest := FragmentsOf(ps[0], ids[0]), PacketCells(ps[1..], ids[1..]);
      if m < SPHINX_FRAGMENT_COUNT {
        OnePacketYields(ps[0], ids[0], m);
        assert PacketCells(ps, ids)[..m] == first[..m];
      } else {
        OnePacketYields(ps[0], ids[0], SPHINX_FRAGMENT_COUNT);
        assert first[..SPHINX_FRAGMENT_COUNT] == first;
        var m' := m - SPHINX_FRAGMENT_COUNT;
        StreamYields(ps[1..], ids[1..], m');
        StartsOver(first, rest[..m']);
        assert PacketCells(ps, ids)[..m] == first + rest[..m'];
        assert m / SPHINX_FRAGMENT_COUNT == m' / SPHINX_FRAGMENT_COUNT + 1;
        assert ps[..m' / SPHINX_FRAGMENT_COUNT + 1] == [ps[0]] + ps[1..][..m' / SPHINX_FRAGMENT_COUNT];
      }
    }
  }
}

/** `build` of sphinx.rs: one buffer is filled, sealed, MACed and unsealed once per layer, inside
    out, and ends as the onion of SphinxOnion. */
module SphinxBuild {
  import opened Bytes
  import opened SphinxOnion
  import opened Sphinx

  /** What `encapsulate` gives the sender for one hop. */
  datatype Encap = Encap(header: KemHeader, secret: Block)

  ghost predicate AllEncapsulated(encaps: seq<Result<Encap, CryptoError>>) {
    forall i :: 0 <= i < |encaps| ==> encaps[i].Ok?
  }

  function SenderPath(ids: seq<Block>, encaps: seq<Result<Encap, CryptoError>>): (path: seq<Hop>)
    requires |ids| == |encaps|
    requires forall i :: 0 <= i < |encaps| ==> encaps[i].Ok?
    ensures |path| == |ids|
  {
    seq(|ids|, i requires 0 <= i < |ids| => Hop(ids[i], encaps[i].value.header, encaps[i].value.secret))
  }

  /** The payload block before any layer: the payload, then the random bytes drawn for its tail. */
  function PlainDelta(payload: seq<byte>, deltaFill: Delta): Delta
    requires |payload| <= DELTA_LEN
  {
    payload + deltaFill[|payload|..]
  }

  // ---------------------------------------------------------------- routing slots

  function SlotOf(beta: seq<byte>, j: nat): (r: seq<byte>)
    requires (j + 1) * ROUTING_SLOT_LEN <= |beta|
    ensures |r| == ROUTING_SLOT_LEN
  {
    beta[j * ROUTING_SLOT_LEN..(j + 1) * ROUTING_SLOT_LEN]
  }

  /** `beta` with the first `m` slots XORed, each with its own hop's stream. */
  function SlotsXored(h: Hash, beta: Beta, path: seq<Hop>, m: nat): Beta
    requires m <= |path| && m <= MAX_HOPS
  {
    if m == 0 then beta
    else StreamXor(h, SlotsXored(h, beta, path, m - 1), (m - 1) * ROUTING_SLOT_LEN, m * ROUTING_SLOT_LEN,
                   path[m - 1].secret, STREAM_BETA)
  }

  lemma {:induction false} SlotsXoredBySlot(h: Hash, beta: Beta, path: seq<Hop>, m: nat, j: nat)
    requires m <= |path| && m <= MAX_HOPS && j < MAX_HOPS
    ensures SlotOf(SlotsXored(h, beta, path, m), j)
         == if j < m then SealSlot(h, path[j].secret, SlotOf(beta, j)) else SlotOf(beta, j)
  {
    if m > 0 {
      SlotsXoredBySlot(h, beta, path, m - 1, j);
      StreamXorSlot(h, SlotsXored(h, beta, path, m - 1), path[m - 1].secret, m - 1, j);
    }
  }

  lemma StreamXorSlot(h: Hash, beta: Beta, secret: Block, i: nat, j: nat)
    requires i < MAX_HOPS && j < MAX_HOPS
    ensures SlotOf(StreamXor(h, beta, i * ROUTING_SLOT_LEN, (i + 1) * ROUTING_SLOT_LEN, secret, STREAM_BETA), j)
         == if j == i then SealSlot(h, secret, SlotOf(beta, j)) else SlotOf(beta, j)
  {
  }

  lemma BetaBySlots(a: Beta, b: Beta)
    requires forall j :: 0 <= j < MAX_HOPS ==> SlotOf(a, j) == SlotOf(b, j)
    ensures a == b
  {
    forall i | 0 <= i < BETA_LEN ensures a[i] == b[i] {
      var j := i / ROUTING_SLOT_LEN;
      assert a[i] == SlotOf(a, j)[i % ROUTING_SLOT_LEN] && b[i] == SlotOf(b, j)[i % ROUTING_SLOT_LEN];
    }
  }

  lemma SlotsXoredTwice(h: Hash, beta: Beta, path: seq<Hop>, m: nat)
    requires m <= |path| && m <= MAX_HOPS
    ensures SlotsXored(h, SlotsXored(h, beta, path, m), path, m) == beta
  {
    var once := SlotsXored(h, beta, path, m);
    forall j | 0 <= j < MAX_HOPS ensures SlotOf(SlotsXored(h, once, path, m), j) == SlotOf(beta, j) {
      SlotsXoredBySlot(h, beta, path, m, j);
      SlotsXoredBySlot(h, once, path, m, j);
      if j < m {
        XorTwice(SlotOf(beta, j), Stream(h, STREAM_BETA, path[j].secret, ROUTING_SLOT_LEN));
      }
    }
    BetaBySlots(SlotsXored(h, once, path, m), beta);
  }

  /** `encrypt_slots` and `decrypt_slots`, which have one body. */
  method XorSlots(h: Hash, beta: array<byte>, layers: nat, path: seq<Hop>)
    requires beta.Length == BETA_LEN && layers <= |path| && layers <= MAX_HOPS
    modifies beta
    ensures beta[..] == SlotsXored(h, old(beta[..]), path, layers)
  {
    hide StreamXor;
    for i := 0 to layers
      invariant beta[..] == SlotsXored(h, old(beta[..]), path, i)
    {
      var off := i * ROUTING_SLOT_LEN;
      StreamXorRange(h, beta, off, off + ROUTING_SLOT_LEN, path[i].secret, STREAM_BETA);
    }
  }

  // ---------------------------------------------------------------- the MAC of a future header

  /** The MAC hop `peels` will compute after that many real peels. Nothing of the first `peels` slots
      survives into it, whatever they hold. */
  method MacAfterPeels(h: Hash, beta: Beta, path: seq<Hop>, peels: nat) returns (mac: Block)
    requires peels < |path| && peels < MAX_HOPS
    ensures mac == Mac(h, path[peels].secret, beta[peels * ROUTING_SLOT_LEN..] + Pads(h, path, peels))
  {
    hide StreamXor, Splice, Stream;
    var work := ToArray(beta);
    for hop := 0 to peels
      invariant work[..] == beta[hop * ROUTING_SLOT_LEN..] + Pads(h, path, hop)
    {
      ghost var before := work[..];
      StreamXorRange(h, work, 0, ROUTING_SLOT_LEN, path[hop].secret, STREAM_BETA);
      CopyWithin(work, ROUTING_SLOT_LEN, BETA_LEN, 0);
      var pad := PeelPad(h, path[hop].secret, ROUTING_SLOT_LEN);
      CopyInto(work, BETA_LEN - ROUTING_SLOT_LEN, pad[..]);
      FirstSlotForgotten(h, before, path[hop].secret, pad[..]);
      DropSlot(beta, hop, Pads(h, path, hop), pad[..]);
    }
    mac := Mac(h, path[peels].secret, work[..]);
  }

  lemma DropSlot(beta: Beta, k: nat, pads: seq<byte>, pad: seq<byte>)
    requires k < MAX_HOPS
    ensures (beta[k * ROUTING_SLOT_LEN..] + pads)[ROUTING_SLOT_LEN..] + pad
         == beta[(k + 1) * ROUTING_SLOT_LEN..] + (pads + pad)
  {
  }

  lemma FirstSlotForgotten(h: Hash, beta: Beta, secret: Block, pad: seq<byte>)
    requires |pad| == ROUTING_SLOT_LEN
    ensures var x := StreamXor(h, beta, 0, ROUTING_SLOT_LEN, secret, STREAM_BETA);
            (Splice(Splice(x, 0, x[ROUTING_SLOT_LEN..BETA_LEN]), BETA_LEN - ROUTING_SLOT_LEN, pad)
             == beta[ROUTING_SLOT_LEN..] + pad)
  {
  }

  // ---------------------------------------------------------------- build

  /** Every used slot names its next hop and carries that hop's header; the rest is still fill. */
  ghost predicate Routed(path: Path, fill: Beta, beta: seq<byte>) {
    && |beta| == BETA_LEN
    && (forall j :: 0 <= j < |path| - 1 ==> SlotOf(beta, j)[..SLOT_GAMMA] == path[j + 1].id + path[j + 1].header)
    && beta[(|path| - 1) * ROUTING_SLOT_LEN..] == fill[(|path| - 1) * ROUTING_SLOT_LEN..]
  }

  /** Slots `from`.. of `beta` carry the MACs the next hops will check. */
  ghost predicate MacsEmbedded(h: Hash, path: Path, fill: Beta, beta: seq<byte>, from: nat)
    requires |beta| == BETA_LEN
  {
    forall j :: from <= j < |path| - 1 ==> SlotOf(beta, j)[SLOT_GAMMA..] == HopMac(h, path, fill, j + 1)
  }

  lemma SealedSlotIsLayer(h: Hash, path: Path, fill: Beta, beta: Beta, j: nat)
    requires j < |path| - 1
    requires Routed(path, fill, beta) && MacsEmbedded(h, path, fill, beta, j)
    ensures SlotOf(SlotsXored(h, beta, path, |path| - 1), j) == SealedLayer(h, path, fill, j)
  {
    hide SlotsXored, View, HopMac, SealSlot;
    SlotsXoredBySlot(h, beta, path, |path| - 1, j);
    var slot := SlotOf(beta, j);
    assert slot == slot[..SLOT_GAMMA] + slot[SLOT_GAMMA..];
  }

  /** Sealing such a buffer gives the intended onion from slot `from` on. */
  lemma {:induction false} SealedIsLayers(h: Hash, path: Path, fill: Beta, beta: Beta, from: nat)
    requires from < |path|
    requires Routed(path, fill, beta) && MacsEmbedded(h, path, fill, beta, from)
    ensures SlotsXored(h, beta, path, |path| - 1)[from * ROUTING_SLOT_LEN..] == Layers(h, path, fill, from)
    decreases |path| - from
  {
    hide SlotsXored, View, HopMac, SealSlot, SealedLayer;
    var n := |path| - 1;
    if from == n {
      UnusedSlotsKept(h, beta, path, n);
    } else {
      SealedIsLayers(h, path, fill, beta, from + 1);
      SealedSlotIsLayer(h, path, fill, beta, from);
      SplitAtSlot(SlotsXored(h, beta, path, n), from);
    }
  }

  lemma SplitAtSlot(beta: Beta, j: nat)
    requires j < MAX_HOPS
    ensures beta[j * ROUTING_SLOT_LEN..] == SlotOf(beta, j) + beta[(j + 1) * ROUTING_SLOT_LEN..]
  {
  }

  lemma {:induction false} UnusedSlotsKept(h: Hash, beta: Beta, path: seq<Hop>, m: nat)
    requires m <= |path| && m <= MAX_HOPS
    ensures SlotsXored(h, beta, path, m)[m * ROUTING_SLOT_LEN..] == beta[m * ROUTING_SLOT_LEN..]
  {
    if m > 0 {
      UnusedSlotsKept(h, beta, path, m - 1);
      var before := SlotsXored(h, beta, path, m - 1);
      assert before[m * ROUTING_SLOT_LEN..] == before[(m - 1) * ROUTING_SLOT_LEN..][ROUTING_SLOT_LEN..];
      assert beta[m * ROUTING_SLOT_LEN..] == beta[(m - 1) * ROUTING_SLOT_LEN..][ROUTING_SLOT_LEN..];
    }
  }

  /** Pass 1: next-hop ids and headers. */
  method WriteRouting(beta: array<byte>, path: Path)
    requires beta.Length == BETA_LEN
    modifies beta
    ensures Routed(path, old(beta[..]), beta[..])
  {
    hide Splice;
    var layers := |path| - 1;
    for i := 0 to layers
      invariant forall j :: 0 <= j < i ==> SlotOf(beta[..], j)[..SLOT_GAMMA] == path[j + 1].id + path[j + 1].header
      invariant beta[i * ROUTING_SLOT_LEN..] == old(beta[..])[i * ROUTING_SLOT_LEN..]
    {
      var off := i * ROUTING_SLOT_LEN;
      ghost var before := beta[..];
      CopyInto(beta, off, path[i + 1].id);
      CopyInto(beta, off + 32, path[i + 1].header);
      assert before[(i + 1) * ROUTING_SLOT_LEN..] == before[i * ROUTING_SLOT_LEN..][ROUTING_SLOT_LEN..];
      SlotRouted(before, i, path[i + 1].id, path[i + 1].header);
    }
  }

  lemma SlotHead(slot: seq<byte>, id: Block, header: KemHeader)
    requires |slot| == ROUTING_SLOT_LEN
    ensures Splice(Splice(slot, 0, id), 32, header)[..SLOT_GAMMA] == id + header
  {
  }

  lemma SlotRouted(beta: Beta, i: nat, id: Block, header: KemHeader)
    requires i < MAX_HOPS
    ensures var after := Splice(Splice(beta, i * ROUTING_SLOT_LEN, id), i * ROUTING_SLOT_LEN + 32, header);
            && SlotOf(after, i)[..SLOT_GAMMA] == id + header
            && (forall j :: 0 <= j < MAX_HOPS && j != i ==> SlotOf(after, j) == SlotOf(beta, j))
            && after[(i + 1) * ROUTING_SLOT_LEN..] == beta[(i + 1) * ROUTING_SLOT_LEN..]
  {
    hide Splice;
    SlotWritten(beta, i, 0, id);
    SlotWritten(Splice(beta, i * ROUTING_SLOT_LEN, id), i, 32, header);
    SlotHead(SlotOf(beta, i), id, header);
  }

  /** Writing inside slot `i` leaves the other slots and the rest of slot `i` alone. */
  lemma SlotWritten(beta: Beta, i: nat, at: nat, data: seq<byte>)
    requires i < MAX_HOPS && at + |data| <= ROUTING_SLOT_LEN
    ensures var after := Splice(beta, i * ROUTING_SLOT_LEN + at, data);
            && SlotOf(after, i) == Splice(SlotOf(beta, i), at, data)
            && (forall j :: 0 <= j < MAX_HOPS && j != i ==> SlotOf(after, j) == SlotOf(beta, j))
            && after[(i + 1) * ROUTING_SLOT_LEN..] == beta[(i + 1) * ROUTING_SLOT_LEN..]
  {
  }

  /** Copies the MACs of slots `from`.. into the buffer. */
  method EmbedMacs(h: Hash, beta: array<byte>, path: Path, ghost fill: Beta, macs: array<Block>, from: nat)
    requires beta.Length == BETA_LEN && macs.Length == |path| - 1 && from <= macs.Length
    requires Routed(path, fill, beta[..])
    requires forall j :: from <= j < macs.Length ==> macs[j] == HopMac(h, path, fill, j + 1)
    modifies beta
    ensures Routed(path, fill, beta[..]) && MacsEmbedded(h, path, fill, beta[..], from)
  {
    hide Splice, HopMac;
    for j := from to macs.Length
      invariant beta.Length == BETA_LEN && Routed(path, fill, beta[..])
      invariant forall i :: from <= i < j ==> SlotOf(beta[..], i)[SLOT_GAMMA..] == macs[i]
    {
      ghost var before := beta[..];
      CopyInto(beta, j * ROUTING_SLOT_LEN + SLOT_GAMMA, macs[j]);
      MacWritten(path, fill, before, j, macs[j]);
    }
  }

  lemma MacWritten(path: Path, fill: Beta, beta: Beta, j: nat, mac: Block)
    requires j < |path| - 1 && Routed(path, fill, beta)
    ensures var after := Splice(beta, j * ROUTING_SLOT_LEN + SLOT_GAMMA, mac);
            && Routed(path, fill, after)
            && SlotOf(after, j)[SLOT_GAMMA..] == mac
            && (forall i :: 0 <= i < MAX_HOPS && i != j ==> SlotOf(after, i) == SlotOf(beta, i))
  {
    var after := Splice(beta, j * ROUTING_SLOT_LEN + SLOT_GAMMA, mac);
    var n := |path| - 1;
    SlotWritten(beta, j, SLOT_GAMMA, mac);
    assert after[n * ROUTING_SLOT_LEN..] == beta[n * ROUTING_SLOT_LEN..];
    assert SlotOf(after, j)[..SLOT_GAMMA] == SlotOf(beta, j)[..SLOT_GAMMA];
  }

  lemma HopMacOfLayers(h: Hash, path: Path, fill: Beta, k: nat)
    requires k < |path|
    ensures HopMac(h, path, fill, k) == Mac(h, path[k].secret, Layers(h, path, fill, k) + Pads(h, path, k))
  {
  }

  lemma ViewOfLayers(h: Hash, path: Path, fill: Beta)
    ensures View(h, path, fill, 0) == Layers(h, path, fill, 0)[0 * ROUTING_SLOT_LEN..]
  {
  }

  /** The routing block of the packet: sealed slots whose embedded MACs are what the hops will see. */
  method BuildBeta(h: Hash, path: Path, fill: Beta) returns (sealed: Beta)
    ensures sealed == View(h, path, fill, 0)
  {
    hide SlotsXored, View, HopMac, Mac, MacsEmbedded, Layers, Pads;
    var layers := |path| - 1;
    var beta := ToArray(fill);
    WriteRouting(beta, path);
    SlotsXoredTwice(h, beta[..], path, layers);
    XorSlots(h, beta, layers, path);
    XorSlots(h, beta, layers, path);

    var macs := new Block[layers](_ => seq(32, _ => 0));
    for i := layers downto 0
      invariant Routed(path, fill, beta[..])
      invariant forall j :: i <= j < layers ==> macs[j] == HopMac(h, path, fill, j + 1)
    {
      EmbedMacs(h, beta, path, fill, macs, i + 1);
      ghost var plain := beta[..];
      XorSlots(h, beta, layers, path);
      SealedIsLayers(h, path, fill, plain, i + 1);
      HopMacOfLayers(h, path, fill, i + 1);
      SlotsXoredTwice(h, plain, path, layers);
      macs[i] := MacAfterPeels(h, beta[..], path, i + 1);
      XorSlots(h, beta, layers, path);
    }

    EmbedMacs(h, beta, path, fill, macs, 0);
    SealedIsLayers(h, path, fill, beta[..], 0);
    ViewOfLayers(h, path, fill);
    XorSlots(h, beta, layers, path);
    sealed := beta[..];
  }

  // ---------------------------------------------------------------- payload onion and packet

  /** A layer added to the bare payload is the innermost one, though `build` adds the outermost
      first: the layers commute. */
  lemma {:induction false} LayersCommute(h: Hash, path: seq<Hop>, plain: Delta, secret: Block, k: nat)
    requires k <= |path|
    ensures SealDelta(h, secret, DeltaAt(h, path, plain, k)) == DeltaAt(h, path, SealDelta(h, secret, plain), k)
    decreases |path| - k
  {
    if k < |path| {
      LayersCommute(h, path, plain, secret, k + 1);
      XorCommutes(DeltaAt(h, path, plain, k + 1), Stream(h, STREAM_DELTA, path[k].secret, DELTA_LEN),
                  Stream(h, STREAM_DELTA, secret, DELTA_LEN));
    }
  }

  lemma WholeDeltaSealed(h: Hash, delta: Delta, secret: Block)
    ensures StreamXor(h, delta, 0, DELTA_LEN, secret, STREAM_DELTA) == SealDelta(h, secret, delta)
  {
    assert delta[0..DELTA_LEN] == delta && delta[..0] == [] && delta[DELTA_LEN..] == [];
  }

  lemma PlainDeltaFilled(buf: seq<byte>, payload: seq<byte>, deltaFill: Delta)
    requires |buf| == DELTA_LEN && |payload| <= DELTA_LEN
    ensures Splice(Splice(buf, 0, payload), |payload|, deltaFill[|payload|..]) == PlainDelta(payload, deltaFill)
  {
  }

  method BuildDelta(h: Hash, path: Path, payload: seq<byte>, deltaFill: Delta) returns (r: Delta)
    requires |payload| <= DELTA_LEN
    ensures r == DeltaAt(h, path, PlainDelta(payload, deltaFill), 0)
  {
    hide Splice, StreamXor, SealDelta, PlainDelta;
    var delta := new byte[DELTA_LEN](_ => 0);
    PlainDeltaFilled(delta[..], payload, deltaFill);
    CopyInto(delta, 0, payload);
    CopyInto(delta, |payload|, deltaFill[|payload|..]);
    for k := 0 to |path|
      invariant delta.Length == DELTA_LEN
      invariant DeltaAt(h, path, delta[..], k) == DeltaAt(h, path, PlainDelta(payload, deltaFill), 0)
    {
      ghost var before := delta[..];
      StreamXorRange(h, delta, 0, DELTA_LEN, path[k].secret, STREAM_DELTA);
      WholeDeltaSealed(h, before, path[k].secret);
      LayersCommute(h, path, before, path[k].secret, k + 1);
    }
    r := delta[..];
  }

  /** `build`: the path and payload length checks, one encapsulation a hop, and the packet. The random
      bytes the source draws are the arguments `fill` and `deltaFill`. */
  method Build(h: Hash, ids: seq<Block>, encaps: seq<Result<Encap, CryptoError>>, payload: seq<byte>,
               fill: Beta, deltaFill: Delta)
    returns (r: Result<PacketBytes, CryptoError>)
    requires |encaps| == |ids|
    ensures !(2 <= |ids| <= MAX_HOPS) ==> r == Err(Malformed("path length"))
    ensures 2 <= |ids| <= MAX_HOPS && |payload| > DELTA_LEN ==> r == Err(Malformed("payload too long"))
    ensures 2 <= |ids| <= MAX_HOPS && |payload| <= DELTA_LEN && !AllEncapsulated(encaps) ==>
              exists i :: 0 <= i < |encaps| && encaps[i].Err? && r == Err(encaps[i].error)
                          && forall j :: 0 <= j < i ==> encaps[j].Ok?
    ensures 2 <= |ids| <= MAX_HOPS && |payload| <= DELTA_LEN && AllEncapsulated(encaps) ==>
              r.Ok? && Fields(r.value) == OnionAt(h, SenderPath(ids, encaps), fill, PlainDelta(payload, deltaFill), 0)
  {
    if |ids| < 2 || |ids| > MAX_HOPS {
      return Err(Malformed("path length"));
    }
    if |payload| > DELTA_LEN {
      return Err(Malformed("payload too long"));
    }
    var hops: seq<Hop> := [];
    for i := 0 to |ids|
      invariant forall j :: 0 <= j < i ==> encaps[j].Ok?
      invariant hops == SenderPath(ids[..i], encaps[..i])
    {
      if encaps[i].Err? {
        return Err(encaps[i].error);
      }
      hops := hops + [Hop(ids[i], encaps[i].value.header, encaps[i].value.secret)];
    }
    assert ids[..|ids|] == ids && encaps[..|ids|] == encaps;
    var path: Path := hops;

    var beta := BuildBeta(h, path, fill);
    var gamma := Mac(h, path[0].secret, beta);
    var delta := BuildDelta(h, path, payload, deltaFill);

    var packet := new byte[SPHINX_PACKET_LEN](_ => 0);
    CopyInto(packet, 0, path[0].header);
    CopyInto(packet, OFF_BETA, beta);
    CopyInto(packet, OFF_GAMMA, gamma);
    CopyInto(packet, OFF_DELTA, delta);
    ghost var p := Packet(path[0].header, beta, gamma, delta);
    assert packet[..] == Wire(p);
    FieldsOfWire(p);
    r := Ok(packet[..]);
  }
}

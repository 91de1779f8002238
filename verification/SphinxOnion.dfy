/** The Sphinx packet layout and, on values, the onion a sender means to build: every routing slot
    is sealed around the MAC of the header that the next hop will see. The byte-buffer code that
    computes the same packet is in module Sphinx. */
module SphinxOnion {
  import opened Bytes

  const MAX_HOPS := 6
  const KEM_HEADER_LEN := 1120
  const ROUTING_SLOT_LEN := 1184
  const BETA_LEN := 7104
  const GAMMA_LEN := 32
  const DELTA_LEN := 256
  const SPHINX_PACKET_LEN := 8512

  const OFF_BETA := 1120
  const OFF_GAMMA := 8224
  const OFF_DELTA := 8256
  /** Offset of the next hop's MAC inside a routing slot. */
  const SLOT_GAMMA := 1152

  const STREAM_BETA := Ascii("aegis-beta-stream-v1")
  const STREAM_DELTA := Ascii("aegis-delta-stream-v1")
  const PEEL_PAD_DOMAIN := Ascii("aegis-beta-peel-pad-v1")
  const MAC_DOMAIN := Ascii("aegis-gamma-mac-v1")
  const REPLAY_DOMAIN := Ascii("aegis-replay-tag-v1")

  type KemHeader = b: seq<byte> | |b| == KEM_HEADER_LEN witness seq(KEM_HEADER_LEN, _ => 0)
  type Beta = b: seq<byte> | |b| == BETA_LEN witness seq(BETA_LEN, _ => 0)
  type Delta = b: seq<byte> | |b| == DELTA_LEN witness seq(DELTA_LEN, _ => 0)
  type PacketBytes = b: seq<byte> | |b| == SPHINX_PACKET_LEN witness seq(SPHINX_PACKET_LEN, _ => 0)

  /** The four fields of a packet; on the wire they lie side by side. */
  datatype Packet = Packet(alpha: KemHeader, beta: Beta, gamma: Block, delta: Delta)

  /** One hop as the sender knows it after encapsulating to it. */
  datatype Hop = Hop(id: Block, header: KemHeader, secret: Block)

  type Path = p: seq<Hop> | 2 <= |p| <= MAX_HOPS
    witness seq(2, _ => Hop(seq(32, _ => 0), seq(KEM_HEADER_LEN, _ => 0), seq(32, _ => 0)))

  // ---------------------------------------------------------------- packet fields and bytes

  function Wire(p: Packet): PacketBytes {
    p.alpha + p.beta + p.gamma + p.delta
  }

  function Fields(b: PacketBytes): Packet {
    Packet(b[..OFF_BETA], b[OFF_BETA..OFF_GAMMA], b[OFF_GAMMA..OFF_DELTA], b[OFF_DELTA..])
  }

  lemma FieldsOfWire(p: Packet)
    ensures Fields(Wire(p)) == p
  {
    var b := Wire(p);
    assert b[..OFF_BETA] == p.alpha && b[OFF_BETA..OFF_GAMMA] == p.beta;
    assert b[OFF_GAMMA..OFF_DELTA] == p.gamma && b[OFF_DELTA..] == p.delta;
  }

  lemma WireOfFields(b: PacketBytes)
    ensures Wire(Fields(b)) == b
  {
    assert b == b[..OFF_BETA] + b[OFF_BETA..OFF_GAMMA] + b[OFF_GAMMA..OFF_DELTA] + b[OFF_DELTA..];
  }

  // ---------------------------------------------------------------- keyed streams

  /** Byte `i` of the SHA3 counter-mode stream of `domain` and `secret`. */
  function StreamByte(h: Hash, domain: seq<byte>, secret: Block, i: nat): byte {
    h(domain + secret + Le64(i / 32))[i % 32]
  }

  /** The first `len` bytes of that stream. */
  function Stream(h: Hash, domain: seq<byte>, secret: Block, len: nat): (r: seq<byte>)
    ensures |r| == len
    ensures forall i :: 0 <= i < len ==> r[i] == StreamByte(h, domain, secret, i)
  {
    seq(len, i requires 0 <= i < len => StreamByte(h, domain, secret, i))
  }

  function Xor(a: seq<byte>, b: seq<byte>): (r: seq<byte>)
    requires |a| == |b|
    ensures |r| == |a|
    ensures forall i :: 0 <= i < |a| ==> r[i] == a[i] ^ b[i]
  {
    seq(|a|, i requires 0 <= i < |a| => a[i] ^ b[i])
  }

  lemma XorTwice(a: seq<byte>, k: seq<byte>)
    requires |a| == |k|
    ensures Xor(Xor(a, k), k) == a
  {
  }

  lemma XorCommutes(a: seq<byte>, x: seq<byte>, y: seq<byte>)
    requires |a| == |x| == |y|
    ensures Xor(Xor(a, x), y) == Xor(Xor(a, y), x)
  {
    var xy, yx := Xor(Xor(a, x), y), Xor(Xor(a, y), x);
    assert forall i :: 0 <= i < |a| ==> xy[i] == (a[i] ^ x[i]) ^ y[i] && yx[i] == (a[i] ^ y[i]) ^ x[i];
  }

  /** The bytes a hop appends to the routing block it forwards. */
  function Pad(h: Hash, secret: Block): (r: seq<byte>)
    ensures |r| == ROUTING_SLOT_LEN
  {
    Stream(h, PEEL_PAD_DOMAIN, secret, ROUTING_SLOT_LEN)
  }

  function Mac(h: Hash, secret: Block, beta: seq<byte>): Block {
    h(MAC_DOMAIN + secret + beta)
  }

  function ReplayTag(h: Hash, secret: Block): Block {
    h(REPLAY_DOMAIN + secret)
  }

  /** Seals and opens one routing slot: the stream cipher is its own inverse. */
  function SealSlot(h: Hash, secret: Block, slot: seq<byte>): (r: seq<byte>)
    ensures |r| == |slot|
  {
    Xor(slot, Stream(h, STREAM_BETA, secret, |slot|))
  }

  function SealDelta(h: Hash, secret: Block, delta: Delta): Delta {
    Xor(delta, Stream(h, STREAM_DELTA, secret, DELTA_LEN))
  }

  // ---------------------------------------------------------------- what one hop does

  /** What a hop reads from and forwards for a packet: the next hop's id, and the packet with
      header, MAC, shifted and padded routing block, and payload layer all moved on by one. */
  function Peeled(h: Hash, p: Packet, secret: Block): (Block, Packet) {
    var slot := SealSlot(h, secret, p.beta[..ROUTING_SLOT_LEN]);
    (slot[..32],
     Packet(slot[32..SLOT_GAMMA], p.beta[ROUTING_SLOT_LEN..] + Pad(h, secret), slot[SLOT_GAMMA..],
          SealDelta(h, secret, p.delta)))
  }

  predicate MacVerifies(h: Hash, secret: Block, p: Packet) {
    Mac(h, secret, p.beta) == p.gamma
  }

  /** The packet after the first `k` hops of `path` have peeled it. */
  function PeeledTimes(h: Hash, p: Packet, path: Path, k: nat): Packet
    requires k <= |path|
  {
    if k == 0 then p else Forwarded(h, PeeledTimes(h, p, path, k - 1), path[k - 1].secret)
  }

  function Forwarded(h: Hash, p: Packet, secret: Block): Packet {
    Peeled(h, p, secret).1
  }

  // ---------------------------------------------------------------- the intended onion

  /** The pads the first `k` hops append, in order. */
  function Pads(h: Hash, path: seq<Hop>, k: nat): (r: seq<byte>)
    requires k <= |path|
    ensures |r| == k * ROUTING_SLOT_LEN
  {
    if k == 0 then [] else Pads(h, path, k - 1) + Pad(h, path[k - 1].secret)
  }

  /** The routing block from slot `k` on, sealed inside-out: slot `k` names hop `k + 1` and carries
      the MAC of the block as hop `k + 1` will see it; slots the path does not use keep their fill. */
  function Layers(h: Hash, path: Path, fill: Beta, k: nat): (r: seq<byte>)
    requires k < |path|
    ensures |r| == BETA_LEN - k * ROUTING_SLOT_LEN
    decreases |path| - k, 1
  {
    if k == |path| - 1 then fill[k * ROUTING_SLOT_LEN..]
    else SealedLayer(h, path, fill, k) + Layers(h, path, fill, k + 1)
  }

  function SealedLayer(h: Hash, path: Path, fill: Beta, k: nat): (r: seq<byte>)
    requires k + 1 < |path|
    ensures |r| == ROUTING_SLOT_LEN
    decreases |path| - k, 0
  {
    SealSlot(h, path[k].secret, path[k + 1].id + path[k + 1].header + HopMac(h, path, fill, k + 1))
  }

  /** The routing block as hop `k` sees it. */
  function View(h: Hash, path: Path, fill: Beta, k: nat): Beta
    requires k < |path|
    decreases |path| - k, 2
  {
    Layers(h, path, fill, k) + Pads(h, path, k)
  }

  function HopMac(h: Hash, path: Path, fill: Beta, k: nat): Block
    requires k < |path|
    decreases |path| - k, 3
  {
    Mac(h, path[k].secret, View(h, path, fill, k))
  }

  /** The payload block still under the layers of hops `k`.. of the path. */
  function DeltaAt(h: Hash, path: seq<Hop>, plain: Delta, k: nat): Delta
    requires k <= |path|
    decreases |path| - k
  {
    if k == |path| then plain else SealDelta(h, path[k].secret, DeltaAt(h, path, plain, k + 1))
  }

  /** The packet hop `k` should receive. */
  function OnionAt(h: Hash, path: Path, fill: Beta, plain: Delta, k: nat): Packet
    requires k < |path|
  {
    Packet(path[k].header, View(h, path, fill, k), HopMac(h, path, fill, k), DeltaAt(h, path, plain, k))
  }

  // ---------------------------------------------------------------- every hop verifies

  lemma ViewUnfolds(h: Hash, path: Path, fill: Beta, k: nat)
    requires k + 1 < |path|
    ensures View(h, path, fill, k)[..ROUTING_SLOT_LEN] == SealedLayer(h, path, fill, k)
    ensures View(h, path, fill, k)[ROUTING_SLOT_LEN..] + Pad(h, path[k].secret) == View(h, path, fill, k + 1)
  {
    Shift(SealedLayer(h, path, fill, k), Layers(h, path, fill, k + 1), Pads(h, path, k), Pad(h, path[k].secret));
  }

  /** Dropping the head of a concatenation and appending to its tail. */
  lemma Shift(a: seq<byte>, b: seq<byte>, c: seq<byte>, d: seq<byte>)
    ensures ((a + b) + c)[..|a|] == a
    ensures ((a + b) + c)[|a|..] + d == b + (c + d)
  {
  }

  /** One real peel of the packet for hop `k` gives the packet for hop `k + 1`, and names it. */
  lemma PeelAdvances(h: Hash, path: Path, fill: Beta, plain: Delta, k: nat)
    requires k + 1 < |path|
    ensures Peeled(h, OnionAt(h, path, fill, plain, k), path[k].secret)
         == (path[k + 1].id, OnionAt(h, path, fill, plain, k + 1))
  {
    var s := path[k].secret;
    var mac := HopMac(h, path, fill, k + 1);
    var inner := path[k + 1].id + path[k + 1].header + mac;
    ViewUnfolds(h, path, fill, k);
    XorTwice(inner, Stream(h, STREAM_BETA, s, ROUTING_SLOT_LEN));
    assert inner[..32] == path[k + 1].id && inner[32..SLOT_GAMMA] == path[k + 1].header && inner[SLOT_GAMMA..] == mac;
    XorTwice(DeltaAt(h, path, plain, k + 1), Stream(h, STREAM_DELTA, s, DELTA_LEN));
  }

  /** After `k` real peels of the sender's packet, hop `k` holds exactly the packet meant for it. */
  lemma {:induction false} PeelsReach(h: Hash, path: Path, fill: Beta, plain: Delta, k: nat)
    requires k < |path|
    ensures PeeledTimes(h, OnionAt(h, path, fill, plain, 0), path, k) == OnionAt(h, path, fill, plain, k)
  {
    hide OnionAt, Peeled;
    if k > 0 {
      PeelsReach(h, path, fill, plain, k - 1);
      PeelAdvances(h, path, fill, plain, k - 1);
    }
  }

  /** So at every hop: its own header in alpha, a gamma that verifies under its secret, and (unless
      it is the last) a next peel that names the next hop. */
  lemma EveryHopVerifies(h: Hash, path: Path, fill: Beta, plain: Delta, k: nat)
    requires k < |path|
    ensures var p := PeeledTimes(h, OnionAt(h, path, fill, plain, 0), path, k);
            && p.alpha == path[k].header
            && MacVerifies(h, path[k].secret, p)
            && (k + 1 < |path| ==> Peeled(h, p, path[k].secret).0 == path[k + 1].id)
  {
    PeelsReach(h, path, fill, plain, k);
    if k + 1 < |path| {
      PeelAdvances(h, path, fill, plain, k);
    }
  }

  /** The last hop's peel bares the payload block. */
  lemma PayloadRecovered(h: Hash, path: Path, fill: Beta, plain: Delta)
    ensures PeeledTimes(h, OnionAt(h, path, fill, plain, 0), path, |path|).delta == plain
  {
    hide OnionAt, Forwarded, Peeled, SealDelta, DeltaAt;
    var last := |path| - 1;
    PeelsReach(h, path, fill, plain, last);
    ForwardedDelta(h, OnionAt(h, path, fill, plain, last), path[last].secret);
    LastLayer(h, path, fill, plain);
  }

  lemma LastLayer(h: Hash, path: Path, fill: Beta, plain: Delta)
    ensures SealDelta(h, path[|path| - 1].secret, OnionAt(h, path, fill, plain, |path| - 1).delta) == plain
  {
    hide View, HopMac;
    assert DeltaAt(h, path, plain, |path|) == plain;
    XorTwice(plain, Stream(h, STREAM_DELTA, path[|path| - 1].secret, DELTA_LEN));
  }

  lemma ForwardedDelta(h: Hash, p: Packet, secret: Block)
    ensures Forwarded(h, p, secret).delta == SealDelta(h, secret, p.delta)
  {
  }

  /** A header that was changed on the way cannot pass the MAC it came with, unless the two MAC
      inputs collide. */
  lemma TamperedHeaderFails(h: Hash, secret: Block, p: Packet, q: Packet)
    requires MacVerifies(h, secret, p)
    requires q.beta != p.beta && q.gamma == p.gamma
    ensures MacVerifies(h, secret, q)
       <==> Collision(h, MAC_DOMAIN + secret + p.beta, MAC_DOMAIN + secret + q.beta)
  {
    var x, y := MAC_DOMAIN + secret + p.beta, MAC_DOMAIN + secret + q.beta;
    assert x[|MAC_DOMAIN| + 32..] == p.beta && y[|MAC_DOMAIN| + 32..] == q.beta;
  }
}

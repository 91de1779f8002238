/** The byte-buffer code of sphinx.rs: building, checking and peeling packets in place, each method
    proved equal to its meaning in SphinxOnion. */
module Sphinx {
  import opened Bytes
  import opened SphinxOnion

  // ---------------------------------------------------------------- stream cipher loops

  /** `buf` with the stream of `secret` XORed over bytes `start..end`. */
  function StreamXor(h: Hash, buf: seq<byte>, start: nat, end: nat, secret: Block, domain: seq<byte>): (r: seq<byte>)
    requires start <= end <= |buf|
    ensures |r| == |buf|
  {
    buf[..start] + Xor(buf[start..end], Stream(h, domain, secret, end - start)) + buf[end..]
  }

  method StreamXorRange(h: Hash, buf: array<byte>, start: nat, end: nat, secret: Block, domain: seq<byte>)
    requires start <= end <= buf.Length
    modifies buf
    ensures buf[..] == StreamXor(h, old(buf[..]), start, end, secret, domain)
  {
    hide XoredUpTo, Le64, StreamByte;
    ghost var was, key := buf[..], Stream(h, domain, secret, end - start);
    XorNone(was, key, start);
    var counter, pos := 0, start;
    while pos < end
      invariant start <= pos <= end
      invariant pos < end ==> pos == start + 32 * counter
      invariant XoredUpTo(was, key, start, pos, buf[..])
    {
      var block := h(domain + secret + Le64(counter));
      ghost var base := pos;
      StreamBlock(h, domain, secret, end - start, counter);
      for b := 0 to 32
        invariant pos == if base + b <= end then base + b else end
        invariant XoredUpTo(was, key, start, pos, buf[..])
      {
        if pos >= end { break; }
        ghost var now := buf[..];
        buf[pos] := buf[pos] ^ block[b];
        assert buf[..] == now[pos := now[pos] ^ key[pos - start]];
        XorOneMore(was, key, start, pos, now);
        pos := pos + 1;
      }
      counter := counter + 1;
    }
    XorAll(was, key, start, buf[..]);
  }

  /** Bytes `32 * c`.. of a stream are the digest for counter `c`. */
  lemma StreamBlock(h: Hash, domain: seq<byte>, secret: Block, len: nat, c: nat)
    ensures forall b :: 0 <= b < 32 && 32 * c + b < len ==>
              Stream(h, domain, secret, len)[32 * c + b] == h(domain + secret + Le64(c))[b]
  {
    forall b | 0 <= b < 32 && 32 * c + b < len
      ensures Stream(h, domain, secret, len)[32 * c + b] == h(domain + secret + Le64(c))[b]
    {
      assert (32 * c + b) / 32 == c && (32 * c + b) % 32 == b;
    }
  }

  /** `now` is `was` with `key` XORed over bytes `start..pos`. */
  ghost predicate XoredUpTo(was: seq<byte>, key: seq<byte>, start: nat, pos: nat, now: seq<byte>)
    requires start + |key| <= |was|
    requires start <= pos <= start + |key|
  {
    && |now| == |was|
    && forall i :: 0 <= i < |was| ==>
         now[i] == if start <= i < pos then was[i] ^ key[i - start] else was[i]
  }

  lemma XorNone(was: seq<byte>, key: seq<byte>, start: nat)
    requires start + |key| <= |was|
    ensures XoredUpTo(was, key, start, start, was)
  {
  }

  lemma XorOneMore(was: seq<byte>, key: seq<byte>, start: nat, pos: nat, now: seq<byte>)
    requires start + |key| <= |was|
    requires start <= pos < start + |key|
    requires XoredUpTo(was, key, start, pos, now)
    ensures |now| == |was|
    ensures XoredUpTo(was, key, start, pos + 1, now[pos := now[pos] ^ key[pos - start]])
  {
  }

  lemma XorAll(was: seq<byte>, key: seq<byte>, start: nat, now: seq<byte>)
    requires start + |key| <= |was|
    requires XoredUpTo(was, key, start, start + |key|, now)
    ensures now == was[..start] + Xor(was[start..start + |key|], key) + was[start + |key|..]
  {
  }

  method PeelPad(h: Hash, secret: Block, len: nat) returns (out: array<byte>)
    ensures fresh(out)
    ensures out[..] == Stream(h, PEEL_PAD_DOMAIN, secret, len)
  {
    hide StreamByte, Le64;
    ghost var key := Stream(h, PEEL_PAD_DOMAIN, secret, len);
    out := new byte[len](_ => 0);
    var counter, pos := 0, 0;
    while pos < len
      invariant 0 <= pos <= len
      invariant pos < len ==> pos == 32 * counter
      invariant forall i :: 0 <= i < pos ==> out[i] == key[i]
    {
      var block := h(PEEL_PAD_DOMAIN + secret + Le64(counter));
      ghost var base := pos;
      StreamBlock(h, PEEL_PAD_DOMAIN, secret, len, counter);
      for b := 0 to 32
        invariant pos == if base + b <= len then base + b else len
        invariant forall i :: 0 <= i < pos ==> out[i] == key[i]
      {
        if pos >= len { break; }
        out[pos] := block[b];
        pos := pos + 1;
      }
      counter := counter + 1;
    }
  }

  // ---------------------------------------------------------------- one hop

  method VerifyMac(h: Hash, secret: Block, packet: PacketBytes) returns (ok: bool)
    ensures ok == MacVerifies(h, secret, Fields(packet))
  {
    var expected := Mac(h, secret, packet[OFF_BETA..OFF_GAMMA]);
    ok := expected == packet[OFF_GAMMA..OFF_GAMMA + GAMMA_LEN];
  }

  /** Peels in a copy of the packet buffer. */
  method Peel(h: Hash, packet: PacketBytes, secret: Block) returns (nextHop: Block, out: PacketBytes)
    ensures (nextHop, Fields(out)) == Peeled(h, Fields(packet), secret)
  {
    hide Splice, StreamXor, Wire, Fields, SealDelta, Stream, Le64;
    ghost var p := Fields(packet);
    WireOfFields(packet);
    var buf := ToArray(packet);

    StreamXorRange(h, buf, OFF_BETA, OFF_BETA + ROUTING_SLOT_LEN, secret, STREAM_BETA);
    ghost var slot := SealSlot(h, secret, p.beta[..ROUTING_SLOT_LEN]);
    ghost var p1 := p.(beta := slot + p.beta[ROUTING_SLOT_LEN..]);
    OpenFirstSlot(h, p, secret);
    WireSlices(p1);
    SlotFields(slot, p.beta[ROUTING_SLOT_LEN..]);
    nextHop := buf[OFF_BETA..OFF_BETA + 32];
    var nextHeader := buf[OFF_BETA + 32..OFF_BETA + SLOT_GAMMA];
    var nextGamma := buf[OFF_BETA + SLOT_GAMMA..OFF_BETA + ROUTING_SLOT_LEN];

    CopyWithin(buf, OFF_BETA + ROUTING_SLOT_LEN, OFF_BETA + BETA_LEN, OFF_BETA);
    var pad := PeelPad(h, secret, ROUTING_SLOT_LEN);
    CopyInto(buf, OFF_BETA + BETA_LEN - ROUTING_SLOT_LEN, pad[..]);
    ghost var p2 := p1.(beta := p.beta[ROUTING_SLOT_LEN..] + Pad(h, secret));
    ShiftBeta(p1, pad[..]);

    CopyInto(buf, 0, nextHeader);
    CopyInto(buf, OFF_GAMMA, nextGamma);
    ghost var p3 := p2.(alpha := nextHeader, gamma := nextGamma);
    SwapHeaderAndMac(p2, nextHeader, nextGamma);

    StreamXorRange(h, buf, OFF_DELTA, OFF_DELTA + DELTA_LEN, secret, STREAM_DELTA);
    BareDelta(h, p3, secret);
    FieldsOfWire(p3.(delta := SealDelta(h, secret, p3.delta)));
    out := buf[..];
  }

  lemma OpenFirstSlot(h: Hash, p: Packet, secret: Block)
    ensures StreamXor(h, Wire(p), OFF_BETA, OFF_BETA + ROUTING_SLOT_LEN, secret, STREAM_BETA)
         == Wire(p.(beta := SealSlot(h, secret, p.beta[..ROUTING_SLOT_LEN]) + p.beta[ROUTING_SLOT_LEN..]))
  {
    var b := Wire(p);
    assert b[..OFF_BETA] == p.alpha;
    assert b[OFF_BETA..OFF_BETA + ROUTING_SLOT_LEN] == p.beta[..ROUTING_SLOT_LEN];
    assert b[OFF_BETA + ROUTING_SLOT_LEN..] == p.beta[ROUTING_SLOT_LEN..] + p.gamma + p.delta;
  }

  lemma WireSlices(p: Packet)
    ensures forall i, j :: 0 <= i <= j <= BETA_LEN ==> Wire(p)[OFF_BETA + i..OFF_BETA + j] == p.beta[i..j]
  {
  }

  lemma SlotFields(slot: seq<byte>, rest: seq<byte>)
    requires |slot| == ROUTING_SLOT_LEN
    ensures (slot + rest)[0..32] == slot[..32]
    ensures (slot + rest)[32..SLOT_GAMMA] == slot[32..SLOT_GAMMA]
    ensures (slot + rest)[SLOT_GAMMA..ROUTING_SLOT_LEN] == slot[SLOT_GAMMA..]
    ensures (slot + rest)[ROUTING_SLOT_LEN..] == rest
  {
  }

  /** Shifting the routing block left by a slot and writing the pad over its tail. */
  lemma ShiftBeta(p: Packet, pad: seq<byte>)
    requires |pad| == ROUTING_SLOT_LEN
    ensures Splice(Splice(Wire(p), OFF_BETA, Wire(p)[OFF_BETA + ROUTING_SLOT_LEN..OFF_BETA + BETA_LEN]),
                   OFF_BETA + BETA_LEN - ROUTING_SLOT_LEN, pad)
         == Wire(p.(beta := p.beta[ROUTING_SLOT_LEN..] + pad))
  {
  }

  lemma SwapHeaderAndMac(p: Packet, alpha: KemHeader, gamma: Block)
    ensures Splice(Splice(Wire(p), 0, alpha), OFF_GAMMA, gamma) == Wire(p.(alpha := alpha, gamma := gamma))
  {
  }

  lemma BareDelta(h: Hash, p: Packet, secret: Block)
    ensures StreamXor(h, Wire(p), OFF_DELTA, OFF_DELTA + DELTA_LEN, secret, STREAM_DELTA)
         == Wire(p.(delta := SealDelta(h, secret, p.delta)))
  {
    var b := Wire(p);
    assert b[..OFF_DELTA] == p.alpha + p.beta + p.gamma && b[OFF_DELTA..OFF_DELTA + DELTA_LEN] == p.delta;
    assert b[OFF_DELTA + DELTA_LEN..] == [];
  }
}

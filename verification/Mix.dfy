/** One mix: decapsulate, verify, check for replay, peel; and whole runs of packets through it. */
module Mix {
  import opened Bytes
  import opened SphinxOnion
  import opened Sphinx
  import opened SphinxBuild
  import opened ReplayWindow
  import opened ReplayCaches

  /** A relay's KEM secret, as the function its decapsulation computes. */
  type Decapsulate = KemHeader -> Result<Block, CryptoError>

  datatype Processed = Forward(nextHop: Block, packet: PacketBytes)

  type Verdict = Result<Processed, CryptoError>

  function Outcome(h: Hash, decap: Decapsulate, packet: PacketBytes, c: Cache): (Verdict, Cache) {
    var p := Fields(packet);
    match decap(p.alpha)
    case Err(e) => (Err(e), c)
    case Ok(secret) =>
      if !MacVerifies(h, secret, p) then (Err(IntegrityFailure), c)
      else if !Accepts(c, ReplayTag(h, secret)) then (Err(Replay), c)
      else
        var (nextHop, next) := Peeled(h, p, secret);
        (Ok(Forward(nextHop, Wire(next))), Step(c, Check(ReplayTag(h, secret))))
  }

  method Process(h: Hash, packet: PacketBytes, decap: Decapsulate, replay: ReplayCache) returns (r: Verdict)
    requires replay.Valid()
    modifies replay
    ensures replay.Valid()
    ensures (r, replay.Abs()) == Outcome(h, decap, packet, old(replay.Abs()))
  {
    var header := packet[..OFF_BETA];
    var decapsulated := decap(header);
    if decapsulated.Err? {
      return Err(decapsulated.error);
    }
    var secret := decapsulated.value;
    var verified := VerifyMac(h, secret, packet);
    if !verified {
      return Err(IntegrityFailure);
    }
    var isFresh := replay.CheckAndInsert(ReplayTag(h, secret));
    if !isFresh {
      return Err(Replay);
    }
    var nextHop, out := Peel(h, packet, secret);
    WireOfFields(out);
    return Ok(Forward(nextHop, out));
  }

  // ---------------------------------------------------------------- whole runs

  function Verdicts(h: Hash, decap: Decapsulate, packets: seq<PacketBytes>, c: Cache): (r: seq<Verdict>)
    ensures |r| == |packets|
  {
    if packets == [] then []
    else
      var (v, c') := Outcome(h, decap, packets[0], c);
      [v] + Verdicts(h, decap, packets[1..], c')
  }

  function CacheAfter(h: Hash, decap: Decapsulate, packets: seq<PacketBytes>, c: Cache): Cache {
    if packets == [] then c
    else CacheAfter(h, decap, packets[1..], Outcome(h, decap, packets[0], c).1)
  }

  /** The items of `s` marked in `keep`. */
  function Selected<T>(s: seq<T>, keep: seq<bool>): seq<T>
    requires |s| == |keep|
  {
    if s == [] then [] else (if keep[0] then [s[0]] else []) + Selected(s[1..], keep[1..])
  }

  /** Packets a mix refuses, for integrity, replay or decapsulation, do not disturb it: leaving out any
      of them changes neither the verdict on any other packet nor the final cache. */
  lemma {:induction false} RefusedPacketsDoNotDisturb(h: Hash, decap: Decapsulate, packets: seq<PacketBytes>,
                                                      c: Cache, keep: seq<bool>)
    requires |keep| == |packets|
    requires forall i :: 0 <= i < |packets| && !keep[i] ==> Verdicts(h, decap, packets, c)[i].Err?
    ensures Verdicts(h, decap, Selected(packets, keep), c) == Selected(Verdicts(h, decap, packets, c), keep)
    ensures CacheAfter(h, decap, Selected(packets, keep), c) == CacheAfter(h, decap, packets, c)
  {
    hide Outcome;
    if packets != [] {
      var (v, c') := Outcome(h, decap, packets[0], c);
      var rest, kept := packets[1..], Selected(packets[1..], keep[1..]);
      var all := Verdicts(h, decap, packets, c);
      assert all == [v] + Verdicts(h, decap, rest, c') && all[1..] == Verdicts(h, decap, rest, c');
      assert forall i :: 0 <= i < |rest| ==> Verdicts(h, decap, rest, c')[i] == all[i + 1];
      RefusedPacketsDoNotDisturb(h, decap, rest, c', keep[1..]);
      if keep[0] {
        assert ([packets[0]] + kept)[1..] == kept;
      } else {
        RefusalKeepsCache(h, decap, packets[0], c);
        assert all[0] == v;
        assert Selected(packets, keep) == kept && Selected(all, keep) == Selected(all[1..], keep[1..]);
      }
    }
  }

  lemma RefusalKeepsCache(h: Hash, decap: Decapsulate, packet: PacketBytes, c: Cache)
    requires Outcome(h, decap, packet, c).0.Err?
    ensures Outcome(h, decap, packet, c).1 == c
  {
  }

  // ---------------------------------------------------------------- what gets through

  /** The relay can open the packet's header, and its gamma is the keyed digest of its beta. */
  predicate Authentic(h: Hash, decap: Decapsulate, packet: PacketBytes) {
    && decap(packet[..OFF_BETA]).Ok?
    && packet[OFF_GAMMA..OFF_DELTA] == h(MAC_DOMAIN + decap(packet[..OFF_BETA]).value + packet[OFF_BETA..OFF_GAMMA])
  }

  /** A packet is forwarded if and only if it is authentic and its tag is not remembered; the cache
      changes for no other packet, and then by that tag. */
  lemma ForwardedIff(h: Hash, decap: Decapsulate, packet: PacketBytes, c: Cache)
    ensures var (v, c') := Outcome(h, decap, packet, c);
            && (v.Ok? <==> Authentic(h, decap, packet)
                           && Accepts(c, h(REPLAY_DOMAIN + decap(packet[..OFF_BETA]).value)))
            && (v.Ok? ==> c' == Step(c, Check(h(REPLAY_DOMAIN + decap(packet[..OFF_BETA]).value))))
            && (v.Err? ==> c' == c)
            && (v == Err(IntegrityFailure) <==>
                  || (decap(packet[..OFF_BETA]).Ok? && !Authentic(h, decap, packet))
                  || decap(packet[..OFF_BETA]) == Err(IntegrityFailure))
  {
    hide Step, Peeled;
  }

  /** In any run, every packet forwarded is authentic. */
  lemma {:induction false} RunForwardsAuthentic(h: Hash, decap: Decapsulate, packets: seq<PacketBytes>,
                                                c: Cache, i: nat)
    requires i < |packets| && Verdicts(h, decap, packets, c)[i].Ok?
    ensures Authentic(h, decap, packets[i])
  {
    hide Outcome, Authentic, Accepts;
    ForwardedIff(h, decap, packets[0], c);
    if i > 0 {
      var c' := Outcome(h, decap, packets[0], c).1;
      assert Verdicts(h, decap, packets, c)[i] == Verdicts(h, decap, packets[1..], c')[i - 1];
      RunForwardsAuthentic(h, decap, packets[1..], c', i - 1);
    }
  }

  // ---------------------------------------------------------------- the sender's packet

  /** The packet meant for hop `k` with another routing block, under the same header and MAC and over
      any payload block, is refused for integrity, the cache untouched, if and only if the hash does not
      collide on the two MAC inputs. */
  lemma TamperedRefusedIff(h: Hash, path: Path, fill: Beta, plain: Delta, k: nat, decap: Decapsulate, c: Cache,
                           beta: Beta, delta: Delta)
    requires k < |path| && decap(path[k].header) == Ok(path[k].secret)
    requires beta != OnionAt(h, path, fill, plain, k).beta
    ensures var p := OnionAt(h, path, fill, plain, k);
            (Outcome(h, decap, Wire(p.(beta := beta, delta := delta)), c) == (Err(IntegrityFailure), c)
        <==> !Collision(h, MAC_DOMAIN + path[k].secret + p.beta, MAC_DOMAIN + path[k].secret + beta))
  {
    hide View, HopMac, Wire, Fields, Accepts, Step, Peeled, Mac;
    var p := OnionAt(h, path, fill, plain, k);
    var q := p.(beta := beta, delta := delta);
    FieldsOfWire(q);
    OnionVerifies(h, path, fill, plain, k);
    TamperedHeaderFails(h, path[k].secret, p, q);
  }

  /** At hop `k`, whose relay can open its header and whose cache has not kept its tag, the sender's
      packet is forwarded to hop `k + 1` as the packet meant for that hop; sent once more, it is
      refused as a replay. */
  lemma HopForwards(h: Hash, path: Path, fill: Beta, plain: Delta, k: nat, decap: Decapsulate, c: Cache)
    requires k + 1 < |path|
    requires decap(path[k].header) == Ok(path[k].secret)
    requires c.capacity > 0 && Accepts(c, ReplayTag(h, path[k].secret))
    ensures var packet := Wire(OnionAt(h, path, fill, plain, k));
            var (v, c') := Outcome(h, decap, packet, c);
            && v == Ok(Forward(path[k + 1].id, Wire(OnionAt(h, path, fill, plain, k + 1))))
            && Outcome(h, decap, packet, c').0 == Err(Replay)
  {
    hide View, HopMac, Wire, Fields, Step, Peeled;
    FieldsOfWire(OnionAt(h, path, fill, plain, k));
    PeelAdvances(h, path, fill, plain, k);
    OnionVerifies(h, path, fill, plain, k);
    KeepsWhatItAccepts(c, ReplayTag(h, path[k].secret));
  }

  lemma OnionVerifies(h: Hash, path: Path, fill: Beta, plain: Delta, k: nat)
    requires k < |path|
    ensures MacVerifies(h, path[k].secret, OnionAt(h, path, fill, plain, k))
  {
  }

  lemma KeepsWhatItAccepts(c: Cache, tag: Tag)
    requires c.capacity > 0
    ensures !Accepts(Step(c, Check(tag)), tag)
  {
  }

  // ---------------------------------------------------------------- the whole path

  /** What a whole trip shows: the hops named on the way, and the packet the last relay holds. */
  datatype Arrival = Arrival(named: seq<Block>, packet: PacketBytes)

  /** One packet handed from relay to relay, each with its own secret and its own replay cache, until
      one refuses it or none is left. */
  function Trip(h: Hash, decaps: seq<Decapsulate>, caches: seq<Cache>, packet: PacketBytes)
    : Result<Arrival, CryptoError>
    requires |decaps| == |caches|
  {
    if decaps == [] then Ok(Arrival([], packet))
    else
      match Outcome(h, decaps[0], packet, caches[0]).0
      case Err(e) => Err(e)
      case Ok(f) =>
        match Trip(h, decaps[1..], caches[1..], f.packet)
        case Err(e) => Err(e)
        case Ok(rest) => Ok(Arrival([f.nextHop] + rest.named, rest.packet))
  }

  /** Every relay on the path can open its own header. */
  predicate Serves(path: Path, decaps: seq<Decapsulate>) {
    |decaps| == |path| && forall i :: 0 <= i < |path| ==> decaps[i](path[i].header) == Ok(path[i].secret)
  }

  predicate Unseen(h: Hash, path: Path, caches: seq<Cache>, k: nat) {
    |caches| == |path| && forall i :: k <= i < |path| ==> Accepts(caches[i], ReplayTag(h, path[i].secret))
  }

  /** The sender's packet reaches the end of its path exactly when no cache on it has kept its tag; the
      relays then name the hops of the path in order and the last one bares the payload block. A trip
      that ends early ends as a replay. */
  lemma PathDelivers(h: Hash, path: Path, fill: Beta, plain: Delta, decaps: seq<Decapsulate>, caches: seq<Cache>)
    requires Serves(path, decaps) && |caches| == |path|
    ensures var r := Trip(h, decaps, caches, Wire(OnionAt(h, path, fill, plain, 0)));
            && (r.Ok? <==> Unseen(h, path, caches, 0))
            && (r.Err? ==> r.error == Replay)
            && (r.Ok? ==> |r.value.named| == |path| && Fields(r.value.packet).delta == plain
                          && forall i :: 0 <= i < |path| - 1 ==> r.value.named[i] == path[i + 1].id)
  {
    hide OnionAt, Outcome, Wire, Fields;
    assert decaps[0..] == decaps && caches[0..] == caches;
    TripFrom(h, path, fill, plain, decaps, caches, 0);
  }

  /** How a trip from hop `k` on ends. */
  predicate TripEnds(h: Hash, path: Path, plain: Delta, caches: seq<Cache>, k: nat, r: Result<Arrival, CryptoError>)
    requires k < |path|
  {
    && (r.Ok? <==> Unseen(h, path, caches, k))
    && (r.Err? ==> r.error == Replay)
    && (r.Ok? ==> |r.value.named| == |path| - k && Fields(r.value.packet).delta == plain
                  && forall i :: 0 <= i < |path| - 1 - k ==> r.value.named[i] == path[k + i + 1].id)
  }

  lemma {:induction false} TripFrom(h: Hash, path: Path, fill: Beta, plain: Delta, decaps: seq<Decapsulate>,
                                    caches: seq<Cache>, k: nat)
    requires Serves(path, decaps) && |caches| == |path| && k < |path|
    ensures TripEnds(h, path, plain, caches, k,
                     Trip(h, decaps[k..], caches[k..], Wire(OnionAt(h, path, fill, plain, k))))
    decreases |path| - k
  {
    hide OnionAt, Outcome, Wire, Fields, Trip, TripEnds, Unseen, Accepts;
    var packet := Wire(OnionAt(h, path, fill, plain, k));
    HopVerdict(h, path, fill, plain, k, decaps[k], caches[k]);
    TripStep(h, decaps, caches, k, packet);
    UnseenStep(h, path, caches, k);
    if k + 1 < |path| {
      TripFrom(h, path, fill, plain, decaps, caches, k + 1);
    }
    TripEndsStep(h, path, plain, caches, k, Outcome(h, decaps[k], packet, caches[k]).0,
                 if k + 1 == |path| then Err(Replay)
                 else Trip(h, decaps[k + 1..], caches[k + 1..], Wire(OnionAt(h, path, fill, plain, k + 1))));
  }

  lemma UnseenStep(h: Hash, path: Path, caches: seq<Cache>, k: nat)
    requires |caches| == |path| && k < |path|
    ensures Unseen(h, path, caches, k)
       <==> Accepts(caches[k], ReplayTag(h, path[k].secret)) && Unseen(h, path, caches, k + 1)
    ensures k + 1 == |path| ==> Unseen(h, path, caches, k + 1)
  {
  }

  /** From how the rest of a trip ends to how the trip does. */
  lemma TripEndsStep(h: Hash, path: Path, plain: Delta, caches: seq<Cache>, k: nat, v: Verdict,
                     rest: Result<Arrival, CryptoError>)
    requires |caches| == |path| && k < |path|
    requires v.Err? ==> v.error == Replay && !Unseen(h, path, caches, k)
    requires v.Ok? && k + 1 == |path| ==> Unseen(h, path, caches, k) && Fields(v.value.packet).delta == plain
    requires v.Ok? && k + 1 < |path| ==>
               v.value.nextHop == path[k + 1].id && TripEnds(h, path, plain, caches, k + 1, rest)
    requires v.Ok? ==> (Unseen(h, path, caches, k) <==> Unseen(h, path, caches, k + 1))
    ensures TripEnds(h, path, plain, caches, k,
                     if v.Err? then Err(v.error)
                     else if k + 1 == |path| then Ok(Arrival([v.value.nextHop], v.value.packet))
                     else if rest.Err? then rest
                     else Ok(Arrival([v.value.nextHop] + rest.value.named, rest.value.packet)))
  {
    hide Unseen, Fields;
  }

  lemma TripStep(h: Hash, decaps: seq<Decapsulate>, caches: seq<Cache>, k: nat, packet: PacketBytes)
    requires k < |decaps| == |caches|
    ensures var v := Outcome(h, decaps[k], packet, caches[k]).0;
            var r := Trip(h, decaps[k..], caches[k..], packet);
            && (v.Err? ==> r == Err(v.error))
            && (v.Ok? && k + 1 == |decaps| ==> r == Ok(Arrival([v.value.nextHop], v.value.packet)))
            && (v.Ok? && k + 1 < |decaps| ==>
                  var rest := Trip(h, decaps[k + 1..], caches[k + 1..], v.value.packet);
                  r == if rest.Err? then rest else Ok(Arrival([v.value.nextHop] + rest.value.named, rest.value.packet)))
  {
    hide Outcome;
    assert decaps[k..][1..] == decaps[k + 1..] && caches[k..][1..] == caches[k + 1..];
    var v := Outcome(h, decaps[k], packet, caches[k]).0;
    if v.Ok? && k + 1 == |decaps| {
      assert decaps[k + 1..] == [] && [v.value.nextHop] + [] == [v.value.nextHop];
    }
  }

  /** What hop `k`, able to open its header, does with the packet meant for it. */
  lemma HopVerdict(h: Hash, path: Path, fill: Beta, plain: Delta, k: nat, decap: Decapsulate, c: Cache)
    requires k < |path| && decap(path[k].header) == Ok(path[k].secret)
    ensures var v := Outcome(h, decap, Wire(OnionAt(h, path, fill, plain, k)), c).0;
            if !Accepts(c, ReplayTag(h, path[k].secret)) then v == Err(Replay)
            else if k + 1 < |path| then v == Ok(Forward(path[k + 1].id, Wire(OnionAt(h, path, fill, plain, k + 1))))
            else v.Ok? && Fields(v.value.packet).delta == plain
  {
    hide View, HopMac, Wire, Fields, Step, Accepts, Peeled, DeltaAt;
    var p := OnionAt(h, path, fill, plain, k);
    FieldsOfWire(p);
    OnionVerifies(h, path, fill, plain, k);
    if k + 1 < |path| {
      PeelAdvances(h, path, fill, plain, k);
    } else {
      LastHopBares(h, path, fill, plain);
      FieldsOfWire(Peeled(h, p, path[k].secret).1);
    }
  }

  lemma LastHopBares(h: Hash, path: Path, fill: Beta, plain: Delta)
    ensures Peeled(h, OnionAt(h, path, fill, plain, |path| - 1), path[|path| - 1].secret).1.delta == plain
  {
    hide View, HopMac;
    XorTwice(plain, Stream(h, STREAM_DELTA, path[|path| - 1].secret, DELTA_LEN));
    assert DeltaAt(h, path, plain, |path|) == plain;
  }

  /** From `build` to the exit: any packet `build` may return for these arguments (its fields are the
      onion) arrives, under relays that decapsulate what was encapsulated to them and have not seen it,
      with the payload at the front of the last relay's payload block. The random tail stays behind it. */
  lemma BuiltPayloadArrives(h: Hash, ids: seq<Block>, encaps: seq<Result<Encap, CryptoError>>, payload: seq<byte>,
                            fill: Beta, deltaFill: Delta, packet: PacketBytes,
                            decaps: seq<Decapsulate>, caches: seq<Cache>)
    requires 2 <= |ids| <= MAX_HOPS && |encaps| == |decaps| == |caches| == |ids| && |payload| <= DELTA_LEN
    requires forall i :: 0 <= i < |encaps| ==> encaps[i].Ok?
    requires forall i :: 0 <= i < |ids| ==> decaps[i](encaps[i].value.header) == Ok(encaps[i].value.secret)
    requires Fields(packet) == OnionAt(h, SenderPath(ids, encaps), fill, PlainDelta(payload, deltaFill), 0)
    requires forall i :: 0 <= i < |ids| ==> Accepts(caches[i], ReplayTag(h, encaps[i].value.secret))
    ensures var r := Trip(h, decaps, caches, packet);
            && r.Ok?
            && Fields(r.value.packet).delta[..|payload|] == payload
            && |r.value.named| == |ids| && r.value.named[..|ids| - 1] == ids[1..]
  {
    hide OnionAt, Trip, Wire, Fields, Accepts, ReplayTag;
    WireOfFields(packet);
    PathDelivers(h, SenderPath(ids, encaps), fill, PlainDelta(payload, deltaFill), decaps, caches);
  }

  // ---------------------------------------------------------------- what the exit logs

  /** `payload_prefix`: the payload block up to its last non-zero byte. */
  function PayloadPrefix(delta: seq<byte>): (r: seq<byte>)
    ensures r <= delta && (r == [] || r[|r| - 1] != 0)
    ensures forall i :: |r| <= i < |delta| ==> delta[i] == 0
  {
    if delta == [] || delta[|delta| - 1] != 0 then delta else PayloadPrefix(delta[..|delta| - 1])
  }

  /** The exit logs the payload itself exactly when the random tail came out all zero and the payload
      does not end in a zero byte: `build` fills the tail with random bytes, and the prefix keeps them. */
  lemma PrefixIsPayloadIff(payload: seq<byte>, deltaFill: Delta)
    requires |payload| <= DELTA_LEN
    ensures PayloadPrefix(PlainDelta(payload, deltaFill)) == payload
       <==> && (forall i :: |payload| <= i < DELTA_LEN ==> deltaFill[i] == 0)
            && (payload == [] || payload[|payload| - 1] != 0)
  {
    var delta := PlainDelta(payload, deltaFill);
    var r := PayloadPrefix(delta);
    assert forall i :: |payload| <= i < DELTA_LEN ==> delta[i] == deltaFill[i];
    assert delta[..|payload|] == payload;
    if |r| > |payload| {
      assert r[|r| - 1] == delta[|r| - 1];
    } else if |r| < |payload| {
      assert delta[|payload| - 1] == payload[|payload| - 1];
    } else {
      assert r == delta[..|r|];
    }
  }

  /** A tail that is not zero stays on, and a zero at the payload's end is lost. */
  lemma PrefixIsNotPayload()
    ensures PayloadPrefix(PlainDelta([1], seq(DELTA_LEN, _ => 7))) != [1]
    ensures PayloadPrefix(PlainDelta([1, 0], seq(DELTA_LEN, _ => 0))) != [1, 0]
  {
    hide PayloadPrefix, PlainDelta;
    var sevens: Delta := seq(DELTA_LEN, _ => 7);
    PrefixIsPayloadIff([1], sevens);
    assert sevens[1] == 7;
    PrefixIsPayloadIff([1, 0], seq(DELTA_LEN, _ => 0));
  }
}

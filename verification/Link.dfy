/** The link handshake: MAC transcript, identity binding, both finish steps and the session key, over any
    hash and any commuting Diffie-Hellman. */
module Link {
  import opened Bytes

  const EPH_PUB_LEN := 32
  const NONCE_LEN := 16
  const INIT_LEN := 48

  const AUTH_DOMAIN := Ascii("aegis-link-handshake-auth-v1")
  const HANDSHAKE_MAC_DOMAIN := Ascii("aegis-link-handshake-mac-v1")
  const IDENTITY_DOMAIN := Ascii("aegis-link-handshake-identity-v1")
  const SESSION_DOMAIN := Ascii("aegis-link-session-v1")
  const TRANSCRIPT_DOMAIN := Ascii("aegis-link-handshake-v1")

  const ROLE_INITIATOR: byte := 1
  const ROLE_RESPONDER: byte := 2

  type Nonce = b: seq<byte> | |b| == NONCE_LEN witness seq(NONCE_LEN, _ => 0)

  /** A first message in either direction: an ephemeral public key and a nonce. */
  datatype Hello = Hello(ephPk: Block, nonce: Nonce)

  datatype Transcript = Transcript(initiator: Hello, responder: Hello)

  datatype Binding = Binding(peerRelayId: Block, kemCommitment: Option<Block>)

  /** X25519: public keys, and the shared value of a secret and a peer's public key. */
  datatype Dh = Dh(public: Block -> Block, shared: (Block, Block) -> Block)

  ghost predicate Commutes(dh: Dh) {
    forall a, b :: dh.shared(a, dh.public(b)) == dh.shared(b, dh.public(a))
  }

  // ---------------------------------------------------------------- messages

  function HelloBytes(hello: Hello): seq<byte> {
    hello.ephPk + hello.nonce
  }

  /** `link_handshake_init_write` and `_resp_write`, after the key and nonce are drawn. */
  method WriteHello(ephPk: Block, nonce: Nonce) returns (out: seq<byte>)
    ensures out == HelloBytes(Hello(ephPk, nonce))
  {
    var buf := ToArray(seq(INIT_LEN, _ => 0));
    CopyInto(buf, 0, ephPk);
    CopyInto(buf, EPH_PUB_LEN, nonce);
    out := buf[..];
  }

  function ParseHello(bytes: seq<byte>, what: string): Result<Hello, CryptoError> {
    if |bytes| != INIT_LEN then Err(Malformed(what)) else Ok(Hello(bytes[..EPH_PUB_LEN], bytes[EPH_PUB_LEN..]))
  }

  /** Exactly the 48-byte messages parse, each to the one hello that writes it. */
  lemma ParseIffWritten(bytes: seq<byte>, hello: Hello, what: string)
    ensures ParseHello(bytes, what) == Ok(hello) <==> bytes == HelloBytes(hello)
  {
    var made := HelloBytes(hello);
    assert made[..EPH_PUB_LEN] == hello.ephPk && made[EPH_PUB_LEN..] == hello.nonce;
    if |bytes| == INIT_LEN {
      assert bytes == bytes[..EPH_PUB_LEN] + bytes[EPH_PUB_LEN..];
    }
  }

  function ParseMac(bytes: seq<byte>): Result<Block, CryptoError> {
    if |bytes| != 32 then Err(Malformed("link handshake mac length")) else Ok(bytes)
  }

  // ---------------------------------------------------------------- hash inputs

  function TranscriptBytes(tr: Transcript): seq<byte> {
    HelloBytes(tr.initiator) + HelloBytes(tr.responder)
  }

  function BindingBytes(binding: Option<Binding>): seq<byte> {
    match binding
    case None => []
    case Some(b) =>
      IDENTITY_DOMAIN + b.peerRelayId
      + (match b.kemCommitment case Some(c) => [1 as byte] + c case None => [0 as byte])
  }

  function AuthInput(psk: Block): seq<byte> {
    AUTH_DOMAIN + psk
  }

  function MacInput(authKey: Block, role: byte, tr: Transcript, binding: Option<Binding>): seq<byte> {
    HANDSHAKE_MAC_DOMAIN + authKey + [role] + TranscriptBytes(tr) + BindingBytes(binding)
  }

  function HandshakeMac(h: Hash, psk: Block, role: byte, tr: Transcript, binding: Option<Binding>): Block {
    h(MacInput(h(AuthInput(psk)), role, tr, binding))
  }

  function SessionKey(h: Hash, shared: Block, tr: Transcript): Block {
    h(SESSION_DOMAIN + shared + TRANSCRIPT_DOMAIN + TranscriptBytes(tr))
  }

  // ---------------------------------------------------------------- the two finish steps

  function InitiatorFinish(h: Hash, dh: Dh, psk: Block, initSk: Block, init: Hello, respMsg: seq<byte>,
                           finishMsg: seq<byte>, binding: Option<Binding>): Result<(Block, Block), CryptoError> {
    match ParseHello(respMsg, "link handshake resp length")
    case Err(e) => Err(e)
    case Ok(resp) =>
      var tr := Transcript(init, resp);
      var confirm := HandshakeMac(h, psk, ROLE_INITIATOR, tr, binding);
      match ParseMac(finishMsg)
      case Err(e) => Err(e)
      case Ok(finish) =>
        if HandshakeMac(h, psk, ROLE_RESPONDER, tr, binding) != finish then Err(IntegrityFailure)
        else Ok((SessionKey(h, dh.shared(initSk, resp.ephPk), tr), confirm))
  }

  function ResponderFinish(h: Hash, dh: Dh, psk: Block, respSk: Block, init: Hello, resp: Hello,
                           confirmMsg: seq<byte>, binding: Option<Binding>): Result<Block, CryptoError> {
    match ParseMac(confirmMsg)
    case Err(e) => Err(e)
    case Ok(confirm) =>
      var tr := Transcript(init, resp);
      if HandshakeMac(h, psk, ROLE_INITIATOR, tr, binding) != confirm then Err(IntegrityFailure)
      else Ok(SessionKey(h, dh.shared(respSk, init.ephPk), tr))
  }

  // ---------------------------------------------------------------- the encoding is injective

  lemma TranscriptInjective(a: Transcript, b: Transcript)
    requires TranscriptBytes(a) == TranscriptBytes(b)
    ensures a == b
  {
    assert forall t: Transcript ::
        && TranscriptBytes(t)[..48] == HelloBytes(t.initiator) && TranscriptBytes(t)[48..] == HelloBytes(t.responder)
        && HelloBytes(t.initiator)[..32] == t.initiator.ephPk && HelloBytes(t.initiator)[32..] == t.initiator.nonce
        && HelloBytes(t.responder)[..32] == t.responder.ephPk && HelloBytes(t.responder)[32..] == t.responder.nonce;
  }

  lemma BindingInjective(a: Option<Binding>, b: Option<Binding>)
    requires BindingBytes(a) == BindingBytes(b)
    ensures a == b
  {
    BindingParts(a);
    BindingParts(b);
    hide BindingBytes;
  }

  /** The three shapes of a binding differ in length, and each shows its parts. */
  lemma BindingParts(binding: Option<Binding>)
    ensures var x, n := BindingBytes(binding), |IDENTITY_DOMAIN|;
            match binding
            case None => |x| == 0
            case Some(b) =>
              && |x| == n + 33 + (if b.kemCommitment.Some? then 32 else 0)
              && x[n..n + 32] == b.peerRelayId
              && (b.kemCommitment.Some? ==> x[n + 33..] == b.kemCommitment.value)
  {
    if binding.Some? {
      var b := binding.value;
      if b.kemCommitment.Some? {
        SplitThree(IDENTITY_DOMAIN, b.peerRelayId, [1 as byte] + b.kemCommitment.value);
      } else {
        SplitThree(IDENTITY_DOMAIN, b.peerRelayId, [0 as byte]);
      }
    }
  }

  lemma SplitThree(a: seq<byte>, b: seq<byte>, c: seq<byte>)
    ensures (a + b + c)[|a|..|a| + |b|] == b && (a + b + c)[|a| + |b|..] == c
    ensures c != [] ==> (a + b + c)[|a| + |b| + 1..] == c[1..]
  {
  }

  /** No two different (key, role, transcript, binding) have one encoding, whichever of its three shapes
      the binding takes. */
  lemma MacInputInjective(k1: Block, r1: byte, t1: Transcript, b1: Option<Binding>,
                          k2: Block, r2: byte, t2: Transcript, b2: Option<Binding>)
    ensures MacInput(k1, r1, t1, b1) == MacInput(k2, r2, t2, b2)
       <==> k1 == k2 && r1 == r2 && t1 == t2 && b1 == b2
  {
    hide TranscriptBytes, BindingBytes;
    MacInputParts(k1, r1, t1, b1);
    MacInputParts(k2, r2, t2, b2);
    if MacInput(k1, r1, t1, b1) == MacInput(k2, r2, t2, b2) {
      TranscriptInjective(t1, t2);
      BindingInjective(b1, b2);
    }
  }

  lemma MacInputParts(k: Block, r: byte, t: Transcript, b: Option<Binding>)
    ensures var x := MacInput(k, r, t, b);
            var n := |HANDSHAKE_MAC_DOMAIN|;
            && |x| >= n + 129
            && x[n..n + 32] == k && x[n + 32] == r
            && x[n + 33..n + 129] == TranscriptBytes(t) && x[n + 129..] == BindingBytes(b)
  {
    hide BindingBytes;
    var d, y := HANDSHAKE_MAC_DOMAIN, TranscriptBytes(t);
    assert MacInput(k, r, t, b) == d + (k + ([r] + (y + BindingBytes(b))));
  }

  // ---------------------------------------------------------------- agreement

  /** What each side believes: its key, the transcript it saw, and who it thinks the responder is. */
  datatype Beliefs = Beliefs(psk: Block, tr: Transcript, binding: Option<Binding>)

  function MacFor(h: Hash, b: Beliefs, role: byte): Block {
    HandshakeMac(h, b.psk, role, b.tr, b.binding)
  }

  function InputFor(h: Hash, b: Beliefs, role: byte): seq<byte> {
    MacInput(h(AuthInput(b.psk)), role, b.tr, b.binding)
  }

  /** Two MACs are equal exactly when they are for one role and one set of beliefs, or the hash collides
      on the two MAC inputs, or on the inputs of the two authentication keys. */
  lemma EqualMacsIff(h: Hash, a: Beliefs, ra: byte, b: Beliefs, rb: byte)
    ensures MacFor(h, a, ra) == MacFor(h, b, rb)
       <==> || (a == b && ra == rb)
            || Collision(h, InputFor(h, a, ra), InputFor(h, b, rb))
            || (Collision(h, AuthInput(a.psk), AuthInput(b.psk)) && a.tr == b.tr && a.binding == b.binding && ra == rb)
  {
    hide MacInput;
    var ka, kb := h(AuthInput(a.psk)), h(AuthInput(b.psk));
    MacInputInjective(ka, ra, a.tr, a.binding, kb, rb, b.tr, b.binding);
    assert AuthInput(a.psk)[|AUTH_DOMAIN|..] == a.psk && AuthInput(b.psk)[|AUTH_DOMAIN|..] == b.psk;
  }

  /** A responder accepts an initiator's confirm MAC exactly when it shares the initiator's key,
      transcript and binding, but for the two collisions. */
  lemma ResponderAcceptsIff(h: Hash, dh: Dh, psk: Block, respSk: Block, init: Hello, resp: Hello,
                            binding: Option<Binding>, initiator: Beliefs)
    ensures var mine := Beliefs(psk, Transcript(init, resp), binding);
            (ResponderFinish(h, dh, psk, respSk, init, resp, MacFor(h, initiator, ROLE_INITIATOR), binding).Ok?
       <==> || mine == initiator
            || Collision(h, InputFor(h, mine, ROLE_INITIATOR), InputFor(h, initiator, ROLE_INITIATOR))
            || (Collision(h, AuthInput(psk), AuthInput(initiator.psk))
                && mine.tr == initiator.tr && binding == initiator.binding))
  {
    EqualMacsIff(h, Beliefs(psk, Transcript(init, resp), binding), ROLE_INITIATOR, initiator, ROLE_INITIATOR);
  }

  /** An initiator's own kind of MAC never passes as the responder's finish, whatever it was made for,
      unless the hash collides on inputs that differ in the role. */
  lemma NoReflection(h: Hash, dh: Dh, psk: Block, initSk: Block, init: Hello, resp: Hello,
                     binding: Option<Binding>, other: Beliefs)
    ensures var mine := Beliefs(psk, Transcript(init, resp), binding);
            (InitiatorFinish(h, dh, psk, initSk, init, HelloBytes(resp), MacFor(h, other, ROLE_INITIATOR), binding).Ok?
       <==> Collision(h, InputFor(h, mine, ROLE_RESPONDER), InputFor(h, other, ROLE_INITIATOR)))
  {
    hide MacFor, HelloBytes, HandshakeMac;
    ParseIffWritten(HelloBytes(resp), resp, "link handshake resp length");
    var mine := Beliefs(psk, Transcript(init, resp), binding);
    MacForIs(h, mine, ROLE_RESPONDER);
    EqualMacsIff(h, mine, ROLE_RESPONDER, other, ROLE_INITIATOR);
  }

  lemma MacForIs(h: Hash, b: Beliefs, role: byte)
    ensures MacFor(h, b, role) == HandshakeMac(h, b.psk, role, b.tr, b.binding)
  {
  }

  /** What is hashed for a session key. */
  function KeyInput(shared: Block, tr: Transcript): seq<byte> {
    SESSION_DOMAIN + shared + TRANSCRIPT_DOMAIN + TranscriptBytes(tr)
  }

  lemma KeyInputInjective(s1: Block, t1: Transcript, s2: Block, t2: Transcript)
    ensures KeyInput(s1, t1) == KeyInput(s2, t2) <==> s1 == s2 && t1 == t2
  {
    hide TranscriptBytes;
    KeyInputParts(s1, t1);
    KeyInputParts(s2, t2);
    if KeyInput(s1, t1) == KeyInput(s2, t2) {
      TranscriptInjective(t1, t2);
    }
  }

  lemma KeyInputParts(s: Block, t: Transcript)
    ensures var x, n, m := KeyInput(s, t), |SESSION_DOMAIN|, |SESSION_DOMAIN| + 32 + |TRANSCRIPT_DOMAIN|;
            |x| >= m && x[n..n + 32] == s && x[m..] == TranscriptBytes(t)
  {
    hide TranscriptBytes;
    SplitThree(SESSION_DOMAIN, s, TRANSCRIPT_DOMAIN + TranscriptBytes(t));
    SplitThree(SESSION_DOMAIN + s, TRANSCRIPT_DOMAIN, TranscriptBytes(t));
    assert KeyInput(s, t) == SESSION_DOMAIN + s + (TRANSCRIPT_DOMAIN + TranscriptBytes(t));
  }

  /** One side's view of the exchange its key comes from. */
  datatype Exchange = Exchange(secret: Block, peer: Block, tr: Transcript)

  function InputOf(dh: Dh, x: Exchange): seq<byte> {
    KeyInput(dh.shared(x.secret, x.peer), x.tr)
  }

  /** The keys of any two finished initiators are equal exactly when they share the Diffie-Hellman value
      and the transcript, or the hash collides on their two key inputs. */
  lemma InitiatorKeysEqualIff(h: Hash, dh: Dh, psk1: Block, sk1: Block, init1: Hello, resp1: Hello, fin1: seq<byte>,
                              b1: Option<Binding>, psk2: Block, sk2: Block, init2: Hello, resp2: Hello,
                              fin2: seq<byte>, b2: Option<Binding>)
    requires InitiatorFinish(h, dh, psk1, sk1, init1, HelloBytes(resp1), fin1, b1).Ok?
    requires InitiatorFinish(h, dh, psk2, sk2, init2, HelloBytes(resp2), fin2, b2).Ok?
    ensures var k1 := InitiatorFinish(h, dh, psk1, sk1, init1, HelloBytes(resp1), fin1, b1).value.0;
            var k2 := InitiatorFinish(h, dh, psk2, sk2, init2, HelloBytes(resp2), fin2, b2).value.0;
            var x1 := Exchange(sk1, resp1.ephPk, Transcript(init1, resp1));
            var x2 := Exchange(sk2, resp2.ephPk, Transcript(init2, resp2));
            (k1 == k2 <==>
              || (dh.shared(sk1, resp1.ephPk) == dh.shared(sk2, resp2.ephPk) && x1.tr == x2.tr)
              || Collision(h, InputOf(dh, x1), InputOf(dh, x2)))
  {
    hide HelloBytes, HandshakeMac;
    ParseIffWritten(HelloBytes(resp1), resp1, "link handshake resp length");
    ParseIffWritten(HelloBytes(resp2), resp2, "link handshake resp length");
    KeyInputInjective(dh.shared(sk1, resp1.ephPk), Transcript(init1, resp1),
                      dh.shared(sk2, resp2.ephPk), Transcript(init2, resp2));
  }

  /** Likewise for two responders. */
  lemma ResponderKeysEqualIff(h: Hash, dh: Dh, psk1: Block, sk1: Block, init1: Hello, resp1: Hello, mac1: seq<byte>,
                              b1: Option<Binding>, psk2: Block, sk2: Block, init2: Hello, resp2: Hello,
                              mac2: seq<byte>, b2: Option<Binding>)
    requires ResponderFinish(h, dh, psk1, sk1, init1, resp1, mac1, b1).Ok?
    requires ResponderFinish(h, dh, psk2, sk2, init2, resp2, mac2, b2).Ok?
    ensures var x1 := Exchange(sk1, init1.ephPk, Transcript(init1, resp1));
            var x2 := Exchange(sk2, init2.ephPk, Transcript(init2, resp2));
            (ResponderFinish(h, dh, psk1, sk1, init1, resp1, mac1, b1)
               == ResponderFinish(h, dh, psk2, sk2, init2, resp2, mac2, b2) <==>
              || (dh.shared(sk1, init1.ephPk) == dh.shared(sk2, init2.ephPk) && x1.tr == x2.tr)
              || Collision(h, InputOf(dh, x1), InputOf(dh, x2)))
  {
    hide HandshakeMac;
    KeyInputInjective(dh.shared(sk1, init1.ephPk), Transcript(init1, resp1),
                      dh.shared(sk2, init2.ephPk), Transcript(init2, resp2));
  }

  /** What a finish complains of: the other side's message or MAC of the wrong length, and otherwise only a
      MAC that does not verify. */
  lemma FinishComplains(h: Hash, dh: Dh, psk: Block, sk: Block, init: Hello, respMsg: seq<byte>, finishMsg: seq<byte>,
                        resp: Hello, confirmMsg: seq<byte>, binding: Option<Binding>)
    ensures var i := InitiatorFinish(h, dh, psk, sk, init, respMsg, finishMsg, binding);
            && (|respMsg| != 48 ==> i == Err(Malformed("link handshake resp length")))
            && (|respMsg| == 48 && |finishMsg| != 32 ==> i == Err(Malformed("link handshake mac length")))
            && (|respMsg| == 48 && |finishMsg| == 32 && i.Err? ==> i.error == IntegrityFailure)
    ensures var r := ResponderFinish(h, dh, psk, sk, init, resp, confirmMsg, binding);
            && (|confirmMsg| != 32 ==> r == Err(Malformed("link handshake mac length")))
            && (|confirmMsg| == 32 && r.Err? ==> r.error == IntegrityFailure)
  {
    hide HandshakeMac, SessionKey;
  }

  /** Both ends of a handshake whose messages and MACs reached each other, made with one key and one
      binding, finish, and with the same session key. */
  lemma HonestHandshakeAgrees(h: Hash, dh: Dh, psk: Block, initSk: Block, respSk: Block, nonceI: Nonce, nonceR: Nonce,
                              binding: Option<Binding>)
    requires Commutes(dh)
    ensures var init, resp := Hello(dh.public(initSk), nonceI), Hello(dh.public(respSk), nonceR);
            var tr := Transcript(init, resp);
            var i := InitiatorFinish(h, dh, psk, initSk, init, HelloBytes(resp),
                                     HandshakeMac(h, psk, ROLE_RESPONDER, tr, binding), binding);
            && i.Ok?
            && ResponderFinish(h, dh, psk, respSk, init, resp, i.value.1, binding) == Ok(i.value.0)
  {
    hide HandshakeMac, HelloBytes, SessionKey;
    var resp := Hello(dh.public(respSk), nonceR);
    ParseIffWritten(HelloBytes(resp), resp, "link handshake resp length");
  }

  /** Whatever happened to the messages on the way: if the responder accepts the MAC the initiator made
      from what it saw, and the initiator finished, both hold the same session key, unless the hash
      collides on the two MAC inputs or the two key inputs. */
  lemma AcceptanceMeansSameKey(h: Hash, dh: Dh, pskI: Block, initSk: Block, nonceI: Nonce, respSeen: Hello,
                               finishMsg: seq<byte>, bindingI: Option<Binding>,
                               pskR: Block, respSk: Block, initSeen: Hello, nonceR: Nonce, bindingR: Option<Binding>)
    requires Commutes(dh)
    requires var init := Hello(dh.public(initSk), nonceI);
             InitiatorFinish(h, dh, pskI, initSk, init, HelloBytes(respSeen), finishMsg, bindingI).Ok?
    ensures var init, resp := Hello(dh.public(initSk), nonceI), Hello(dh.public(respSk), nonceR);
            var i := InitiatorFinish(h, dh, pskI, initSk, init, HelloBytes(respSeen), finishMsg, bindingI).value;
            var r := ResponderFinish(h, dh, pskR, respSk, initSeen, resp, i.1, bindingR);
            var a := Beliefs(pskI, Transcript(init, respSeen), bindingI);
            var b := Beliefs(pskR, Transcript(initSeen, resp), bindingR);
            r.Ok? ==>
              || (a == b && r == Ok(i.0))
              || Collision(h, InputFor(h, b, ROLE_INITIATOR), InputFor(h, a, ROLE_INITIATOR))
              || Collision(h, AuthInput(pskR), AuthInput(pskI))
  {
    hide HelloBytes, SessionKey, HandshakeMac, InputFor;
    var init, resp := Hello(dh.public(initSk), nonceI), Hello(dh.public(respSk), nonceR);
    ParseIffWritten(HelloBytes(respSeen), respSeen, "link handshake resp length");
    var a := Beliefs(pskI, Transcript(init, respSeen), bindingI);
    MacForIs(h, a, ROLE_INITIATOR);
    ResponderAcceptsIff(h, dh, pskR, respSk, initSeen, resp, bindingR, a);
  }
}

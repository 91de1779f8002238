/** What the Sphinx hash inputs keep apart: streams by domain, secret and counter, MACs by secret and
    header, replay tags by secret. Each equality of outputs is an equality of meanings or a collision of
    two named hash inputs. */
module SphinxKeys {
  import opened Bytes
  import opened SphinxOnion

  /** A counter the code can reach. */
  type Counter = c: nat | c < 0x1_0000_0000_0000_0000

  /** What is hashed for block `c` of a stream. */
  function BlockInput(domain: seq<byte>, secret: Block, c: Counter): seq<byte> {
    domain + secret + Le64(c)
  }

  predicate IsStreamDomain(d: seq<byte>) {
    d == STREAM_BETA || d == STREAM_DELTA || d == PEEL_PAD_DOMAIN
  }

  /** Block inputs tell domain, secret and counter apart. */
  lemma BlockInputInjective(d1: seq<byte>, s1: Block, c1: Counter, d2: seq<byte>, s2: Block, c2: Counter)
    requires IsStreamDomain(d1) && IsStreamDomain(d2)
    ensures BlockInput(d1, s1, c1) == BlockInput(d2, s2, c2) <==> d1 == d2 && s1 == s2 && c1 == c2
  {
    hide Le64;
    Le64Injective(c1, c2);
    var x, y := BlockInput(d1, s1, c1), BlockInput(d2, s2, c2);
    assert |d1| == |x| - 40 && |d2| == |y| - 40;
    if x == y {
      assert d1 == x[..|d1|] == d2;
      assert s1 == x[|d1|..|d1| + 32] == s2;
      assert Le64(c1) == x[|d1| + 32..] == Le64(c2);
    }
  }

  /** Block `c` of a stream. */
  function BlockOf(h: Hash, domain: seq<byte>, secret: Block, len: nat, c: Counter): Block
    requires 32 * c + 32 <= len
  {
    Stream(h, domain, secret, len)[32 * c..32 * c + 32]
  }

  lemma BlockIs(h: Hash, domain: seq<byte>, secret: Block, len: nat, c: Counter)
    requires 32 * c + 32 <= len
    ensures BlockOf(h, domain, secret, len, c) == h(BlockInput(domain, secret, c))
  {
    hide Le64;
    var stream, block := Stream(h, domain, secret, len), h(BlockInput(domain, secret, c));
    forall b | 0 <= b < 32 ensures stream[32 * c + b] == block[b] {
      assert (32 * c + b) / 32 == c && (32 * c + b) % 32 == b;
    }
  }

  /** Two blocks, of one stream or of two, are equal exactly when they are the same block of the same
      stream, or the hash collides on their inputs. So no key byte block is ever used twice. */
  lemma BlocksEqualIff(h: Hash, len: nat, d1: seq<byte>, s1: Block, c1: Counter, d2: seq<byte>, s2: Block, c2: Counter)
    requires IsStreamDomain(d1) && IsStreamDomain(d2) && 32 * c1 + 32 <= len && 32 * c2 + 32 <= len
    ensures BlockOf(h, d1, s1, len, c1) == BlockOf(h, d2, s2, len, c2)
       <==> || (d1 == d2 && s1 == s2 && c1 == c2)
            || Collision(h, BlockInput(d1, s1, c1), BlockInput(d2, s2, c2))
  {
    hide BlockOf, BlockInput;
    BlockIs(h, d1, s1, len, c1);
    BlockIs(h, d2, s2, len, c2);
    BlockInputInjective(d1, s1, c1, d2, s2, c2);
  }

  /** The three uses of streams are three domains: slots, payload layers and pads. */
  lemma StreamsOfUses(h: Hash, secret: Block, slot: seq<byte>, delta: Delta)
    ensures Pad(h, secret) == Stream(h, PEEL_PAD_DOMAIN, secret, ROUTING_SLOT_LEN)
    ensures Xor(SealSlot(h, secret, slot), slot) == Stream(h, STREAM_BETA, secret, |slot|)
    ensures Xor(SealDelta(h, secret, delta), delta) == Stream(h, STREAM_DELTA, secret, DELTA_LEN)
    ensures STREAM_BETA != STREAM_DELTA && STREAM_BETA != PEEL_PAD_DOMAIN && STREAM_DELTA != PEEL_PAD_DOMAIN
  {
    XorCancels(slot, Stream(h, STREAM_BETA, secret, |slot|));
    XorCancels(delta, Stream(h, STREAM_DELTA, secret, DELTA_LEN));
  }

  lemma XorCancels(a: seq<byte>, k: seq<byte>)
    requires |a| == |k|
    ensures Xor(Xor(a, k), a) == k
  {
    assert forall i :: 0 <= i < |a| ==> (a[i] ^ k[i]) ^ a[i] == k[i];
  }

  /** Two headers have one MAC exactly when they are the same under the same secret, or the hash collides. */
  lemma MacsEqualIff(h: Hash, s: Block, beta: seq<byte>, s': Block, beta': seq<byte>)
    ensures Mac(h, s, beta) == Mac(h, s', beta')
       <==> || (s == s' && beta == beta')
            || Collision(h, MAC_DOMAIN + s + beta, MAC_DOMAIN + s' + beta')
  {
    SecretRead(MAC_DOMAIN, s, beta);
    SecretRead(MAC_DOMAIN, s', beta');
  }

  /** Two secrets have one replay tag exactly when they are equal or the hash collides: a relay refuses
      as a replay only what was encapsulated as something it has seen. */
  lemma TagsEqualIff(h: Hash, s: Block, s': Block)
    ensures ReplayTag(h, s) == ReplayTag(h, s') <==> s == s' || Collision(h, REPLAY_DOMAIN + s, REPLAY_DOMAIN + s')
  {
    SecretRead(REPLAY_DOMAIN, s, []);
    SecretRead(REPLAY_DOMAIN, s', []);
    assert REPLAY_DOMAIN + s + [] == REPLAY_DOMAIN + s && REPLAY_DOMAIN + s' + [] == REPLAY_DOMAIN + s';
  }

  lemma SecretRead(domain: seq<byte>, secret: Block, rest: seq<byte>)
    ensures var x := domain + secret + rest;
            x[|domain|..|domain| + 32] == secret && x[|domain| + 32..] == rest
  {
  }
}

/** Byte strings, the hash the protocol is parametric in, and the shared result types. */
module Bytes {
  type byte = bv8

  /** A 32-byte block: a SHA3-256 digest, a shared secret, a relay id, a MAC. */
  type Block = b: seq<byte> | |b| == 32 witness seq(32, _ => 0)

  /** SHA3-256 is left uninterpreted: every result holds for any total function to 32 bytes. */
  type Hash = seq<byte> -> Block

  datatype Option<+T> = None | Some(value: T)

  datatype Result<+T, +E> = Ok(value: T) | Err(error: E)

  datatype CryptoError = Malformed(what: string) | IntegrityFailure | Replay

  /** A byte-string literal. */
  function Ascii(s: string): (r: seq<byte>)
    ensures |r| == |s|
    ensures forall i :: 0 <= i < |s| && s[i] as int < 128 ==> r[i] as int == s[i] as int
  {
    LowBytes(s);
    seq(|s|, i requires 0 <= i < |s| => LowByte(s[i]))
  }

  function LowByte(c: char): byte {
    (c as int % 256) as byte
  }

  lemma LowBytes(s: string)
    ensures forall i :: 0 <= i < |s| && s[i] as int < 128 ==> LowByte(s[i]) as int == s[i] as int
  {
    hide LowByte;
    forall i | 0 <= i < |s| && s[i] as int < 128 ensures LowByte(s[i]) as int == s[i] as int {
      LowByteIs(s[i]);
    }
  }

  lemma LowByteIs(c: char)
    requires c as int < 128
    ensures LowByte(c) as int == c as int
  {
    ByteOf(c as int);
  }

  /** `n.to_le_bytes()` for a u64. */
  function Le64(n: nat): (r: seq<byte>)
    ensures |r| == 8
  {
    LittleEndian(n, 8)
  }

  function LittleEndian(n: nat, len: nat): (r: seq<byte>)
    ensures |r| == len
  {
    if len == 0 then [] else [(n % 256) as byte] + LittleEndian(n / 256, len - 1)
  }

  function Pow256(len: nat): nat {
    if len == 0 then 1 else 256 * Pow256(len - 1)
  }

  /** The number that bytes spell, least significant first. */
  function Value(s: seq<byte>): nat {
    if s == [] then 0 else s[0] as nat + 256 * Value(s[1..])
  }

  /** Numbers that fit are read back from their bytes. */
  lemma {:induction false} LittleEndianValue(n: nat, len: nat)
    requires n < Pow256(len)
    ensures Value(LittleEndian(n, len)) == n
  {
    if len > 0 {
      LittleEndianValue(n / 256, len - 1);
      ByteOf(n % 256);
    }
  }

  /** Numbers below 256 and bytes correspond. */
  lemma ByteOf(d: int)
    requires 0 <= d < 256
    ensures (d as byte) as int == d
  {
    var high, low := (d / 16) as byte, (d % 16) as byte;
    NibbleOf(d / 16);
    NibbleOf(d % 16);
    NibblesJoin(high, low);
    ByteBack(16 * high + low);
  }

  lemma ByteBack(b: byte)
    ensures (b as int) as byte == b
  {
  }

  lemma NibbleOf(d: int)
    requires 0 <= d < 16
    ensures (d as byte) as int == d
  {
  }

  lemma NibblesJoin(high: byte, low: byte)
    requires high as int < 16 && low as int < 16
    ensures (16 * high + low) as int == 16 * (high as int) + low as int
  {
  }

  /** No two 64-bit counters have the same bytes. */
  lemma Le64Injective(m: nat, n: nat)
    requires m < 0x1_0000_0000_0000_0000 && n < 0x1_0000_0000_0000_0000
    ensures Le64(m) == Le64(n) <==> m == n
  {
    assert Pow256(8) == 0x1_0000_0000_0000_0000 by { Pow256Of8(); }
    LittleEndianValue(m, 8);
    LittleEndianValue(n, 8);
  }

  lemma Pow256Of8()
    ensures Pow256(8) == 0x1_0000_0000_0000_0000
  {
    assert Pow256(4) == 0x1_0000_0000;
  }

  /** `buf` with `data` copied over it at `off`. */
  function Splice(buf: seq<byte>, off: nat, data: seq<byte>): (r: seq<byte>)
    requires off + |data| <= |buf|
    ensures |r| == |buf|
    ensures forall i :: 0 <= i < |buf| ==>
              r[i] == if off <= i < off + |data| then data[i - off] else buf[i]
  {
    buf[..off] + data + buf[off + |data|..]
  }

  /** Two different inputs with one digest: what a collision-resistant hash never shows. */
  ghost predicate Collision(h: Hash, x: seq<byte>, y: seq<byte>) {
    x != y && h(x) == h(y)
  }

  /** `buf[off..off + |data|].copy_from_slice(data)`. */
  method CopyInto(buf: array<byte>, off: nat, data: seq<byte>)
    requires off + |data| <= buf.Length
    modifies buf
    ensures buf[..] == Splice(old(buf[..]), off, data)
  {
    forall i | 0 <= i < |data| {
      buf[off + i] := data[i];
    }
  }

  /** `buf.copy_within(from..to, dest)`. */
  method CopyWithin(buf: array<byte>, from: nat, to: nat, dest: nat)
    requires from <= to <= buf.Length && dest + (to - from) <= buf.Length
    modifies buf
    ensures buf[..] == Splice(old(buf[..]), dest, old(buf[from..to]))
  {
    CopyInto(buf, dest, buf[from..to]);
  }

  /** A fresh buffer holding `data`. */
  method ToArray(data: seq<byte>) returns (buf: array<byte>)
    ensures fresh(buf) && buf[..] == data
  {
    buf := new byte[|data|](i requires 0 <= i < |data| => data[i]);
  }
}

/** Bytes of memory and the little-endian 32-bit words stored in them. */
module Bytes {
  type byte = x: int | 0 <= x < 256

  const U32: int := 0x1_0000_0000

  function Word(b0: int, b1: int, b2: int, b3: int): int {
    b0 + 0x100 * b1 + 0x1_0000 * b2 + 0x100_0000 * b3
  }

  /** Byte k of v. */
  function Part(v: nat, k: nat): byte
    requires v < U32 && k < 4
  {
    match k
    case 0 => v % 0x100
    case 1 => v / 0x100 % 0x100
    case 2 => v / 0x1_0000 % 0x100
    case _ => v / 0x100_0000
  }

  lemma WordParts(v: nat)
    requires v < U32
    ensures Word(Part(v, 0), Part(v, 1), Part(v, 2), Part(v, 3)) == v
  {
    assert v / 0x1_0000 == v / 0x100 / 0x100;
    assert v / 0x100_0000 == v / 0x1_0000 / 0x100;
  }

  function Read32(m: seq<byte>, p: nat): (v: nat)
    requires p + 4 <= |m|
    ensures v < U32
  {
    Word(m[p], m[p + 1], m[p + 2], m[p + 3])
  }

  function Write32(m: seq<byte>, p: nat, v: nat): (r: seq<byte>)
    requires p + 4 <= |m| && v < U32
    ensures |r| == |m|
    ensures forall k :: 0 <= k < |m| && !(p <= k < p + 4) ==> r[k] == m[k]
    ensures Read32(r, p) == v
  {
    WordParts(v);
    m[p := Part(v, 0)][p + 1 := Part(v, 1)][p + 2 := Part(v, 2)][p + 3 := Part(v, 3)]
  }

  /** Memory with n bytes from position p set to zero. */
  function Zeroed(m: seq<byte>, p: nat, n: nat): (r: seq<byte>)
    requires p + n <= |m|
    ensures |r| == |m|
    ensures forall k :: 0 <= k < |m| ==> r[k] == if p <= k < p + n then 0 else m[k]
  {
    m[..p] + seq(n, _ => 0) + m[p + n..]
  }

  /** The same when asked to. */
  function Scrubbed(m: seq<byte>, p: nat, n: nat, secure: bool): seq<byte> {
    if secure && p + n <= |m| then Zeroed(m, p, n) else m
  }

  /** A word is not affected by a write to other bytes. */
  lemma Read32Frame(m: seq<byte>, r: seq<byte>, p: nat)
    requires |r| == |m| && p + 4 <= |m|
    requires forall k :: p <= k < p + 4 ==> r[k] == m[k]
    ensures Read32(r, p) == Read32(m, p)
  {}

  /** A copied word says the same. */
  lemma Read32Copy(m: seq<byte>, r: seq<byte>, p: nat, q: nat)
    requires p + 4 <= |m| && q + 4 <= |r| && r[q..q + 4] == m[p..p + 4]
    ensures Read32(r, q) == Read32(m, p)
  {
    var w, v := m[p..p + 4], r[q..q + 4];
    assert w[0] == m[p] && w[1] == m[p + 1] && w[2] == m[p + 2] && w[3] == m[p + 3];
    assert v[0] == r[q] && v[1] == r[q + 1] && v[2] == r[q + 2] && v[3] == r[q + 3];
  }
}

/** SHA-1 as sections 4, 5 and 6.1 of RFC 3174 define it. */
module Sha1Spec {
  import opened Machine

  type word = bv32
  type byte = bv8

  /** S^n(X), section 3 */
  function Rotl(n: word, x: word): word
    requires 0 < n < 32
  {
    (x << n) | (x >> (32 - n))
  }

  /** A word from four bytes, most significant first. */
  function BigEndian(b0: byte, b1: byte, b2: byte, b3: byte): word {
    ((b0 as word) << 24) | ((b1 as word) << 16) | ((b2 as word) << 8) | (b3 as word)
  }

  function BigEndianBytes(w: word): (r: seq<byte>)
    ensures |r| == 4
  {
    [((w >> 24) & 0xFF) as byte, ((w >> 16) & 0xFF) as byte, ((w >> 8) & 0xFF) as byte, (w & 0xFF) as byte]
  }

  /** The low 32 bits of a number. */
  function LowWord(x: nat): word {
    (x % 0x1_0000_0000) as word
  }

  // ---------------------------------------------------------------- section 4: padding

  /** The 64-bit length of the message in bits. */
  function LengthBytes(bits: nat): (r: seq<byte>)
    ensures |r| == 8
  {
    BigEndianBytes(LowWord(bits / 0x1_0000_0000)) + BigEndianBytes(LowWord(bits))
  }

  function ZeroCount(length: nat): (k: nat)
    ensures (length + 1 + k + 8) % 64 == 0 && k < 64
  {
    (119 - length % 64) % 64
  }

  function Suffix(length: nat, bits: nat): (r: seq<byte>)
    ensures |r| == 1 + ZeroCount(length) + 8
  {
    [0x80] + Repeat(0, ZeroCount(length)) + LengthBytes(bits)
  }

  /** A message followed by a 1 bit, the fewest zeroes, and a length field. */
  function PadWith(msg: seq<byte>, bits: nat): (r: seq<byte>)
    ensures |r| % 64 == 0 && |r| == |msg| + 1 + ZeroCount(|msg|) + 8
  {
    msg + Suffix(|msg|, bits)
  }

  function Pad(msg: seq<byte>): seq<byte> {
    PadWith(msg, 8 * |msg|)
  }

  // ---------------------------------------------------------------- section 5: functions and constants

  function F(t: nat, b: word, c: word, d: word): word
    requires t < 80
  {
    if t < 20 then (b & c) | (!b & d)
    else if t < 40 then b ^ c ^ d
    else if t < 60 then (b & c) | (b & d) | (c & d)
    else b ^ c ^ d
  }

  function K(t: nat): word
    requires t < 80
  {
    if t < 20 then 0x5A827999 else if t < 40 then 0x6ED9EBA1 else if t < 60 then 0x8F1BBCDC else 0xCA62C1D6
  }

  // ---------------------------------------------------------------- section 6.1: the digest

  datatype Registers = Registers(a: word, b: word, c: word, d: word, e: word)

  const INITIAL := Registers(0x67452301, 0xEFCDAB89, 0x98BADCFE, 0x10325476, 0xC3D2E1F0)

  /** W(t): the message schedule of a block. */
  function W(block: seq<byte>, t: nat): word
    requires |block| == 64 && t < 80
  {
    if t < 16 then BigEndian(block[4 * t], block[4 * t + 1], block[4 * t + 2], block[4 * t + 3])
    else Mix(W(block, t - 3), W(block, t - 8), W(block, t - 14), W(block, t - 16))
  }

  function Mix(x: word, y: word, z: word, w: word): word {
    Rotl(1, Xor(Xor(Xor(x, y), z), w))
  }

  function Xor(x: word, y: word): word { x ^ y }

  function Round(r: Registers, t: nat, w: word): Registers
    requires t < 80
  {
    Registers(Temp(Rotl(5, r.a), F(t, r.b, r.c, r.d), r.e, w, K(t)), r.a, Rotl(30, r.b), r.c, r.d)
  }

  function Temp(rotated: word, f: word, e: word, w: word, k: word): word {
    rotated + f + e + w + k
  }

  /** The registers after the first t rounds. */
  function Rounds(block: seq<byte>, h: Registers, t: nat): Registers
    requires |block| == 64 && t <= 80
  {
    if t == 0 then h else Round(Rounds(block, h, t - 1), t - 1, W(block, t - 1))
  }

  function Sum(h: Registers, r: Registers): Registers {
    Registers(h.a + r.a, h.b + r.b, h.c + r.c, h.d + r.d, h.e + r.e)
  }

  function Compress(h: Registers, block: seq<byte>): Registers
    requires |block| == 64
  {
    Sum(h, Rounds(block, h, 80))
  }

  function Absorb(h: Registers, data: seq<byte>): Registers
    requires |data| % 64 == 0
    decreases |data|
  {
    if data == [] then h else Absorb(Compress(h, data[..64]), data[64..])
  }

  function Digest(h: Registers): seq<byte> {
    BigEndianBytes(h.a) + BigEndianBytes(h.b) + BigEndianBytes(h.c) + BigEndianBytes(h.d) + BigEndianBytes(h.e)
  }

  function Sha1(msg: seq<byte>): seq<byte> {
    Digest(Absorb(INITIAL, Pad(msg)))
  }

  lemma {:induction false} AbsorbAppend(h: Registers, a: seq<byte>, b: seq<byte>)
    requires |a| % 64 == 0 && |b| % 64 == 0
    ensures Absorb(h, a + b) == Absorb(Absorb(h, a), b)
    decreases |a|
  {
    if a == [] {
      assert a + b == b;
    } else {
      assert (a + b)[..64] == a[..64] && (a + b)[64..] == a[64..] + b;
      AbsorbAppend(Compress(h, a[..64]), a[64..], b);
    }
  }

  lemma AbsorbOne(h: Registers, block: seq<byte>)
    requires |block| == 64
    ensures Absorb(h, block) == Compress(h, block)
  {
    assert block[..64] == block;
  }
}

/** What the words of SHA-1 compute, bit by bit and without naming how. */
module Sha1Laws {
  import opened Machine
  import opened Sha1Spec

  // ---------------------------------------------------------------- the bits of a word

  function Mask(i: nat): word
    requires i < 32
  {
    if i == 0 then 0x1 else if i == 1 then 0x2 else if i == 2 then 0x4 else if i == 3 then 0x8 else
    if i == 4 then 0x10 else if i == 5 then 0x20 else if i == 6 then 0x40 else if i == 7 then 0x80 else
    if i == 8 then 0x100 else if i == 9 then 0x200 else if i == 10 then 0x400 else if i == 11 then 0x800 else
    if i == 12 then 0x1000 else if i == 13 then 0x2000 else if i == 14 then 0x4000 else if i == 15 then 0x8000 else
    if i == 16 then 0x10000 else if i == 17 then 0x20000 else if i == 18 then 0x40000 else if i == 19 then 0x80000 else
    if i == 20 then 0x100000 else if i == 21 then 0x200000 else if i == 22 then 0x400000 else if i == 23 then 0x800000 else
    if i == 24 then 0x1000000 else if i == 25 then 0x2000000 else if i == 26 then 0x4000000 else if i == 27 then 0x8000000 else
    if i == 28 then 0x10000000 else if i == 29 then 0x20000000 else if i == 30 then 0x40000000 else 0x80000000
  }

  /** Bit i of a word, counted from the least significant one. */
  predicate Bit(x: word, i: nat)
    requires i < 32
  {
    Meets(x, Mask(i))
  }

  predicate Meets(x: word, m: word) { x & m != 0 }

  lemma XorMask(x: word, y: word, i: nat)
    requires i < 32
    ensures (x ^ y) & Mask(i) != 0 <==> !(x & Mask(i) != 0 <==> y & Mask(i) != 0)
  {
  }

  lemma XorBit(x: word, y: word, i: nat)
    requires i < 32
    ensures Bit(x ^ y, i) <==> Bit(x, i) != Bit(y, i)
  {
    hide Mask;
    XorMask(x, y, i);
  }

  // ---------------------------------------------------------------- section 5

  /** In the first twenty rounds, F chooses c or d by b, bit by bit. */
  lemma Choice(t: nat, b: word, c: word, d: word, i: nat)
    requires t < 20 && i < 32
    ensures Bit(F(t, b, c, d), i) <==> if Bit(b, i) then Bit(c, i) else Bit(d, i)
  {
    hide Bit;
    ChoiceBit(b, c, d, i);
  }

  lemma ChoiceBit(b: word, c: word, d: word, i: nat)
    requires i < 32
    ensures Bit((b & c) | (!b & d), i) <==> if Bit(b, i) then Bit(c, i) else Bit(d, i)
  {
    hide Mask;
    ChoiceMask(b, c, d, i);
  }

  lemma ChoiceMask(b: word, c: word, d: word, i: nat)
    requires i < 32
    ensures ((b & c) | (!b & d)) & Mask(i) != 0 <==> if b & Mask(i) != 0 then c & Mask(i) != 0 else d & Mask(i) != 0
  {
  }

  /** From round 40 to 59, F is the majority. */
  lemma Majority(t: nat, b: word, c: word, d: word, i: nat)
    requires 40 <= t < 60 && i < 32
    ensures Bit(F(t, b, c, d), i) <==> if Bit(b, i) == Bit(c, i) then Bit(b, i) else Bit(d, i)
  {
    hide Bit;
    MajorityBit(b, c, d, i);
  }

  lemma MajorityBit(b: word, c: word, d: word, i: nat)
    requires i < 32
    ensures Bit((b & c) | (b & d) | (c & d), i) <==> if Bit(b, i) == Bit(c, i) then Bit(b, i) else Bit(d, i)
  {
    hide Mask;
    MajorityMask(b, c, d, i);
  }

  lemma MajorityMask(b: word, c: word, d: word, i: nat)
    requires i < 32
    ensures ((b & c) | (b & d) | (c & d)) & Mask(i) != 0 <==>
            if b & Mask(i) != 0 <==> c & Mask(i) != 0 then b & Mask(i) != 0 else d & Mask(i) != 0
  {
  }

  /** In the other rounds, F is the parity. */
  lemma Parity(t: nat, b: word, c: word, d: word, i: nat)
    requires (20 <= t < 40 || 60 <= t < 80) && i < 32
    ensures Bit(F(t, b, c, d), i) <==> (Bit(b, i) != Bit(c, i)) != Bit(d, i)
  {
    hide Bit;
    ParityBit(b, c, d, i);
  }

  lemma ParityBit(b: word, c: word, d: word, i: nat)
    requires i < 32
    ensures Bit(b ^ c ^ d, i) <==> (Bit(b, i) != Bit(c, i)) != Bit(d, i)
  {
    hide Bit;
    var x := b ^ c;
    XorBit(b, c, i);
    XorBit(x, d, i);
  }

  /** The constants are the square roots of 2, 3, 5 and 10, times 2^30 and cut to whole numbers. */
  lemma Constants(t: nat)
    requires t < 80
    ensures var k := K(t) as int; var root := if t < 20 then 2 else if t < 40 then 3 else if t < 60 then 5 else 10;
            k * k <= root * 0x1000_0000_0000_0000 < (k + 1) * (k + 1)
  {
  }

  // ---------------------------------------------------------------- rotation and schedule

  /** The place where a bit goes when its word is rotated left by n. */
  function Moved(i: nat, n: nat): nat
    requires i < 32 && n < 32
  {
    if i + n < 32 then i + n else i + n - 32
  }

  function RotateOnce(x: word): word { (x << 1) | (x >> 31) }

  lemma RotatedMask(x: word, m: word)
    ensures Meets(RotateOnce(x), RotateOnce(m)) <==> Meets(x, m)
  {
  }

  lemma LowMask(i: nat)
    requires i < 16
    ensures Mask(Moved(i, 1)) == RotateOnce(Mask(i))
  {
  }

  lemma HighMask(i: nat)
    requires 16 <= i < 32
    ensures Mask(Moved(i, 1)) == RotateOnce(Mask(i))
  {
  }

  lemma OnceMoves(x: word, i: nat)
    requires i < 32
    ensures Bit(RotateOnce(x), Moved(i, 1)) <==> Bit(x, i)
  {
    hide Mask, RotateOnce, Meets;
    RotatedMask(x, Mask(i));
    if i < 16 { LowMask(i); } else { HighMask(i); }
  }

  /** Rotating n times by one. */
  function Rotated(n: nat, x: word): word {
    if n == 0 then x else RotateOnce(Rotated(n - 1, x))
  }

  lemma {:induction false} RotatedMoves(n: nat, x: word, i: nat)
    requires i < 32 && n < 32
    ensures Bit(Rotated(n, x), Moved(i, n)) <==> Bit(x, i)
  {
    hide Bit, RotateOnce;
    if n > 0 {
      RotatedMoves(n - 1, x, i);
      OnceMoves(Rotated(n - 1, x), Moved(i, n - 1));
    }
  }

  lemma Five(x: word)
    ensures var a := (x << 1) | (x >> 31); var b := (a << 1) | (a >> 31); var c := (b << 1) | (b >> 31);
            var d := (c << 1) | (c >> 31); (d << 1) | (d >> 31) == (x << 5) | (x >> 27)
  {
  }

  lemma Thirty(x: word)
    ensures var y := (x << 30) | (x >> 2); var a := (y << 1) | (y >> 31); (a << 1) | (a >> 31) == x
  {
  }

  /** Section 3: rotating a word left by n, for every n that SHA-1 rotates by, moves every bit up by n, around
      the end. */
  lemma RotationMovesBits(n: nat, x: word, i: nat)
    requires n in {1, 5, 30} && i < 32
    ensures Bit(Rotl(n as word, x), Moved(i, n)) <==> Bit(x, i)
  {
    hide Bit, Mask;
    if n == 1 {
      OneIs(x);
      OnceMoves(x, i);
    } else if n == 5 {
      FiveIs(x);
      RotatedMoves(5, x, i);
    } else {
      ThirtyIs(x);
      RotatedMoves(2, Rotl(30, x), Moved(i, 30));
    }
  }

  lemma OneIs(x: word)
    ensures Rotl(1, x) == RotateOnce(x)
  {
  }

  lemma FiveIs(x: word)
    ensures Rotl(5, x) == Rotated(5, x)
  {
    assert Rotated(1, x) == RotateOnce(x);
    assert Rotated(2, x) == RotateOnce(Rotated(1, x));
    assert Rotated(3, x) == RotateOnce(Rotated(2, x));
    assert Rotated(4, x) == RotateOnce(Rotated(3, x));
    assert Rotated(5, x) == RotateOnce(Rotated(4, x));
    hide Rotated;
    Five(x);
  }

  lemma ThirtyIs(x: word)
    ensures Rotated(2, Rotl(30, x)) == x
  {
    assert Rotated(1, Rotl(30, x)) == RotateOnce(Rotl(30, x));
    assert Rotated(2, Rotl(30, x)) == RotateOnce(Rotated(1, Rotl(30, x)));
    hide Rotated;
    Thirty(x);
  }

  /** Section 6.1: a later word of the schedule is the exclusive or of four earlier ones, moved up by one. */
  lemma ScheduleBits(block: seq<byte>, t: nat, i: nat)
    requires |block| == 64 && 16 <= t < 80 && i < 32
    ensures Bit(W(block, t), Moved(i, 1)) <==>
            ((Bit(W(block, t - 3), i) != Bit(W(block, t - 8), i)) !=
             (Bit(W(block, t - 14), i) != Bit(W(block, t - 16), i)))
  {
    hide W, Bit, Mask, Xor4, Rotl;
    var x, y, z, w := W(block, t - 3), W(block, t - 8), W(block, t - 14), W(block, t - 16);
    ScheduleStep(block, t);
    RotationMovesBits(1, Xor4(x, y, z, w), i);
    Xor4Bits(x, y, z, w, i);
  }

  function Xor4(x: word, y: word, z: word, w: word): word { Xor(Xor(Xor(x, y), z), w) }

  lemma Xor4Bits(x: word, y: word, z: word, w: word, i: nat)
    requires i < 32
    ensures Bit(Xor4(x, y, z, w), i) <==> ((Bit(x, i) != Bit(y, i)) != (Bit(z, i) != Bit(w, i)))
  {
    hide Bit, Xor;
    XorIsBitwise(x, y, i);
    XorIsBitwise(Xor(x, y), z, i);
    XorIsBitwise(Xor(Xor(x, y), z), w, i);
  }

  lemma XorIsBitwise(x: word, y: word, i: nat)
    requires i < 32
    ensures Bit(Xor(x, y), i) <==> Bit(x, i) != Bit(y, i)
  {
    hide Bit;
    XorBit(x, y, i);
  }

  lemma ScheduleStep(block: seq<byte>, t: nat)
    requires |block| == 64 && 16 <= t < 80
    ensures W(block, t) == Rotl(1, Xor4(W(block, t - 3), W(block, t - 8), W(block, t - 14), W(block, t - 16)))
  {
    hide Rotl, Xor, BigEndian;
  }
}

/** drivers/crypto/sha1/sha1.c: the streaming implementation, on a little-endian machine. */
module Sha1 {
  import opened Machine
  import opened Sha1Spec

  function Byte0(w: word): byte { (w & 0xFF) as byte }
  function Byte1(w: word): byte { ((w >> 8) & 0xFF) as byte }
  function Byte2(w: word): byte { ((w >> 16) & 0xFF) as byte }
  function Byte3(w: word): byte { ((w >> 24) & 0xFF) as byte }

  /** Byte k of a word as it lies in memory. */
  function ByteAt(w: word, k: nat): byte
    requires k < 4
  {
    match k case 0 => Byte0(w) case 1 => Byte1(w) case 2 => Byte2(w) case _ => Byte3(w)
  }

  function With0(w: word, b: byte): word { (w & 0xFFFF_FF00) | (b as word) }
  function With1(w: word, b: byte): word { (w & 0xFFFF_00FF) | ((b as word) << 8) }
  function With2(w: word, b: byte): word { (w & 0xFF00_FFFF) | ((b as word) << 16) }
  function With3(w: word, b: byte): word { (w & 0x00FF_FFFF) | ((b as word) << 24) }

  /** w with byte k stored over. */
  function WithByte(w: word, k: nat, b: byte): word
    requires k < 4
  {
    match k case 0 => With0(w, b) case 1 => With1(w, b) case 2 => With2(w, b) case _ => With3(w, b)
  }

  /** bw_u32_flip_endianness */
  function Flip(n: word): word {
    ((n >> 24) & 0xFF) | ((n << 8) & 0xFF_0000) | ((n >> 8) & 0xFF00) | ((n << 24) & 0xFF00_0000)
  }

  lemma StoreLoad(w: word, k: nat, b: byte, j: nat)
    requires k < 4 && j < 4
    ensures ByteAt(WithByte(w, k, b), j) == if j == k then b else ByteAt(w, j)
  {
    hide Byte0, Byte1, Byte2, Byte3, With0, With1, With2, With3;
    StoreLoad0(w, b);
    StoreLoad1(w, b);
    StoreLoad2(w, b);
    StoreLoad3(w, b);
  }

  lemma StoreLoad0(w: word, b: byte)
    ensures Byte0(With0(w, b)) == b
    ensures Byte1(With0(w, b)) == Byte1(w)
    ensures Byte2(With0(w, b)) == Byte2(w)
    ensures Byte3(With0(w, b)) == Byte3(w)
  {
  }

  lemma StoreLoad1(w: word, b: byte)
    ensures Byte0(With1(w, b)) == Byte0(w)
    ensures Byte1(With1(w, b)) == b
    ensures Byte2(With1(w, b)) == Byte2(w)
    ensures Byte3(With1(w, b)) == Byte3(w)
  {
  }

  lemma StoreLoad2(w: word, b: byte)
    ensures Byte0(With2(w, b)) == Byte0(w)
    ensures Byte1(With2(w, b)) == Byte1(w)
    ensures Byte2(With2(w, b)) == b
    ensures Byte3(With2(w, b)) == Byte3(w)
  {
  }

  lemma StoreLoad3(w: word, b: byte)
    ensures Byte0(With3(w, b)) == Byte0(w)
    ensures Byte1(With3(w, b)) == Byte1(w)
    ensures Byte2(With3(w, b)) == Byte2(w)
    ensures Byte3(With3(w, b)) == b
  {
  }

  /** Flipping a word reads its bytes most significant first. */
  lemma FlipReads(w: word)
    ensures Flip(w) == BigEndian(Byte0(w), Byte1(w), Byte2(w), Byte3(w))
  {
  }

  /** A flipped word lies in memory most significant byte first. */
  lemma FlipStores(w: word)
    ensures [Byte0(Flip(w)), Byte1(Flip(w)), Byte2(Flip(w)), Byte3(Flip(w))] == BigEndianBytes(w)
  {
  }

  /** The bytes of the words of a buffer. */
  function Bytes(ws: seq<word>): (r: seq<byte>)
    ensures |r| == 4 * |ws|
    ensures forall i :: 0 <= i < 4 * |ws| ==> r[i] == ByteAt(ws[i / 4], i % 4)
  {
    seq(4 * |ws|, i requires 0 <= i < 4 * |ws| => ByteAt(ws[i / 4], i % 4))
  }

  class Sha1Context {
    var regs: Registers
    const block: array<word>
    var blockSize: nat
    const extra: array<word>
    var hasExtra: bool
    const initSize: nat
    var rest: seq<byte>

    /** sha1_create_context */
    constructor (msg: seq<byte>)
      ensures regs == INITIAL && rest == msg && initSize == |msg| && !hasExtra
      ensures Shape() && fresh(block) && fresh(extra) && Bytes(extra[..16])[48..56] == Repeat(0, 8)
    {
      regs := INITIAL;
      block := new word[80](_ => 0);
      blockSize := 0;
      extra := new word[16](_ => 0);
      hasExtra := false;
      initSize := |msg|;
      rest := msg;
      new;
      ZeroBytes(extra[..16]);
    }

    predicate Shape() {
      block.Length == 80 && extra.Length == 16 && block != extra
    }

    /** The 64 message bytes at the front of the block buffer. */
    function BlockBytes(): seq<byte>
      requires Shape()
      reads block
    {
      Bytes(block[..16])
    }

    /** Stores through a u8 pointer into a buffer of words. */
    method StoreBytes(buf: array<word>, at: nat, bytes: seq<byte>)
      requires at + |bytes| <= 64 && buf.Length >= 16
      modifies buf
      ensures Bytes(buf[..16]) == old(Bytes(buf[..16]))[..at] + bytes + old(Bytes(buf[..16]))[at + |bytes|..]
      ensures buf[16..] == old(buf[16..])
    {
      hide Bytes;
      ghost var was := Bytes(buf[..16]);
      for i := 0 to |bytes|
        invariant Bytes(buf[..16]) == was[..at] + bytes[..i] + was[at + i..]
        invariant buf[16..] == old(buf[16..])
      {
        StoreByte(buf, at + i, bytes[i]);
        OneByteMore(was, at, bytes, i);
      }
    }

    method StoreByte(buf: array<word>, i: nat, b: byte)
      requires i < 64 && buf.Length >= 16
      modifies buf
      ensures Bytes(buf[..16]) == old(Bytes(buf[..16]))[i := b]
      ensures buf[16..] == old(buf[16..])
    {
      ghost var before := buf[..16];
      StoreOne(before, i, b);
      buf[i / 4] := WithByte(buf[i / 4], i % 4, b);
      assert buf[..16] == before[i / 4 := WithByte(before[i / 4], i % 4, b)];
    }

    /** sha1_read_block */
    method ReadBlock() returns (read: nat)
      requires Shape()
      modifies this, block
      ensures read == (if |old(rest)| >= 64 then 64 else |old(rest)|) == blockSize
      ensures rest == old(rest)[read..] && BlockBytes()[..read] == old(rest)[..read]
      ensures regs == old(regs) && hasExtra == old(hasExtra)
    {
      read := if |rest| >= 64 then 64 else |rest|;
      StoreBytes(block, 0, rest[..read]);
      blockSize := read;
      rest := rest[read..];
    }

    /** Storing a word most significant byte first. */
    method StoreFlipped(buf: array<word>, i: nat, w: word)
      requires i < 16 <= buf.Length
      modifies buf
      ensures Bytes(buf[..16]) == old(Bytes(buf[..16]))[..4 * i] + BigEndianBytes(w) + old(Bytes(buf[..16]))[4 * i + 4..]
      ensures buf[16..] == old(buf[16..])
    {
      FlipStores(w);
      ghost var before := buf[..16];
      buf[i] := Flip(w);
      assert buf[..16] == before[i := Flip(w)];
      StoreWord(before, i, Flip(w));
    }

    /** sha1_pad: finish the block in place, spilling the length into an extra block when it does not fit. */
    method PadBlock()
      requires Shape() && blockSize < 64 && !hasExtra && Bytes(extra[..16])[48..56] == Repeat(0, 8)
      modifies this, block, extra
      ensures blockSize == 64 && regs == old(regs) && rest == old(rest)
      ensures hasExtra <==> old(blockSize) >= 56
      ensures BlockBytes() + (if hasExtra then Bytes(extra[..16]) else [])
           == PadWith(old(BlockBytes()[..blockSize]), (8 * initSize) % 0x1_0000_0000)
    {
      var msgbits := (8 * initSize) % 0x1_0000_0000;
      if 64 - blockSize <= 8 {
        Spill(msgbits);
        hasExtra := true;
      } else {
        FinishInPlace(msgbits);
      }
      blockSize := 64;
    }

    method Spill(msgbits: nat)
      requires Shape() && 56 <= blockSize < 64 && Bytes(extra[..16])[48..56] == Repeat(0, 8)
      modifies block, extra
      ensures BlockBytes() + Bytes(extra[..16]) == PadWith(old(BlockBytes()[..blockSize]), msgbits)
    {
      hide Bytes, PadWith, LowWord, BigEndianBytes, Byte0, Byte1, Byte2, Byte3;
      ghost var last, blank := BlockBytes()[..blockSize], Bytes(extra[..16]);
      StoreBytes(block, blockSize, [0x80]);
      StoreBytes(block, blockSize + 1, Repeat(0, 63 - blockSize));
      ghost var filled := BlockBytes();
      assert filled == last + [0x80] + Repeat(0, 63 - |last|);
      assert extra[..16] == old(extra[..16]);
      StoreBytes(extra, 0, Repeat(0, 48));
      assert Bytes(extra[..16]) == Repeat(0, 48) + blank[48..];
      StillZero(blank);
      StoreFlipped(extra, 14, LowWord(msgbits / 0x1_0000_0000));
      StoreFlipped(extra, 15, LowWord(msgbits));
      SpilledPad(last, msgbits, filled, Bytes(extra[..16]));
    }

    method FinishInPlace(msgbits: nat)
      requires Shape() && blockSize < 56
      modifies block
      ensures BlockBytes() == PadWith(old(BlockBytes()[..blockSize]), msgbits)
    {
      hide Bytes, PadWith, LowWord, BigEndianBytes, Byte0, Byte1, Byte2, Byte3;
      ghost var last := BlockBytes()[..blockSize];
      StoreBytes(block, blockSize, Repeat(0, 64 - blockSize));
      StoreBytes(block, blockSize, [0x80]);
      assert BlockBytes()[..56] == last + [0x80] + Repeat(0, 55 - |last|);
      StoreFlipped(block, 14, LowWord(msgbits / 0x1_0000_0000));
      StoreFlipped(block, 15, LowWord(msgbits));
      InPlacePad(last, msgbits, BlockBytes());
    }

    /** The message schedule, computed in place from the 16 words of the block. */
    method Schedule(ghost bytes: seq<byte>)
      requires Shape() && bytes == BlockBytes()
      modifies block
      ensures forall t :: 0 <= t < 80 ==> block[t] == W(bytes, t)
    {
      hide Mix, Flip, W, Bytes;
      FirstWords(block[..16]);
      for i := 0 to 16
        invariant forall t :: 0 <= t < i ==> block[t] == W(bytes, t)
        invariant forall t :: i <= t < 80 ==> block[t] == old(block[t])
      {
        block[i] := Flip(block[i]);
      }
      for i := 16 to 80
        invariant forall t :: 0 <= t < i ==> block[t] == W(bytes, t)
      {
        LaterWord(bytes, i);
        block[i] := Mix(block[i - 3], block[i - 8], block[i - 14], block[i - 16]);
      }
    }

    /** The four loops sha1_process_block_1 .. _4: twenty rounds each, with their own function and constant. */
    method TwentyRounds(stage: nat, r0: Registers, ghost bytes: seq<byte>, ghost h: Registers) returns (r: Registers)
      requires Shape() && stage < 4 && |bytes| == 64
      requires forall t :: 0 <= t < 80 ==> block[t] == W(bytes, t)
      requires r0 == Rounds(bytes, h, 20 * stage)
      ensures r == Rounds(bytes, h, 20 * stage + 20)
    {
      hide W, StageF, F, StageK, K, Rounds, Rotl, Temp;
      var a, b, c, d, e := r0.a, r0.b, r0.c, r0.d, r0.e;
      for t := 20 * stage to 20 * stage + 20
        invariant Registers(a, b, c, d, e) == Rounds(bytes, h, t)
      {
        RoundsStep(bytes, h, t);
        StageAgrees(stage, t, b, c, d);
        var f := StageF(stage, b, c, d);
        var tmp := Temp(Rotl(5, a), f, e, block[t], StageK(stage));
        e := d;
        d := c;
        c := Rotl(30, b);
        b := a;
        a := tmp;
      }
      r := Registers(a, b, c, d, e);
    }

    /** sha1_process_block: the block, and then the extra padding block if there is one. */
    method ProcessBlock()
      requires Shape() && blockSize == 64
      modifies this, block
      ensures !hasExtra && blockSize == 0 && rest == old(rest)
      ensures regs == Absorb(old(regs), old(BlockBytes()) + (if old(hasExtra) then old(Bytes(extra[..16])) else []))
      decreases hasExtra
    {
      hide Bytes, Sum, Rounds, W;
      ghost var bytes := BlockBytes();
      ghost var spilled := if hasExtra then Bytes(extra[..16]) else [];
      Schedule(bytes);
      NoRounds(bytes, regs);
      var r := TwentyRounds(0, regs, bytes, regs);
      r := TwentyRounds(1, r, bytes, regs);
      r := TwentyRounds(2, r, bytes, regs);
      r := TwentyRounds(3, r, bytes, regs);
      regs := Sum(regs, r);
      blockSize := 0;
      AbsorbTwo(old(regs), bytes, spilled);
      if hasExtra {
        hasExtra := false;
        forall i | 0 <= i < 16 {
          block[i] := extra[i];
        }
        blockSize := 64;
        assert block[..16] == extra[..16];
        assert extra[..16] == old(extra[..16]);
        assert BlockBytes() + [] == spilled;
        ProcessBlock();
      }
    }

    /** `done` bytes of the message are absorbed, the next `read` are in the block, the rest is to come. */
    ghost predicate Reading(msg: seq<byte>, done: nat, read: nat)
      reads this, block, extra
    {
      && Shape() && !hasExtra && initSize == |msg| && Bytes(extra[..16])[48..56] == Repeat(0, 8)
      && done % 64 == 0 && done + read <= |msg| && regs == Absorb(INITIAL, msg[..done])
      && read == blockSize <= 64 && BlockBytes()[..read] == msg[done..done + read]
      && rest == msg[done + read..] && (read < 64 ==> rest == [])
    }

    /** `done` bytes of the message are absorbed, and the rest is to come. */
    ghost predicate Between(msg: seq<byte>, done: nat)
      reads this, extra
    {
      && Shape() && !hasExtra && initSize == |msg| && Bytes(extra[..16])[48..56] == Repeat(0, 8)
      && done % 64 == 0 && done <= |msg| && regs == Absorb(INITIAL, msg[..done]) && rest == msg[done..]
    }

    method ReadNext(ghost msg: seq<byte>, ghost done: nat) returns (read: nat)
      requires Between(msg, done)
      modifies this, block
      ensures Reading(msg, done, read)
    {
      hide Absorb, Bytes;
      read := ReadBlock();
      assert msg[done..done + read] == msg[done..][..read] && msg[done + read..] == msg[done..][read..];
    }

    method Consume(ghost msg: seq<byte>, ghost done: nat)
      requires Reading(msg, done, 64)
      modifies this, block
      ensures done + 64 <= |msg| && Between(msg, done + 64)
    {
      hide Absorb, Bytes;
      ghost var bytes := BlockBytes();
      assert msg[..done + 64] == msg[..done] + bytes;
      assert bytes + [] == bytes;
      AbsorbAppend(INITIAL, msg[..done], bytes);
      ProcessBlock();
    }

    method Finish(ghost msg: seq<byte>, ghost done: nat)
      requires Reading(msg, done, blockSize) && blockSize < 64
      modifies this, block, extra
      ensures regs == Absorb(INITIAL, PadWith(msg, (8 * |msg|) % 0x1_0000_0000))
    {
      hide Absorb, Bytes, PadWith;
      ghost var last := BlockBytes()[..blockSize];
      PadBlock();
      AbsorbAppend(INITIAL, msg[..done], PadWith(last, (8 * |msg|) % 0x1_0000_0000));
      FinalPad(msg, done, last, (8 * |msg|) % 0x1_0000_0000);
      ProcessBlock();
    }
  }

  lemma FirstWords(ws: seq<word>)
    requires |ws| == 16
    ensures forall t :: 0 <= t < 16 ==> W(Bytes(ws), t) == Flip(ws[t])
  {
    forall t | 0 <= t < 16 ensures W(Bytes(ws), t) == Flip(ws[t]) {
      FirstWord(ws, t);
    }
  }

  lemma FirstWord(ws: seq<word>, t: nat)
    requires |ws| == 16 && t < 16
    ensures W(Bytes(ws), t) == Flip(ws[t])
  {
    hide Byte0, Byte1, Byte2, Byte3, BigEndian, Flip, Mix;
    FlipReads(ws[t]);
    var bytes := Bytes(ws);
    WordBytes(ws, t);
    assert W(bytes, t) == BigEndian(bytes[4 * t], bytes[4 * t + 1], bytes[4 * t + 2], bytes[4 * t + 3]);
  }

  lemma WordBytes(ws: seq<word>, t: nat)
    requires t < |ws|
    ensures Bytes(ws)[4 * t] == Byte0(ws[t]) && Bytes(ws)[4 * t + 1] == Byte1(ws[t])
    ensures Bytes(ws)[4 * t + 2] == Byte2(ws[t]) && Bytes(ws)[4 * t + 3] == Byte3(ws[t])
  {
    hide Byte0, Byte1, Byte2, Byte3;
    assert (4 * t) / 4 == t && (4 * t) % 4 == 0;
    assert (4 * t + 1) / 4 == t && (4 * t + 1) % 4 == 1;
    assert (4 * t + 2) / 4 == t && (4 * t + 2) % 4 == 2;
    assert (4 * t + 3) / 4 == t && (4 * t + 3) % 4 == 3;
  }

  lemma LaterWord(block: seq<byte>, t: nat)
    requires |block| == 64 && 16 <= t < 80
    ensures W(block, t) == Mix(W(block, t - 3), W(block, t - 8), W(block, t - 14), W(block, t - 16))
  {
    hide Mix;
  }

  lemma NoRounds(block: seq<byte>, h: Registers)
    requires |block| == 64
    ensures Rounds(block, h, 0) == h
  {
  }

  lemma RoundsStep(block: seq<byte>, h: Registers, t: nat)
    requires |block| == 64 && t < 80
    ensures Rounds(block, h, t + 1) == Round(Rounds(block, h, t), t, W(block, t))
  {
    hide Round, W;
  }

  /** The function and the constant of each of the four loops. */
  function StageF(stage: nat, b: word, c: word, d: word): word
    requires stage < 4
  {
    match stage
    case 0 => (b & c) | (!b & d)
    case 1 => b ^ c ^ d
    case 2 => (b & c) | (b & d) | (c & d)
    case _ => b ^ c ^ d
  }

  function StageK(stage: nat): word
    requires stage < 4
  {
    match stage case 0 => 0x5A827999 case 1 => 0x6ED9EBA1 case 2 => 0x8F1BBCDC case _ => 0xCA62C1D6
  }

  lemma StageAgrees(stage: nat, t: nat, b: word, c: word, d: word)
    requires stage < 4 && 20 * stage <= t < 20 * stage + 20
    ensures StageF(stage, b, c, d) == F(t, b, c, d) && StageK(stage) == K(t)
  {
  }

  lemma AbsorbTwo(h: Registers, block: seq<byte>, more: seq<byte>)
    requires |block| == 64 && |more| % 64 == 0
    ensures Absorb(h, block + more) == Absorb(Sum(h, Rounds(block, h, 80)), more)
  {
    AbsorbAppend(h, block, more);
    AbsorbOne(h, block);
  }

  /** sha1_chew */
  method Chew(msg: seq<byte>) returns (digest: seq<byte>)
    ensures digest == Digest(Absorb(INITIAL, PadWith(msg, (8 * |msg|) % 0x1_0000_0000)))
  {
    hide Absorb, PadWith, BigEndianBytes, Bytes;
    var ctx := new Sha1Context(msg);
    EmptyAbsorb(INITIAL);
    ghost var done: nat := 0;
    assert msg[..0] == [] && msg[0..] == msg;
    var read := ctx.ReadNext(msg, 0);
    while read == 64
      invariant fresh(ctx) && fresh(ctx.block) && fresh(ctx.extra) && ctx.Reading(msg, done, read)
      decreases |msg| - done
    {
      ctx.Consume(msg, done);
      done := done + 64;
      read := ctx.ReadNext(msg, done);
    }
    ctx.Finish(msg, done);
    var h := ctx.regs;
    digest := StoredFlipped(h.a) + StoredFlipped(h.b) + StoredFlipped(h.c) + StoredFlipped(h.d) + StoredFlipped(h.e);
  }

  /** The length the code stores is the message's length exactly when 8 * size does not wrap a size_t:
      from 2^29 bytes on, the padding is not the one RFC 3174 asks for. */
  lemma PaddingIsRfcIff(msg: seq<byte>)
    requires |msg| < 0x1_0000_0000
    ensures PadWith(msg, (8 * |msg|) % 0x1_0000_0000) == Pad(msg) <==> |msg| < 0x2000_0000
  {
    hide LengthBytes;
    if |msg| >= 0x2000_0000 {
      PadTail(msg, (8 * |msg|) % 0x1_0000_0000);
      PadTail(msg, 8 * |msg|);
      HighWordsDiffer((8 * |msg|) % 0x1_0000_0000, 8 * |msg|);
    }
  }

  lemma PadTail(msg: seq<byte>, bits: nat)
    ensures PadWith(msg, bits)[|PadWith(msg, bits)| - 8..] == LengthBytes(bits)
  {
    hide LengthBytes;
  }

  lemma HighWordsDiffer(low: nat, bits: nat)
    requires low < 0x1_0000_0000 <= bits < 0x8_0000_0000
    ensures LengthBytes(low) != LengthBytes(bits)
  {
    var high := bits / 0x1_0000_0000;
    assert 1 <= high <= 7 && low / 0x1_0000_0000 == 0;
    SmallWord(high);
    assert LengthBytes(low)[..4] == BigEndianBytes(LowWord(0));
    assert LengthBytes(bits)[..4] == BigEndianBytes(LowWord(high));
  }

  lemma SmallWord(high: nat)
    requires 1 <= high <= 7
    ensures BigEndianBytes(LowWord(high))[3] != BigEndianBytes(LowWord(0))[3]
  {
    hide LowWord;
    LowValues();
    assert BigEndianBytes(0)[3] == 0;
    if high == 1 { assert BigEndianBytes(1)[3] == 1; }
    else if high == 2 { assert BigEndianBytes(2)[3] == 2; }
    else if high == 3 { assert BigEndianBytes(3)[3] == 3; }
    else if high == 4 { assert BigEndianBytes(4)[3] == 4; }
    else if high == 5 { assert BigEndianBytes(5)[3] == 5; }
    else if high == 6 { assert BigEndianBytes(6)[3] == 6; }
    else { assert BigEndianBytes(7)[3] == 7; }
  }

  lemma LowValues()
    ensures LowWord(0) == 0 && LowWord(1) == 1 && LowWord(2) == 2 && LowWord(3) == 3
    ensures LowWord(4) == 4 && LowWord(5) == 5 && LowWord(6) == 6 && LowWord(7) == 7
  {
  }

  /** For every message shorter than 2^29 bytes, what sha1_chew computes is SHA-1. */
  lemma ChewIsSha1(msg: seq<byte>)
    requires |msg| < 0x2000_0000
    ensures Digest(Absorb(INITIAL, PadWith(msg, (8 * |msg|) % 0x1_0000_0000))) == Sha1(msg)
  {
    PaddingIsRfcIff(msg);
  }

  lemma EmptyAbsorb(h: Registers)
    ensures Absorb(h, []) == h
  {
  }

  /** Whole blocks in front do not change the padding of what is left. */
  lemma FinalPad(msg: seq<byte>, done: nat, last: seq<byte>, bits: nat)
    requires done <= |msg| && done % 64 == 0 && last == msg[done..]
    ensures msg[..done] + PadWith(last, bits) == PadWith(msg, bits)
  {
    SameSuffix(|msg|, done, bits);
    hide Suffix;
    assert msg == msg[..done] + last;
    Regroup(msg[..done], last, Suffix(|last|, bits));
  }

  lemma Regroup(a: seq<byte>, b: seq<byte>, c: seq<byte>)
    ensures a + (b + c) == (a + b) + c
  {
  }

  lemma SameSuffix(length: nat, done: nat, bits: nat)
    requires done <= length && done % 64 == 0
    ensures Suffix(length - done, bits) == Suffix(length, bits)
  {
    assert (length - done) % 64 == length % 64;
  }

  /** A register flipped and copied out byte by byte. */
  function StoredFlipped(w: word): (r: seq<byte>)
    ensures r == BigEndianBytes(w)
  {
    FlipStores(w);
    [Byte0(Flip(w)), Byte1(Flip(w)), Byte2(Flip(w)), Byte3(Flip(w))]
  }

  lemma StillZero(blank: seq<byte>)
    requires |blank| == 64 && blank[48..56] == Repeat(0, 8)
    ensures (Repeat(0, 48) + blank[48..])[..56] == Repeat(0, 56)
  {
    assert forall i :: 48 <= i < 56 ==> blank[i] == blank[48..56][i - 48];
  }

  lemma SpilledPad(last: seq<byte>, bits: nat, block: seq<byte>, extra: seq<byte>)
    requires 56 <= |last| < 64 && |block| == 64 && |extra| == 64
    requires block == last + [0x80] + Repeat(0, 63 - |last|)
    requires extra == Repeat(0, 56) + LengthBytes(bits)
    ensures block + extra == PadWith(last, bits)
  {
    assert Repeat(0, 63 - |last|) + Repeat(0, 56) == Repeat(0, ZeroCount(|last|));
  }

  lemma InPlacePad(last: seq<byte>, bits: nat, block: seq<byte>)
    requires |last| < 56 && |block| == 64
    requires block == last + [0x80] + Repeat(0, 55 - |last|) + LengthBytes(bits)
    ensures block == PadWith(last, bits)
  {
  }

  lemma OneByteMore(was: seq<byte>, at: nat, bytes: seq<byte>, i: nat)
    requires at + |bytes| <= |was| && i < |bytes|
    ensures (was[..at] + bytes[..i] + was[at + i..])[at + i := bytes[i]] == was[..at] + bytes[..i + 1] + was[at + i + 1..]
  {
  }

  lemma StoreWord(ws: seq<word>, i: nat, w: word)
    requires i < |ws|
    ensures Bytes(ws[i := w]) ==
            Bytes(ws)[..4 * i] + [Byte0(w), Byte1(w), Byte2(w), Byte3(w)] + Bytes(ws)[4 * i + 4..]
  {
    hide Byte0, Byte1, Byte2, Byte3;
  }

  lemma ZeroBytes(ws: seq<word>)
    requires |ws| == 16 && forall i :: 0 <= i < 16 ==> ws[i] == 0
    ensures Bytes(ws)[48..56] == Repeat(0, 8)
  {
    assert ByteAt(0, 0) == 0 && ByteAt(0, 1) == 0 && ByteAt(0, 2) == 0 && ByteAt(0, 3) == 0;
  }

  lemma StoreOne(ws: seq<word>, i: nat, b: byte)
    requires i < 4 * |ws|
    ensures Bytes(ws[i / 4 := WithByte(ws[i / 4], i % 4, b)]) == Bytes(ws)[i := b]
  {
    hide WithByte, Byte0, Byte1, Byte2, Byte3;
    var ws' := ws[i / 4 := WithByte(ws[i / 4], i % 4, b)];
    forall j | 0 <= j < 4 * |ws| ensures Bytes(ws')[j] == Bytes(ws)[i := b][j] {
      if j / 4 == i / 4 {
        StoreLoad(ws[i / 4], i % 4, b, j % 4);
        assert j % 4 == i % 4 <==> j == i;
      }
    }
  }
}

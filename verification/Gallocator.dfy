/** kernel/mem/gallocator.c: one chunk pool with its bitmap. A block of n chunks that
    starts at chunk s also owns chunk s-1, whose last 16 bytes are its in-band header. */
module Gallocator {
  import opened Machine

  const ALLOCATION_SIGNATURE: u32 := 0xDEADADD5
  const HEADER_SIZE: int := 16

  // ---------------------------------------------------------------- bitmap bytes

  /** 1 << bit, for a bit of a byte. */
  function Mask(bit: nat): bv8
    requires bit < 8
  {
    match bit
    case 0 => 1 case 1 => 2 case 2 => 4 case 3 => 8
    case 4 => 16 case 5 => 32 case 6 => 64 case _ => 128
  }

  predicate TestBit(b: bv8, bit: nat)
    requires bit < 8
  {
    b & Mask(bit) != 0
  }

  lemma OrMask(b: bv8, j: nat, k: nat)
    requires j < 8 && k < 8
    ensures TestBit(b | Mask(k), j) == (TestBit(b, j) || j == k)
  {
  }

  lemma AndNotMask(b: bv8, j: nat, k: nat)
    requires j < 8 && k < 8
    ensures TestBit(b & !Mask(k), j) == (TestBit(b, j) && j != k)
  {
  }

  /** Bit c of a bitmap: chunk c is in use. */
  predicate Bit(bm: seq<bv8>, c: nat)
    requires c < 8 * |bm|
  {
    TestBit(bm[c / 8], c % 8)
  }

  /** bm' is bm with the bits [lo, hi) forced to v. */
  ghost predicate BitsSet(bm: seq<bv8>, bm': seq<bv8>, lo: int, hi: int, v: bool) {
    |bm'| == |bm| &&
    forall c: nat :: c < 8 * |bm| ==> Bit(bm', c) == if lo <= c < hi then v else Bit(bm, c)
  }

  /** `byte |= 1 << bit` (v) or `byte &= ~(1 << bit)` (!v). */
  function Forced(b: bv8, bit: nat, v: bool): bv8
    requires bit < 8
  {
    if v then b | Mask(bit) else b & !Mask(bit)
  }

  lemma ForcedTest(b: bv8, j: nat, k: nat, v: bool)
    requires j < 8 && k < 8
    ensures TestBit(Forced(b, k, v), j) == if j == k then v else TestBit(b, j)
  {
    hide Mask, TestBit;
    OrMask(b, j, k);
    AndNotMask(b, j, k);
  }

  lemma ForcedBit(bm: seq<bv8>, c: nat, v: bool, x: nat)
    requires c < 8 * |bm| && x < 8 * |bm|
    ensures Bit(bm[c / 8 := Forced(bm[c / 8], c % 8, v)], x) == if x == c then v else Bit(bm, x)
  {
    hide Forced, TestBit;
    if x / 8 == c / 8 {
      assert x % 8 == c % 8 <==> x == c;
      ForcedTest(bm[c / 8], x % 8, c % 8, v);
    }
  }

  lemma BitsSetStep(a: seq<bv8>, b: seq<bv8>, lo: int, c: nat, v: bool)
    requires BitsSet(a, b, lo, c, v) && lo <= c < 8 * |a|
    ensures BitsSet(a, b[c / 8 := Forced(b[c / 8], c % 8, v)], lo, c + 1, v)
  {
    hide Bit, Forced;
    var b' := b[c / 8 := Forced(b[c / 8], c % 8, v)];
    forall x: nat | x < 8 * |a|
      ensures Bit(b', x) == if lo <= x < c + 1 then v else Bit(a, x)
    {
      ForcedBit(b, c, v, x);
      assert Bit(b, x) == if lo <= x < c then v else Bit(a, x);
    }
  }

  // ---------------------------------------------------------------- pools and blocks

  datatype Geometry = Geometry(chunkSize: nat, start: nat, chunks: nat)

  /** What the allocator is asked to keep: the requested alignment and the payload. */
  datatype Block = Block(alignment: nat, data: seq<u8>)

  type Blocks = map<nat, Block>

  ghost predicate GeometryOk(g: Geometry, bitmapSize: nat) {
    && g.chunkSize in {32, 64, 128}
    && 0 < g.start
    && g.start % g.chunkSize == 0
    && g.start + g.chunks * g.chunkSize <= WORD
    && g.chunks <= 8 * bitmapSize
    && 8 * bitmapSize * g.chunkSize < WORD
    && g.chunks * g.chunkSize < 0x8000_0000
  }

  function ChunkCount(g: Geometry, b: Block): nat
    requires g.chunkSize > 0
  {
    CeilDiv(|b.data|, g.chunkSize)
  }

  function AddressOf(g: Geometry, s: nat): int {
    g.start + s * g.chunkSize
  }

  predicate Aligned(g: Geometry, alignment: nat, s: nat)
    requires alignment > 0
  {
    AddressOf(g, s) % alignment == 0
  }

  /** The block at s occupies chunk c (c may be its header chunk). */
  predicate Owns(g: Geometry, blocks: Blocks, s: nat, c: int)
    requires g.chunkSize > 0
  {
    s in blocks && s - 1 <= c < s + ChunkCount(g, blocks[s])
  }

  ghost predicate Used(g: Geometry, blocks: Blocks, c: int)
    requires g.chunkSize > 0
  {
    exists s :: Owns(g, blocks, s, c)
  }

  /** An allocation of n chunks fits at s: s-1 .. s+n-1 are free, and the pool goes on past them. */
  ghost predicate Fits(g: Geometry, blocks: Blocks, alignment: nat, n: nat, s: nat)
    requires g.chunkSize > 0 && alignment > 0
  {
    1 <= s && s + n < g.chunks && Aligned(g, alignment, s) &&
    forall c :: s - 1 <= c < s + n ==> !Used(g, blocks, c)
  }

  ghost predicate FirstFit(g: Geometry, blocks: Blocks, alignment: nat, n: nat, s: nat)
    requires g.chunkSize > 0 && alignment > 0
  {
    Fits(g, blocks, alignment, n, s) &&
    forall s' :: 0 <= s' < s ==> !Fits(g, blocks, alignment, n, s')
  }

  /** What fits: an aligned run with a chunk before it for the header, short of the pool's last chunk, that
      meets no live block's chunks, each block's header chunk included. */
  lemma FitsIff(g: Geometry, blocks: Blocks, alignment: nat, n: nat, s: nat)
    requires g.chunkSize > 0 && alignment > 0 && n >= 1
    requires forall b :: b in blocks ==> 1 <= b && ChunkCount(g, blocks[b]) >= 1
    ensures Fits(g, blocks, alignment, n, s) <==>
            && 0 < s && s + n <= g.chunks - 1 && (g.start + s * g.chunkSize) % alignment == 0
            && forall b :: b in blocks ==> s + n <= b - 1 || b + ChunkCount(g, blocks[b]) <= s - 1
  {
    hide ChunkCount;
    if s >= 1 && (forall b :: b in blocks ==> s + n <= b - 1 || b + ChunkCount(g, blocks[b]) <= s - 1) {
      assert forall c, b :: s - 1 <= c < s + n ==> !Owns(g, blocks, b, c);
    }
    if Fits(g, blocks, alignment, n, s) {
      forall b | b in blocks ensures s + n <= b - 1 || b + ChunkCount(g, blocks[b]) <= s - 1 {
        var c := if b - 1 >= s - 1 then b - 1 else s - 1;
        assert Owns(g, blocks, b, c) ==> Used(g, blocks, c);
      }
    }
  }

  /** The start chunk the allocator must pick, searching from chunk `from` up. */
  ghost function Search(g: Geometry, blocks: Blocks, alignment: nat, n: nat, from: nat): (r: Option<nat>)
    requires g.chunkSize > 0 && alignment > 0
    ensures r.Some? ==> from <= r.value && Fits(g, blocks, alignment, n, r.value)
    ensures forall s :: from <= s && Fits(g, blocks, alignment, n, s) ==> r.Some? && r.value <= s
    decreases g.chunks - from
  {
    if from >= g.chunks then None
    else if Fits(g, blocks, alignment, n, from) then Some(from)
    else Search(g, blocks, alignment, n, from + 1)
  }

  // ---------------------------------------------------------------- aligned starts

  /** The index distance between candidate starts: ceil(alignment / chunksize). */
  function Stride(g: Geometry, alignment: nat): nat
    requires g.chunkSize > 0
  {
    CeilDiv(alignment, g.chunkSize)
  }

  lemma ChunkSizePower(cs: nat)
    requires cs in {32, 64, 128}
    ensures PowerOfTwo(cs)
  {
    MachinePowers();
  }

  lemma StrideOf(cs: nat, alignment: nat)
    requires cs > 0 && PowerOfTwo(alignment)
    ensures alignment <= cs ==> CeilDiv(alignment, cs) == 1
    ensures alignment % cs == 0 ==> CeilDiv(alignment, cs) * cs == alignment
  {
    if alignment <= cs {
      DivModUnique(alignment + cs - 1, cs, 1, alignment - 1);
    }
    if alignment % cs == 0 {
      assert alignment == (alignment / cs) * cs;
      DivModUnique(alignment + cs - 1, cs, alignment / cs, cs - 1);
    }
  }

  /** An alignment no larger than the chunk size holds at every chunk; a larger one is a multiple of it. */
  lemma AlignmentCases(g: Geometry, alignment: nat, s: nat)
    requires g.chunkSize in {32, 64, 128} && g.start % g.chunkSize == 0 && PowerOfTwo(alignment)
    ensures alignment <= g.chunkSize ==> Aligned(g, alignment, s) && Stride(g, alignment) == 1
    ensures alignment > g.chunkSize ==> alignment % g.chunkSize == 0 && Stride(g, alignment) * g.chunkSize == alignment
  {
    hide PowerOfTwo, CeilDiv;
    ChunkSizePower(g.chunkSize);
    StrideOf(g.chunkSize, alignment);
    if alignment <= g.chunkSize {
      PowersDivide(alignment, g.chunkSize);
      AddMultiple(g.start, s, g.chunkSize);
      MultipleChain(AddressOf(g, s), g.chunkSize, alignment);
    } else {
      PowersDivide(g.chunkSize, alignment);
    }
  }

  /** From an aligned start, the next aligned start is one stride on and none lies between. */
  lemma NextStart(g: Geometry, alignment: nat, s: nat)
    requires g.chunkSize in {32, 64, 128} && g.start % g.chunkSize == 0 && PowerOfTwo(alignment)
    requires Aligned(g, alignment, s)
    ensures Stride(g, alignment) >= 1 && Aligned(g, alignment, s + Stride(g, alignment))
    ensures forall t :: s < t < s + Stride(g, alignment) ==> !Aligned(g, alignment, t)
  {
    hide PowerOfTwo, Stride;
    AlignmentCases(g, alignment, s + 1);
    if alignment > g.chunkSize {
      StrideMultiple(g, alignment, s, Stride(g, alignment));
    }
  }

  lemma StrideMultiple(g: Geometry, alignment: nat, s: nat, q: nat)
    requires 0 < g.chunkSize < alignment && q * g.chunkSize == alignment && Aligned(g, alignment, s)
    ensures q >= 1 && Aligned(g, alignment, s + q)
    ensures forall t :: s < t < s + q ==> !Aligned(g, alignment, t)
  {
    var cs, a := g.chunkSize, AddressOf(g, s);
    if q <= 0 { MulMono(q, 0, cs); }
    assert AddressOf(g, s + q) == a + q * cs;
    ModShift(a, alignment);
    forall t | s < t < s + q ensures !Aligned(g, alignment, t) {
      assert AddressOf(g, t) == a + (t - s) * cs;
      MulMono(1, t - s, cs);
      MulMono(t - s + 1, q, cs);
      assert (t - s + 1) * cs == (t - s) * cs + cs;
      BetweenMultiples(a, alignment, (t - s) * cs);
    }
  }

  lemma BetweenMultiples(a: nat, m: nat, d: nat)
    requires m > 0 && a % m == 0 && 0 < d < m
    ensures (a + d) % m != 0
  {
    DivModUnique(a + d, m, a / m, d);
  }

  /** Aligning an address of the pool up, with the 32-bit wrap of the source, lands on the first
      aligned chunk at or after it. */
  lemma AlignedIndex(g: Geometry, bitmapSize: nat, alignment: nat, i: nat)
    requires GeometryOk(g, bitmapSize) && PowerOfTwo(alignment) && alignment < WORD
    requires AddressOf(g, i) <= WORD && Wrap32(AddressOf(g, i)) % alignment != 0
    ensures var j := IndexOfAddress(g, Wrap32(AlignUp(Wrap32(AddressOf(g, i)), alignment)));
            i < j && Aligned(g, alignment, j) && forall t :: i <= t < j ==> !Aligned(g, alignment, t)
  {
    hide PowerOfTwo, Stride, AlignUp, AddressOf, IndexOfAddress, GeometryOk;
    PoolAddress(g, bitmapSize, i);
    ZeroIsMultiple(alignment);
    AlignmentCases(g, alignment, i);
    var up := AlignUp(AddressOf(g, i), alignment);
    NextMultiple(g.chunkSize, alignment, AddressOf(g, i));
    var j := ExactIndex(g, up);
    NoneBelow(g, alignment, i, j);
  }

  /** addr_to_allocationctx_offset, as a chunk index. */
  function IndexOfAddress(g: Geometry, address: u32): nat
    requires g.chunkSize > 0
  {
    Wrap32(address - g.start) / g.chunkSize
  }

  lemma NextMultiple(cs: nat, alignment: nat, a: nat)
    requires 0 < cs < alignment < WORD && alignment % cs == 0 && PowerOfTwo(alignment) && a < WORD
    ensures a <= AlignUp(a, alignment) <= WORD && AlignUp(a, alignment) % cs == 0
  {
    AlignUpNext(a, alignment, WORD);
    WordMultiple(alignment);
    MultipleChain(AlignUp(a, alignment), alignment, cs);
  }

  lemma ZeroIsMultiple(m: nat)
    requires m > 0
    ensures 0 % m == 0
  {
  }

  lemma PoolAddress(g: Geometry, bitmapSize: nat, i: nat)
    requires GeometryOk(g, bitmapSize)
    ensures 0 < g.start <= AddressOf(g, i)
    ensures g.chunkSize in {32, 64, 128} && g.start % g.chunkSize == 0
  {
    MulMono(0, i, g.chunkSize);
  }

  lemma WordMultiple(alignment: nat)
    requires PowerOfTwo(alignment) && alignment < WORD
    ensures WORD % alignment == 0
  {
    MachinePowers();
    PowersDivide(alignment, WORD);
  }

  lemma NoneBelow(g: Geometry, alignment: nat, i: nat, j: nat)
    requires g.chunkSize > 0 && alignment > 0 && AddressOf(g, i) >= 0 && !Aligned(g, alignment, i)
    requires AddressOf(g, j) == AlignUp(AddressOf(g, i), alignment)
    ensures i < j && Aligned(g, alignment, j) && forall t :: i <= t < j ==> !Aligned(g, alignment, t)
  {
    hide AlignUp, AddressOf;
    AlignUpNext(AddressOf(g, i), alignment, AddressOf(g, i));
    AddressOrder(g, i, j);
    forall t | i <= t < j ensures !Aligned(g, alignment, t) {
      AddressOrder(g, i, t);
      AddressOrder(g, t, j);
      AlignUpNext(AddressOf(g, i), alignment, AddressOf(g, t));
    }
  }

  lemma AddressOrder(g: Geometry, i: nat, j: nat)
    requires g.chunkSize > 0
    ensures AddressOf(g, i) < AddressOf(g, j) <==> i < j
  {
    if i < j { MulMono(i + 1, j, g.chunkSize); } else { MulMono(j, i, g.chunkSize); }
  }

  lemma ExactIndex(g: Geometry, x: nat) returns (j: nat)
    requires g.chunkSize > 0 && g.start % g.chunkSize == 0 && x % g.chunkSize == 0 && 0 < g.start <= x <= WORD
    ensures j == IndexOfAddress(g, Wrap32(x)) && AddressOf(g, j) == x
  {
    var cs := g.chunkSize;
    assert Wrap32(Wrap32(x) - g.start) == x - g.start;
    j := (x - g.start) / cs;
    assert x == (x / cs) * cs && g.start == (g.start / cs) * cs;
    assert x - g.start == (x / cs - g.start / cs) * cs;
    DivModUnique(x - g.start, cs, x / cs - g.start / cs, 0);
  }

  // ---------------------------------------------------------------- memory image

  /** The bytes of a u32 as the i686 stores them. */
  function Bytes32(w: u32): seq<u8> {
    [w % 0x100, w / 0x100 % 0x100, w / 0x100 / 0x100 % 0x100, w / 0x100 / 0x100 / 0x100]
  }

  function Word32(m: seq<u8>): u32
    requires |m| == 4
  {
    var b0: int, b1: int, b2: int, b3: int := m[0], m[1], m[2], m[3];
    b0 + 0x100 * (b1 + 0x100 * (b2 + 0x100 * b3))
  }

  lemma WordBytes(w: u32)
    ensures Word32(Bytes32(w)) == w
  {
  }

  datatype Header = Header(signature: u32, size: u32, chunkSize: u32, alignment: u32)

  function EncodeHeader(h: Header): (e: seq<u8>)
    ensures |e| == 16
  {
    Bytes32(h.signature) + Bytes32(h.size) + Bytes32(h.chunkSize) + Bytes32(h.alignment)
  }

  function DecodeHeader(m: seq<u8>): Header
    requires |m| == 16
  {
    Header(Word32(m[0..4]), Word32(m[4..8]), Word32(m[8..12]), Word32(m[12..16]))
  }

  /** The header's four words, least significant byte first: signature, size, chunk size and alignment. */
  lemma HeaderLayout(h: Header, i: nat)
    requires i < 4
    ensures var w := if i == 0 then h.signature else if i == 1 then h.size else if i == 2 then h.chunkSize else h.alignment;
            var e := EncodeHeader(h);
            0x100_0000 * (e[4 * i + 3] as int) + 0x1_0000 * (e[4 * i + 2] as int) + 0x100 * (e[4 * i + 1] as int) + e[4 * i] == w
  {
  }

  lemma HeaderRoundTrip(h: Header)
    ensures DecodeHeader(EncodeHeader(h)) == h
  {
    var e := EncodeHeader(h);
    assert e[0..4] == Bytes32(h.signature) && e[4..8] == Bytes32(h.size);
    assert e[8..12] == Bytes32(h.chunkSize) && e[12..16] == Bytes32(h.alignment);
    WordBytes(h.signature); WordBytes(h.size); WordBytes(h.chunkSize); WordBytes(h.alignment);
  }

  function HeaderOf(g: Geometry, b: Block): Header
    requires |b.data| < WORD && b.alignment < WORD && g.chunkSize < WORD
  {
    Header(ALLOCATION_SIGNATURE, |b.data|, g.chunkSize, b.alignment)
  }

  /** The block may stand at chunk s of the pool. */
  ghost predicate WellPlaced(g: Geometry, s: nat, b: Block) {
    && g.chunkSize in {32, 64, 128}
    && 1 <= |b.data|
    && 1 <= s && s + ChunkCount(g, b) < g.chunks
    && PowerOfTwo(b.alignment) && b.alignment < WORD
    && Aligned(g, b.alignment, s)
  }

  /** First byte and first byte past what the block at s stores: header and payload. */
  function Lo(g: Geometry, s: nat): int { s * g.chunkSize - HEADER_SIZE }
  function Hi(g: Geometry, s: nat, b: Block): int { s * g.chunkSize + |b.data| }

  ghost predicate StoredAt(g: Geometry, mem: seq<u8>, s: nat, b: Block) {
    && |b.data| < WORD && b.alignment < WORD && g.chunkSize < WORD
    && 0 <= Lo(g, s) && Hi(g, s, b) <= |mem|
    && mem[Lo(g, s)..Hi(g, s, b)] == EncodeHeader(HeaderOf(g, b)) + b.data
  }

  predicate Covers(g: Geometry, blocks: Blocks, s: nat, o: int) {
    s in blocks && Lo(g, s) <= o < Hi(g, s, blocks[s])
  }

  ghost predicate Placed(g: Geometry, blocks: Blocks) {
    && g.chunkSize in {32, 64, 128}
    && (forall s :: s in blocks ==> WellPlaced(g, s, blocks[s]))
    && Apart(g, blocks)
  }

  ghost predicate Apart(g: Geometry, blocks: Blocks)
    requires g.chunkSize > 0
  {
    forall s, t :: s in blocks && t in blocks && s < t ==> s + ChunkCount(g, blocks[s]) < t
  }

  /** Bitmap and memory say exactly what the live blocks say. */
  ghost predicate Represents(g: Geometry, blocks: Blocks, bm: seq<bv8>, mem: seq<u8>) {
    && GeometryOk(g, |bm|)
    && |mem| == g.chunks * g.chunkSize
    && Placed(g, blocks)
    && BitsMatch(g, blocks, bm)
    && AllStored(g, blocks, mem)
    && RestZero(g, blocks, mem)
  }

  /** A bit is set exactly when some live block owns its chunk. */
  ghost predicate BitsMatch(g: Geometry, blocks: Blocks, bm: seq<bv8>)
    requires g.chunkSize > 0
  {
    forall c: nat :: c < 8 * |bm| ==> (Bit(bm, c) <==> Used(g, blocks, c))
  }

  ghost predicate AllStored(g: Geometry, blocks: Blocks, mem: seq<u8>) {
    forall s :: s in blocks ==> StoredAt(g, mem, s, blocks[s])
  }

  /** Every byte that belongs to no header and no payload is zero. */
  ghost predicate RestZero(g: Geometry, blocks: Blocks, mem: seq<u8>) {
    forall o :: 0 <= o < |mem| && (forall s :: !Covers(g, blocks, s, o)) ==> mem[o] == 0
  }

  /** A payload lies inside the chunks the block owns, its header inside the chunk before. */
  lemma BlockExtent(g: Geometry, s: nat, b: Block)
    requires WellPlaced(g, s, b)
    ensures 1 <= ChunkCount(g, b)
    ensures (s - 1) * g.chunkSize <= Lo(g, s)
    ensures Hi(g, s, b) <= (s + ChunkCount(g, b)) * g.chunkSize <= g.chunks * g.chunkSize
  {
    var cs := g.chunkSize;
    assert |b.data| <= ChunkCount(g, b) * cs;
    assert (s - 1) * cs == s * cs - cs;
    assert (s + ChunkCount(g, b)) * cs == s * cs + ChunkCount(g, b) * cs;
    MulMono(s + ChunkCount(g, b), g.chunks, cs);
  }

  lemma DisjointExtents(g: Geometry, s: nat, b: Block, t: nat, b': Block)
    requires WellPlaced(g, s, b) && WellPlaced(g, t, b') && s + ChunkCount(g, b) < t
    ensures Hi(g, s, b) <= Lo(g, t)
  {
    BlockExtent(g, s, b);
    BlockExtent(g, t, b');
    MulMono(s + ChunkCount(g, b), t - 1, g.chunkSize);
  }

  /** mem' is mem with the bytes from lo on replaced by `bytes`. */
  ghost predicate Overwritten(mem: seq<u8>, mem': seq<u8>, lo: int, bytes: seq<u8>) {
    && 0 <= lo && lo + |bytes| <= |mem| == |mem'|
    && forall o :: 0 <= o < |mem| ==> mem'[o] == if lo <= o < lo + |bytes| then bytes[o - lo] else mem[o]
  }

  /** Any block that stays clear of [lo, lo + |bytes|) is stored as before. */
  lemma StoredElsewhere(g: Geometry, mem: seq<u8>, mem': seq<u8>, lo: int, bytes: seq<u8>, t: nat, b: Block)
    requires StoredAt(g, mem, t, b) && Overwritten(mem, mem', lo, bytes)
    requires Hi(g, t, b) <= lo || lo + |bytes| <= Lo(g, t)
    ensures StoredAt(g, mem', t, b)
  {
    assert mem'[Lo(g, t)..Hi(g, t, b)] == mem[Lo(g, t)..Hi(g, t, b)];
  }

  /** Chunks that are free cannot interleave with a block. */
  lemma FreshOrder(g: Geometry, blocks: Blocks, s: nat, n: nat, t: nat)
    requires g.chunkSize > 0 && t in blocks && n >= 1 && s >= 1 && ChunkCount(g, blocks[t]) >= 1
    requires forall c :: s - 1 <= c < s + n ==> !Used(g, blocks, c)
    ensures t != s
    ensures if t < s then t + ChunkCount(g, blocks[t]) < s else s + n < t
  {
    var c := if t < s then s - 1 else t - 1;
    if t - 1 <= c < t + ChunkCount(g, blocks[t]) {
      assert Owns(g, blocks, t, c);
      assert Used(g, blocks, c);
    }
  }

  lemma FreshExtent(g: Geometry, blocks: Blocks, s: nat, b: Block, t: nat)
    requires Placed(g, blocks) && WellPlaced(g, s, b) && t in blocks
    requires Fits(g, blocks, b.alignment, ChunkCount(g, b), s)
    ensures t != s
    ensures if t < s then t + ChunkCount(g, blocks[t]) < s else s + ChunkCount(g, b) < t
    ensures Hi(g, t, blocks[t]) <= Lo(g, s) || Hi(g, s, b) <= Lo(g, t)
  {
    var b' := blocks[t];
    BlockExtent(g, t, b');
    BlockExtent(g, s, b);
    FreshOrder(g, blocks, s, ChunkCount(g, b), t);
    if t < s { DisjointExtents(g, t, b', s, b); } else { DisjointExtents(g, s, b, t, b'); }
  }

  lemma AddStored(g: Geometry, blocks: Blocks, mem: seq<u8>, mem': seq<u8>, s: nat, b: Block)
    requires Placed(g, blocks) && AllStored(g, blocks, mem)
    requires WellPlaced(g, s, b) && Fits(g, blocks, b.alignment, ChunkCount(g, b), s) && |b.data| < WORD
    requires Overwritten(mem, mem', Lo(g, s), EncodeHeader(HeaderOf(g, b)))
    ensures forall t :: t in blocks ==> t != s && StoredAt(g, mem', t, blocks[t])
  {
    forall t | t in blocks
      ensures t != s && StoredAt(g, mem', t, blocks[t])
    {
      FreshExtent(g, blocks, s, b, t);
      StoredElsewhere(g, mem, mem', Lo(g, s), EncodeHeader(HeaderOf(g, b)), t, blocks[t]);
    }
  }

  /** The payload of a new block is the zeroed memory it is carved from. */
  lemma FreshStored(g: Geometry, blocks: Blocks, mem: seq<u8>, mem': seq<u8>, s: nat, b: Block)
    requires Placed(g, blocks) && RestZero(g, blocks, mem) && |mem| == g.chunks * g.chunkSize
    requires WellPlaced(g, s, b) && Fits(g, blocks, b.alignment, ChunkCount(g, b), s)
    requires |b.data| < WORD && b.data == Repeat(0, |b.data|)
    requires Overwritten(mem, mem', Lo(g, s), EncodeHeader(HeaderOf(g, b)))
    ensures StoredAt(g, mem', s, b)
  {
    BlockExtent(g, s, b);
    var lo := Lo(g, s);
    forall o | lo + HEADER_SIZE <= o < Hi(g, s, b)
      ensures mem'[o] == 0
    {
      forall t ensures !Covers(g, blocks, t, o) {
        if t in blocks { FreshExtent(g, blocks, s, b, t); }
      }
    }
    assert mem'[lo..Hi(g, s, b)] == EncodeHeader(HeaderOf(g, b)) + b.data;
  }

  lemma AddBits(g: Geometry, blocks: Blocks, bm: seq<bv8>, bm': seq<bv8>, s: nat, b: Block)
    requires g.chunkSize > 0 && BitsMatch(g, blocks, bm) && s !in blocks
    requires BitsSet(bm, bm', s - 1, s + ChunkCount(g, b), true)
    ensures BitsMatch(g, blocks[s := b], bm')
  {
    forall c: nat | c < 8 * |bm| ensures Bit(bm', c) <==> Used(g, blocks[s := b], c) {
      AddUsed(g, blocks, s, b, c);
    }
  }

  lemma AddUsed(g: Geometry, blocks: Blocks, s: nat, b: Block, c: int)
    requires g.chunkSize > 0 && s !in blocks
    ensures Used(g, blocks[s := b], c) <==> Used(g, blocks, c) || s - 1 <= c < s + ChunkCount(g, b)
  {
    hide ChunkCount;
    var blocks' := blocks[s := b];
    assert Owns(g, blocks', s, c) <==> s - 1 <= c < s + ChunkCount(g, b);
    forall t | t != s ensures Owns(g, blocks', t, c) <==> Owns(g, blocks, t, c) {}
    assert !Owns(g, blocks, s, c);
  }

  lemma AddZeros(g: Geometry, blocks: Blocks, mem: seq<u8>, mem': seq<u8>, s: nat, b: Block)
    requires RestZero(g, blocks, mem) && s !in blocks && |b.data| < WORD && b.alignment < WORD && g.chunkSize < WORD
    requires Overwritten(mem, mem', Lo(g, s), EncodeHeader(HeaderOf(g, b)))
    ensures RestZero(g, blocks[s := b], mem')
  {
    var blocks' := blocks[s := b];
    forall o | 0 <= o < |mem| && (forall t :: !Covers(g, blocks', t, o)) ensures mem'[o] == 0 {
      assert !Covers(g, blocks', s, o);
      forall t ensures !Covers(g, blocks, t, o) {
        assert !Covers(g, blocks', t, o);
      }
    }
  }

  lemma AddApart(g: Geometry, blocks: Blocks, s: nat, b: Block)
    requires Placed(g, blocks) && WellPlaced(g, s, b) && Fits(g, blocks, b.alignment, ChunkCount(g, b), s)
    ensures s !in blocks && Placed(g, blocks[s := b])
  {
    forall t | t in blocks
      ensures t != s
      ensures if t < s then t + ChunkCount(g, blocks[t]) < s else s + ChunkCount(g, b) < t
    {
      FreshExtent(g, blocks, s, b, t);
    }
  }

  lemma AddBlock(g: Geometry, blocks: Blocks, bm: seq<bv8>, mem: seq<u8>, bm': seq<bv8>, mem': seq<u8>,
                 s: nat, b: Block)
    requires Represents(g, blocks, bm, mem)
    requires WellPlaced(g, s, b) && Fits(g, blocks, b.alignment, ChunkCount(g, b), s)
    requires |b.data| < WORD && b.data == Repeat(0, |b.data|)
    requires BitsSet(bm, bm', s - 1, s + ChunkCount(g, b), true)
    requires Overwritten(mem, mem', Lo(g, s), EncodeHeader(HeaderOf(g, b)))
    ensures Represents(g, blocks[s := b], bm', mem')
  {
    hide Lo, Hi, ChunkCount, EncodeHeader, HeaderOf, Fits, WellPlaced, GeometryOk, BitsMatch, Placed, StoredAt, RestZero;
    AddApart(g, blocks, s, b);
    AddStored(g, blocks, mem, mem', s, b);
    FreshStored(g, blocks, mem, mem', s, b);
    AddBits(g, blocks, bm, bm', s, b);
    AddZeros(g, blocks, mem, mem', s, b);
  }

  lemma ApartExtents(g: Geometry, blocks: Blocks, s: nat, t: nat)
    requires Placed(g, blocks) && s in blocks && t in blocks && s != t
    ensures Hi(g, t, blocks[t]) <= Lo(g, s) || Hi(g, s, blocks[s]) <= Lo(g, t)
  {
    if s < t { DisjointExtents(g, s, blocks[s], t, blocks[t]); } else { DisjointExtents(g, t, blocks[t], s, blocks[s]); }
  }

  lemma RemoveUsed(g: Geometry, blocks: Blocks, s: nat, c: nat)
    requires g.chunkSize > 0 && Apart(g, blocks) && s in blocks
    ensures Used(g, blocks - {s}, c) <==> Used(g, blocks, c) && !Owns(g, blocks, s, c)
  {
    var blocks' := blocks - {s};
    if Used(g, blocks', c) {
      var t :| Owns(g, blocks', t, c);
      assert Owns(g, blocks, t, c);
    }
    if Used(g, blocks, c) && !Owns(g, blocks, s, c) {
      var t :| Owns(g, blocks, t, c);
      assert Owns(g, blocks', t, c);
    }
  }

  lemma RemoveBits(g: Geometry, blocks: Blocks, bm: seq<bv8>, bm': seq<bv8>, s: nat)
    requires g.chunkSize > 0 && Placed(g, blocks) && s in blocks && BitsMatch(g, blocks, bm)
    requires BitsSet(bm, bm', s - 1, s + ChunkCount(g, blocks[s]), false)
    ensures BitsMatch(g, blocks - {s}, bm')
  {
    var blocks' := blocks - {s};
    forall c: nat | c < 8 * |bm| ensures Bit(bm', c) <==> Used(g, blocks', c) {
      RemoveUsed(g, blocks, s, c);
    }
  }

  lemma RemoveStored(g: Geometry, blocks: Blocks, mem: seq<u8>, mem': seq<u8>, s: nat)
    requires Placed(g, blocks) && s in blocks && AllStored(g, blocks, mem)
    requires Overwritten(mem, mem', Lo(g, s), Repeat(0, |blocks[s].data| + HEADER_SIZE))
    ensures AllStored(g, blocks - {s}, mem')
  {
    forall t | t in blocks && t != s
      ensures StoredAt(g, mem', t, blocks[t])
    {
      ApartExtents(g, blocks, s, t);
      StoredElsewhere(g, mem, mem', Lo(g, s), Repeat(0, |blocks[s].data| + HEADER_SIZE), t, blocks[t]);
    }
  }

  lemma RemoveZeros(g: Geometry, blocks: Blocks, mem: seq<u8>, mem': seq<u8>, s: nat)
    requires s in blocks && RestZero(g, blocks, mem)
    requires Overwritten(mem, mem', Lo(g, s), Repeat(0, |blocks[s].data| + HEADER_SIZE))
    ensures RestZero(g, blocks - {s}, mem')
  {
    var blocks' := blocks - {s};
    forall o | 0 <= o < |mem| && (forall t :: !Covers(g, blocks', t, o)) ensures mem'[o] == 0 {
      if !(Lo(g, s) <= o < Hi(g, s, blocks[s])) {
        forall t ensures !Covers(g, blocks, t, o) {
          assert !Covers(g, blocks', t, o);
        }
      }
    }
  }

  lemma RemoveBlock(g: Geometry, blocks: Blocks, bm: seq<bv8>, mem: seq<u8>, bm': seq<bv8>, mem': seq<u8>, s: nat)
    requires Represents(g, blocks, bm, mem) && s in blocks
    requires BitsSet(bm, bm', s - 1, s + ChunkCount(g, blocks[s]), false)
    requires Overwritten(mem, mem', Lo(g, s), Repeat(0, |blocks[s].data| + HEADER_SIZE))
    ensures Represents(g, blocks - {s}, bm', mem')
  {
    RemoveBits(g, blocks, bm, bm', s);
    RemoveStored(g, blocks, mem, mem', s);
    RemoveZeros(g, blocks, mem, mem', s);
  }

  /** b with `bytes` stored at offset off of its payload. */
  function Patched(b: Block, off: nat, bytes: seq<u8>): (r: Block)
    requires off + |bytes| <= |b.data|
    ensures |r.data| == |b.data| && r.alignment == b.alignment
  {
    b.(data := b.data[..off] + bytes + b.data[off + |bytes|..])
  }

  lemma PatchStored(g: Geometry, mem: seq<u8>, mem': seq<u8>, s: nat, b: Block, off: nat, bytes: seq<u8>)
    requires StoredAt(g, mem, s, b) && off + |bytes| <= |b.data|
    requires Overwritten(mem, mem', s * g.chunkSize + off, bytes)
    ensures StoredAt(g, mem', s, Patched(b, off, bytes))
  {
    var b', lo := Patched(b, off, bytes), Lo(g, s);
    var was, now := mem[lo..Hi(g, s, b)], mem'[lo..Hi(g, s, b')];
    var header := EncodeHeader(HeaderOf(g, b));
    assert |now| == |was| == |header| + |b.data|;
    forall i | 0 <= i < |now| ensures now[i] == (header + b'.data)[i] {
      assert was[i] == (header + b.data)[i];
    }
    assert now == header + b'.data;
  }

  /** A client storing into its own payload. */
  lemma UpdatePayload(g: Geometry, blocks: Blocks, bm: seq<bv8>, mem: seq<u8>, mem': seq<u8>, s: nat, off: nat, bytes: seq<u8>)
    requires Represents(g, blocks, bm, mem) && s in blocks && off + |bytes| <= |blocks[s].data|
    requires Overwritten(mem, mem', s * g.chunkSize + off, bytes)
    ensures Represents(g, blocks[s := Patched(blocks[s], off, bytes)], bm, mem')
  {
    hide Lo, Hi, ChunkCount, GeometryOk, RestZero, StoredAt, BitsMatch, Placed;
    var blocks' := blocks[s := Patched(blocks[s], off, bytes)];
    PatchStored(g, mem, mem', s, blocks[s], off, bytes);
    PatchElsewhere(g, blocks, mem, mem', s, off, bytes);
    PatchBits(g, blocks, bm, s, Patched(blocks[s], off, bytes));
    PatchZeros(g, blocks, mem, mem', s, off, bytes);
  }

  lemma PatchElsewhere(g: Geometry, blocks: Blocks, mem: seq<u8>, mem': seq<u8>, s: nat, off: nat, bytes: seq<u8>)
    requires Placed(g, blocks) && AllStored(g, blocks, mem) && s in blocks && off + |bytes| <= |blocks[s].data|
    requires Overwritten(mem, mem', s * g.chunkSize + off, bytes)
    ensures forall t :: t in blocks && t != s ==> StoredAt(g, mem', t, blocks[t])
  {
    forall t | t in blocks && t != s
      ensures StoredAt(g, mem', t, blocks[t])
    {
      ApartExtents(g, blocks, s, t);
      StoredElsewhere(g, mem, mem', s * g.chunkSize + off, bytes, t, blocks[t]);
    }
  }

  lemma PatchBits(g: Geometry, blocks: Blocks, bm: seq<bv8>, s: nat, b: Block)
    requires s in blocks && |b.data| == |blocks[s].data| && b.alignment == blocks[s].alignment
    requires Placed(g, blocks) && BitsMatch(g, blocks, bm)
    ensures Placed(g, blocks[s := b]) && BitsMatch(g, blocks[s := b], bm)
  {
    hide Bit, Aligned;
    assert ChunkCount(g, b) == ChunkCount(g, blocks[s]);
    forall c: nat | c < 8 * |bm| ensures Used(g, blocks[s := b], c) <==> Used(g, blocks, c) {
      if Used(g, blocks[s := b], c) {
        var t :| Owns(g, blocks[s := b], t, c);
        assert Owns(g, blocks, t, c);
      }
      if Used(g, blocks, c) {
        var t :| Owns(g, blocks, t, c);
        assert Owns(g, blocks[s := b], t, c);
      }
    }
  }

  lemma PatchZeros(g: Geometry, blocks: Blocks, mem: seq<u8>, mem': seq<u8>, s: nat, off: nat, bytes: seq<u8>)
    requires s in blocks && off + |bytes| <= |blocks[s].data| && RestZero(g, blocks, mem)
    requires Overwritten(mem, mem', s * g.chunkSize + off, bytes)
    ensures RestZero(g, blocks[s := Patched(blocks[s], off, bytes)], mem')
  {
    var blocks' := blocks[s := Patched(blocks[s], off, bytes)];
    forall o | 0 <= o < |mem| && (forall t :: !Covers(g, blocks', t, o)) ensures mem'[o] == 0 {
      forall t ensures !Covers(g, blocks, t, o) {
        assert !Covers(g, blocks', t, o);
      }
      assert !Covers(g, blocks, s, o);
    }
  }
}

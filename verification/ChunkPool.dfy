/** kernel/mem/gallocator.c: the bitmap walks and the aligned first-fit search, in the
    byte/bit cursor form the source gives them, and allocation and free inside one pool. */
module ChunkPool {
  import opened Machine
  import opened Gallocator

  /** A cursor into a pool's bitmap. */
  datatype AllocationCtx = AllocationCtx(pool: Geometry, byte: nat, bit: nat)

  function Index(ctx: AllocationCtx): nat {
    8 * ctx.byte + ctx.bit
  }

  /** The chunk before the cursor, where a block keeps its header. */
  function Before(ctx: AllocationCtx): (r: AllocationCtx)
    requires ctx.bit < 8 && Index(ctx) > 0
    ensures r.pool == ctx.pool && r.bit < 8 && Index(r) == Index(ctx) - 1
  {
    if ctx.bit == 0 then ctx.(byte := ctx.byte - 1, bit := 7) else ctx.(bit := ctx.bit - 1)
  }

  method Advance(ctx: AllocationCtx, bits: nat) returns (r: AllocationCtx)
    requires ctx.bit < 8
    ensures r.pool == ctx.pool && r.bit < 8 && Index(r) == Index(ctx) + bits
  {
    var rest := bits;
    r := ctx;
    while rest >= 8
      invariant r.pool == ctx.pool && r.bit == ctx.bit && Index(r) + rest == Index(ctx) + bits
    {
      r := r.(byte := r.byte + 1);
      rest := rest - 8;
    }
    if r.bit + rest >= 8 {
      r := r.(byte := r.byte + 1, bit := r.bit + rest - 8);
    } else {
      r := r.(bit := r.bit + rest);
    }
  }

  /** allocationctx_to_offset, in 32-bit arithmetic. */
  function ToOffset(ctx: AllocationCtx): u32 {
    Wrap32(ctx.byte * 8 * ctx.pool.chunkSize + ctx.bit * ctx.pool.chunkSize)
  }

  predicate InsidePool(ctx: AllocationCtx) {
    ToOffset(ctx) < ctx.pool.chunks * ctx.pool.chunkSize
  }

  lemma OffsetOrder(cs: nat, byte: nat, bit: nat, chunks: nat, size: nat)
    requires cs > 0 && bit < 8 && byte < size && 8 * size * cs < WORD
    ensures Wrap32(byte * 8 * cs + bit * cs) < chunks * cs <==> 8 * byte + bit < chunks
  {
    var i := 8 * byte + bit;
    assert byte * 8 * cs + bit * cs == i * cs by {
      assert (8 * byte) * cs == byte * 8 * cs;
    }
    MulMono(i, 8 * size, cs);
    if i < chunks {
      MulMono(i + 1, chunks, cs);
      assert (i + 1) * cs == i * cs + cs;
    } else {
      MulMono(chunks, i, cs);
    }
  }

  lemma NothingSet(bm: seq<bv8>, lo: int, v: bool)
    ensures BitsSet(bm, bm, lo, lo, v)
  {
  }

  class Pool {
    const g: Geometry
    const bitmap: array<bv8>
    const memory: array<u8>
    ghost var blocks: Blocks

    ghost predicate Shape()
    {
      GeometryOk(g, bitmap.Length) && g.chunkSize in {32, 64, 128} && g.chunks <= 8 * bitmap.Length &&
      bitmap as object != memory
    }

    ghost predicate Valid()
      reads this, bitmap, memory
    {
      Shape() && Represents(g, blocks, bitmap[..], memory[..])
    }

    /** A pool of zeroed memory, as gallocator_init_heap leaves it. */
    constructor (g: Geometry, bitmapSize: nat)
      requires GeometryOk(g, bitmapSize)
      ensures Valid() && blocks == map[] && this.g == g
      ensures fresh(bitmap) && fresh(memory) && bitmap.Length == bitmapSize
    {
      this.g := g;
      bitmap := new bv8[bitmapSize](_ => 0);
      memory := new u8[g.chunks * g.chunkSize](_ => 0);
      blocks := map[];
    }

    /** Wherever the bitmap reaches, the offset does not wrap and the test is about chunk indices. */
    lemma InsideIsIndex(ctx: AllocationCtx)
      requires GeometryOk(g, bitmap.Length) && ctx.pool == g && ctx.bit < 8 && ctx.byte < bitmap.Length
      ensures InsidePool(ctx) <==> Index(ctx) < g.chunks
    {
      OffsetOrder(g.chunkSize, ctx.byte, ctx.bit, g.chunks, bitmap.Length);
    }

    lemma PastBitmapIsOutside(ctx: AllocationCtx)
      requires GeometryOk(g, bitmap.Length) && ctx == AllocationCtx(g, bitmap.Length, 0)
      ensures !InsidePool(ctx)
    {
      if g.chunkSize == 32 {
        assert ToOffset(ctx) == 256 * bitmap.Length;
      } else if g.chunkSize == 64 {
        assert ToOffset(ctx) == 512 * bitmap.Length;
      } else {
        assert ToOffset(ctx) == 1024 * bitmap.Length;
      }
    }

    predicate CheckBit(ctx: AllocationCtx)
      reads bitmap
      requires ctx.bit < 8 && ctx.byte < bitmap.Length
    {
      TestBit(bitmap[ctx.byte], ctx.bit)
    }

    lemma CheckBitIsBit(ctx: AllocationCtx)
      requires ctx.bit < 8 && ctx.byte < bitmap.Length
      ensures CheckBit(ctx) <==> Bit(bitmap[..], Index(ctx))
    {
      assert Index(ctx) / 8 == ctx.byte && Index(ctx) % 8 == ctx.bit;
    }

    /** Length of the free run that starts at the cursor, cut off at n and at the pool's end. */
    method HasContiguousBits(start: AllocationCtx, n: nat) returns (found: nat)
      requires Shape() && n >= 1
      requires start.pool == g && start.bit < 8 && start.byte < bitmap.Length && InsidePool(start) && !CheckBit(start)
      ensures 1 <= found <= n && Index(start) + found <= g.chunks <= 8 * bitmap.Length
      ensures forall c :: Index(start) <= c < Index(start) + found ==> !Bit(bitmap[..], c)
      ensures found < n && Index(start) + found < g.chunks ==> Bit(bitmap[..], Index(start) + found)
    {
      hide InsidePool, ToOffset;
      var ctx := start;
      found := 0;
      InsideIsIndex(start);
      CheckBitIsBit(start);
      ghost var i0 := Index(start);
      label done: while ctx.byte < bitmap.Length
        invariant ctx.pool == g && ctx.bit < 8 && found < n && i0 + found <= g.chunks
        invariant Index(ctx) == i0 + found || (i0 + found == g.chunks && Index(ctx) >= g.chunks)
        invariant forall c :: i0 <= c < i0 + found ==> !Bit(bitmap[..], c)
        decreases bitmap.Length - ctx.byte
      {
        var byte := bitmap[ctx.byte];
        ghost var row := ctx.byte;
        InsideIsIndex(ctx);
        while InsidePool(ctx)
          invariant ctx.pool == g && ctx.byte == row && ctx.bit < 8 && found < n && i0 + found <= g.chunks
          invariant Index(ctx) == i0 + found || (i0 + found == g.chunks && Index(ctx) >= g.chunks)
          invariant forall c :: i0 <= c < i0 + found ==> !Bit(bitmap[..], c)
          invariant InsidePool(ctx) <==> Index(ctx) < g.chunks
          decreases 8 - ctx.bit
        {
          CheckBitIsBit(ctx);
          if TestBit(byte, ctx.bit) {
            break done;
          }
          found := found + 1;
          if found == n {
            break done;
          }
          if ctx.bit == 7 {
            ctx := ctx.(bit := 0);
            break;
          }
          ctx := ctx.(bit := ctx.bit + 1);
          InsideIsIndex(ctx);
        }
        ctx := ctx.(byte := ctx.byte + 1);
      }
    }

    /** `byte |= 1 << bit` or `byte &= ~(1 << bit)`, extending a run of forced bits by one. */
    method StoreBit(byte: nat, bit: nat, v: bool, ghost was: seq<bv8>, ghost lo: int)
      requires byte < bitmap.Length && bit < 8 && lo <= 8 * byte + bit
      requires BitsSet(was, bitmap[..], lo, 8 * byte + bit, v)
      modifies bitmap
      ensures BitsSet(was, bitmap[..], lo, 8 * byte + bit + 1, v)
    {
      hide Bit, Forced;
      BitsSetStep(was, bitmap[..], lo, 8 * byte + bit, v);
      assert (8 * byte + bit) / 8 == byte && (8 * byte + bit) % 8 == bit;
      ghost var before := bitmap[..];
      bitmap[byte] := Forced(bitmap[byte], bit, v);
      assert bitmap[..] == before[byte := Forced(before[byte], bit, v)];
    }

    /** gallocator_bitmap_set_bits (v) and gallocator_bitmap_clear_bits (!v), which differ only in the
        bit they store: n chunks from the cursor on, and the header chunk before them. */
    method MarkBits(start: AllocationCtx, n: nat, v: bool) returns (st: int)
      requires Shape() && n >= 1
      requires start.pool == g && start.byte < bitmap.Length && Index(start) + n <= 8 * bitmap.Length
      modifies bitmap
      ensures st == if start.bit > 7 || Index(start) + n >= g.chunks then -EINVAL else if Index(start) == 0 then 1 else 0
      ensures st != 0 ==> bitmap[..] == old(bitmap[..])
      ensures st == 0 ==> BitsSet(old(bitmap[..]), bitmap[..], Index(start) - 1, Index(start) + n, v)
    {
      hide InsidePool, ToOffset, BitsSet, GeometryOk;
      st := RangeCheck(start, n);
      if st != 0 {
        return;
      }
      if start.bit == 0 && start.byte == 0 {
        return 1; // there is no header chunk
      }
      ghost var was := bitmap[..];
      var header := Before(start);
      NothingSet(was, Index(header), v);
      StoreBit(header.byte, header.bit, v, was, Index(header));
      MarkRun(start, n, v, was, Index(header));
    }

    /** The marking loop of both functions; its ASSERT_NOT_HIT is unreachable. */
    method MarkRun(start: AllocationCtx, n: nat, v: bool, ghost was: seq<bv8>, ghost lo: int)
      requires Shape() && n >= 1 && start.pool == g && start.bit < 8 && lo <= Index(start)
      requires Index(start) + n < g.chunks && BitsSet(was, bitmap[..], lo, Index(start), v)
      modifies bitmap
      ensures BitsSet(was, bitmap[..], lo, Index(start) + n, v)
    {
      hide InsidePool, ToOffset, BitsSet, GeometryOk;
      ghost var i0 := Index(start);
      var ctx, bits := start, n;
      while ctx.byte < bitmap.Length
        invariant ctx.pool == g && ctx.bit < 8 && 1 <= bits <= n && Index(ctx) == i0 + n - bits
        invariant BitsSet(was, bitmap[..], lo, Index(ctx), v)
        decreases bitmap.Length - ctx.byte
      {
        ghost var row := ctx.byte;
        InsideIsIndex(ctx);
        while InsidePool(ctx)
          invariant ctx.pool == g && ctx.byte == row && ctx.bit < 8 && 1 <= bits <= n && Index(ctx) == i0 + n - bits
          invariant InsidePool(ctx)
          invariant BitsSet(was, bitmap[..], lo, Index(ctx), v)
          decreases 8 - ctx.bit
        {
          StoreBit(ctx.byte, ctx.bit, v, was, lo);
          bits := bits - 1;
          if bits == 0 {
            return;
          }
          if ctx.bit == 7 {
            ctx := ctx.(bit := 0);
            break;
          }
          ctx := ctx.(bit := ctx.bit + 1);
          InsideIsIndex(ctx);
        }
        ctx := ctx.(byte := ctx.byte + 1);
      }
      assert false;
    }

    /** The sanity checks that open gallocator_bitmap_set_bits and gallocator_bitmap_clear_bits. */
    method RangeCheck(start: AllocationCtx, n: nat) returns (st: int)
      requires Shape() && n >= 1
      requires start.pool == g && start.byte < bitmap.Length && Index(start) + n <= 8 * bitmap.Length
      ensures st == if start.bit > 7 || Index(start) + n >= g.chunks then -EINVAL else 0
    {
      hide InsidePool, ToOffset;
      if start.bit > 7 {
        return -EINVAL;
      }
      InsideIsIndex(start);
      if !InsidePool(start) {
        return -EINVAL;
      }
      var tmp := Advance(start, n);
      if tmp.byte < bitmap.Length {
        InsideIsIndex(tmp);
      } else {
        PastBitmapIsOutside(tmp);
      }
      if !InsidePool(tmp) {
        return -EINVAL;
      }
      return 0;
    }

    /** gallocator_find_start_aligned: the next aligned chunk at or after the cursor that is free and
        has a free chunk before it. */
    method FindStartAligned(alignment: nat, ctx: AllocationCtx) returns (found: bool, r: AllocationCtx)
      requires Shape() && PowerOfTwo(alignment) && alignment < WORD
      requires ctx.pool == g && ctx.bit < 8 && Index(ctx) <= g.chunks
      ensures r.pool == g && (found ==> r.bit < 8 && r.byte < bitmap.Length && Index(ctx) <= Index(r) < g.chunks)
      ensures found ==> CanStart(g, bitmap[..], alignment, Index(r))
      ensures forall s :: Index(ctx) <= s < (if found then Index(r) else g.chunks) ==> !CanStart(g, bitmap[..], alignment, s)
    {
      hide GeometryOk, InsidePool, ToOffset, PowerOfTwo, TestBit, Aligned, Stride, CeilDiv, Bit, CheckBit;
      r := AlignCursor(alignment, ctx);
      found := false;
      while r.byte < bitmap.Length && InsidePool(r)
        invariant r.pool == g && r.bit < 8 && Index(ctx) <= Index(r)
        invariant Index(r) < g.chunks ==> Aligned(g, alignment, Index(r))
        invariant forall s :: Index(ctx) <= s < Index(r) && s < g.chunks ==> !CanStart(g, bitmap[..], alignment, s)
        decreases g.chunks - Index(r)
      {
        InsideIsIndex(r);
        CheckBitIsBit(r);
        if Index(r) > 0 {
          CheckBitIsBit(Before(r));
          if !CheckBit(r) && !CheckBit(Before(r)) {
            found := true;
            return;
          }
        }
        ghost var i := Index(r);
        StrideStep(g, bitmap[..], alignment, i);
        r := Advance(r, Stride(g, alignment));
        assert Index(r) == i + Stride(g, alignment);
        assert Aligned(g, alignment, Index(r));
      }
      if r.byte < bitmap.Length {
        InsideIsIndex(r);
      }
    }

    /** The opening of gallocator_find_start_aligned: move to an aligned address, in 32-bit arithmetic. */
    method AlignCursor(alignment: nat, ctx: AllocationCtx) returns (r: AllocationCtx)
      requires Shape() && PowerOfTwo(alignment) && alignment < WORD
      requires ctx.pool == g && ctx.bit < 8 && Index(ctx) <= g.chunks
      ensures r.pool == g && r.bit < 8 && Index(ctx) <= Index(r)
      ensures Index(r) < g.chunks ==> Aligned(g, alignment, Index(r))
      ensures forall s :: Index(ctx) <= s < Index(r) ==> !Aligned(g, alignment, s)
    {
      hide PowerOfTwo, AlignUp, Aligned, GeometryOk, ToOffset, AddressOf, IndexOfAddress;
      var address := Wrap32(g.start + ToOffset(ctx));
      OffsetInPool(ctx);
      if address % alignment != 0 {
        AlignedIndex(g, bitmap.Length, alignment, Index(ctx));
        var total := IndexOfAddress(g, Wrap32(AlignUp(address, alignment)));
        r := AllocationCtx(g, total / 8, total - total / 8 * 8);
      } else {
        AlignedAddress(g, alignment, Index(ctx));
        r := ctx;
      }
    }

    lemma OffsetInPool(ctx: AllocationCtx)
      requires Shape() && ctx.pool == g && ctx.bit < 8 && Index(ctx) <= g.chunks
      ensures g.start + ToOffset(ctx) == AddressOf(g, Index(ctx))
      ensures g.start + ToOffset(ctx) < WORD || (g.start + ToOffset(ctx) == WORD && Index(ctx) == g.chunks)
    {
      OffsetValue(g.chunkSize, ctx.byte, ctx.bit);
      MulMono(Index(ctx), g.chunks, g.chunkSize);
      if Index(ctx) < g.chunks {
        MulMono(Index(ctx) + 1, g.chunks, g.chunkSize);
        assert (Index(ctx) + 1) * g.chunkSize == Index(ctx) * g.chunkSize + g.chunkSize;
      }
    }

    /** The search loop of gallocator_do_alloc_aligned: the first aligned run of n free chunks that has a
        free chunk before it, or no fit at all. */
    method FindRun(alignment: nat, n: nat) returns (ok: bool, r: AllocationCtx)
      requires Shape() && PowerOfTwo(alignment) && alignment < WORD && n >= 1
      ensures ok ==> r.pool == g && r.bit < 8 && r.byte < bitmap.Length && Index(r) + n <= g.chunks
      ensures ok ==> CanStart(g, bitmap[..], alignment, Index(r))
      ensures ok ==> forall c :: Index(r) - 1 <= c < Index(r) + n ==> !Bit(bitmap[..], c)
      ensures forall s :: 0 <= s < (if ok then Index(r) else g.chunks) ==> !BitsFit(g, bitmap[..], alignment, n, s)
    {
      hide GeometryOk, InsidePool, ToOffset, PowerOfTwo, TestBit, Aligned, Stride, CeilDiv, Bit, CheckBit;
      r := AllocationCtx(g, 0, 0);
      while true
        invariant r.pool == g && r.bit < 8 && Index(r) <= g.chunks
        invariant forall s :: 0 <= s < Index(r) ==> !BitsFit(g, bitmap[..], alignment, n, s)
        decreases g.chunks - Index(r)
      {
        ghost var from := Index(r);
        ok, r := FindStartAligned(alignment, r);
        FitsCanStart(g, bitmap[..], alignment, n);
        if !ok || n == 1 {
          return;
        }
        InsideIsIndex(r);
        CheckBitIsBit(r);
        var found := HasContiguousBits(r, n);
        if found == n {
          return;
        }
        SkipIsSafe(g, bitmap[..], alignment, n, Index(r), found);
        r := Advance(r, found);
      }
    }

    /** A run of byte stores (a struct store, memset or memcpy). */
    method StoreBytes(at: nat, bytes: seq<u8>)
      requires at + |bytes| <= memory.Length
      modifies memory
      ensures Overwritten(old(memory[..]), memory[..], at, bytes)
    {
      for i := 0 to |bytes|
        invariant forall o :: 0 <= o < memory.Length ==>
                    memory[o] == if at <= o < at + i then bytes[o - at] else old(memory[o])
      {
        memory[at + i] := bytes[i];
      }
    }

    /** Offset of an address of this pool. */
    predicate Holds(address: int) {
      g.start <= address < g.start + memory.Length
    }

    /** The GAllocationMeta right before an address of the pool. */
    function ReadHeader(address: int): Header
      requires Holds(address) && Holds(address - HEADER_SIZE)
      reads memory
    {
      DecodeHeader(memory[address - g.start - HEADER_SIZE..address - g.start])
    }

    lemma LiveHeader(s: nat)
      requires Valid() && s in blocks
      ensures Holds(AddressOf(g, s)) && Holds(AddressOf(g, s) - HEADER_SIZE)
      ensures AddressOf(g, s) + |blocks[s].data| <= g.start + memory.Length
      ensures |blocks[s].data| < 0x8000_0000 && blocks[s].alignment < WORD
      ensures ReadHeader(AddressOf(g, s)) == HeaderOf(g, blocks[s])
      ensures memory[AddressOf(g, s) - g.start..AddressOf(g, s) - g.start + |blocks[s].data|] == blocks[s].data
    {
      hide GeometryOk, Aligned, BitsMatch, RestZero, Apart, PowerOfTwo;
      PlacedAddress(g, bitmap.Length, s, blocks[s]);
      StoredParts(g, memory[..], s, blocks[s]);
      assert memory[..][Lo(g, s)..Lo(g, s) + HEADER_SIZE] == memory[Lo(g, s)..Lo(g, s) + HEADER_SIZE];
    }

    /** gallocator_do_alloc_aligned on this pool: the address of the first fit, or 0 and no change. */
    method Allocate(size: nat, alignment: nat) returns (address: u32)
      requires Valid() && 1 <= size < WORD && PowerOfTwo(alignment) && alignment < WORD
      modifies this, bitmap, memory
      ensures Valid()
      ensures blocks == Allocated(g, old(blocks), size, alignment).0
      ensures address == Allocated(g, old(blocks), size, alignment).1
    {
      hide GeometryOk, Aligned, ToOffset, Bit, AddressOf, Lo, Hi, PowerOfTwo, Owns, Covers, StoredAt;
      var n := CeilDiv(size, g.chunkSize);
      assert n >= 1;
      FitsAgree(g, blocks, bitmap[..], alignment, n);
      var ok, ctx := FindRun(alignment, n);
      if !ok {
        return 0;
      }
      var st := MarkBits(ctx, n, true);
      if st != 0 {
        return 0;
      }
      ghost var s := Index(ctx);
      ghost var b := Block(alignment, Repeat(0, size));
      SearchFinds(g, blocks, alignment, n, s);
      OffsetInPool(ctx);
      PlacedAddress(g, bitmap.Length, s, b);
      ghost var marked := bitmap[..];
      address := Wrap32(g.start + ToOffset(ctx));
      StoreBytes(address - g.start - HEADER_SIZE,
                 EncodeHeader(Header(ALLOCATION_SIGNATURE, size, g.chunkSize, alignment)));
      assert bitmap[..] == marked;
      AddBlock(g, blocks, old(bitmap[..]), old(memory[..]), marked, memory[..], s, b);
      blocks := blocks[s := b];
    }

    /** gallocator_free, past its signature check, for the block at chunk s. */
    method Free(address: u32, ghost s: nat)
      requires Valid() && s in blocks && address == AddressOf(g, s)
      modifies this, bitmap, memory
      ensures Valid() && blocks == old(blocks) - {s}
      ensures Holds(address) && Holds(address - HEADER_SIZE) && ReadHeader(address).signature == 0
    {
      hide GeometryOk, Aligned, ToOffset, Bit, AddressOf, Lo, Hi, PowerOfTwo, Owns, Covers, StoredAt, CeilDiv;
      LiveHeader(s);
      PlacedAddress(g, bitmap.Length, s, blocks[s]);
      var header := ReadHeader(address);
      var chunks := CeilDiv(header.size, header.chunkSize);
      var total := IndexOfAddress(g, address);
      IndexOfPlaced(g, s);
      var ctx := AllocationCtx(g, total / 8, total - total / 8 * 8);
      var st := MarkBits(ctx, chunks, false);
      assert st == 0;
      ghost var marked := bitmap[..];
      StoreBytes(address - g.start - HEADER_SIZE, Repeat(0, header.size + HEADER_SIZE));
      assert bitmap[..] == marked;
      RemoveBlock(g, blocks, old(bitmap[..]), old(memory[..]), marked, memory[..], s);
      ZeroHeader(memory[address - g.start - HEADER_SIZE..address - g.start]);
      blocks := blocks - {s};
    }

    /** A client (or krealloc's memcpy) storing inside the payload of the live block at s. */
    method Store(ghost s: nat, address: nat, bytes: seq<u8>)
      requires Valid() && s in blocks
      requires AddressOf(g, s) <= address && address + |bytes| <= AddressOf(g, s) + |blocks[s].data|
      modifies this, memory
      ensures Valid() && blocks == old(blocks)[s := Patched(old(blocks)[s], address - AddressOf(g, s), bytes)]
    {
      hide GeometryOk, Aligned, Bit, PowerOfTwo, Owns, Covers, StoredAt, CeilDiv;
      LiveHeader(s);
      StoreBytes(address - g.start, bytes);
      assert bitmap[..] == old(bitmap[..]);
      UpdatePayload(g, blocks, bitmap[..], old(memory[..]), memory[..], s, address - AddressOf(g, s), bytes);
      blocks := blocks[s := Patched(blocks[s], address - AddressOf(g, s), bytes)];
    }

    /** Reading the payload of a live block. */
    method Load(ghost s: nat, address: u32, n: nat) returns (bytes: seq<u8>)
      requires Valid() && s in blocks && address == AddressOf(g, s) && n <= |blocks[s].data|
      ensures bytes == blocks[s].data[..n]
    {
      hide Represents, AddressOf, GeometryOk;
      LiveHeader(s);
      var at := address - g.start;
      bytes := memory[at..at + n];
      assert bytes == memory[at..at + |blocks[s].data|][..n];
    }
  }

  /** What allocating does to the live blocks of a pool, and the address it gives (0 for failure). */
  ghost function Allocated(g: Geometry, blocks: Blocks, size: nat, alignment: nat): (Blocks, int)
    requires g.chunkSize > 0 && alignment > 0
  {
    match Search(g, blocks, alignment, CeilDiv(size, g.chunkSize), 0)
    case None => (blocks, 0)
    case Some(s) => (blocks[s := Block(alignment, Repeat(0, size))], AddressOf(g, s))
  }

  lemma FitsAgree(g: Geometry, blocks: Blocks, bm: seq<bv8>, alignment: nat, n: nat)
    requires g.chunkSize > 0 && alignment > 0 && g.chunks <= 8 * |bm| && BitsMatch(g, blocks, bm)
    ensures forall s: nat :: BitsFit(g, bm, alignment, n, s) <==> Fits(g, blocks, alignment, n, s)
  {
  }

  lemma SearchFinds(g: Geometry, blocks: Blocks, alignment: nat, n: nat, s: nat)
    requires g.chunkSize > 0 && alignment > 0 && FirstFit(g, blocks, alignment, n, s)
    ensures Search(g, blocks, alignment, n, 0) == Some(s)
  {
  }

  lemma AlignedAddress(g: Geometry, alignment: nat, i: nat)
    requires alignment > 0 && (AddressOf(g, i) < WORD || (AddressOf(g, i) == WORD && i == g.chunks))
    requires Wrap32(AddressOf(g, i)) % alignment == 0
    ensures i < g.chunks ==> Aligned(g, alignment, i)
  {
  }

  /** Where a well placed block lies, in addresses and pool offsets. */
  lemma PlacedAddress(g: Geometry, bitmapSize: nat, s: nat, b: Block)
    requires GeometryOk(g, bitmapSize) && WellPlaced(g, s, b)
    ensures 0 <= Lo(g, s) == AddressOf(g, s) - g.start - HEADER_SIZE
    ensures Lo(g, s) + HEADER_SIZE <= Hi(g, s, b) == Lo(g, s) + HEADER_SIZE + |b.data|
    ensures Hi(g, s, b) <= g.chunks * g.chunkSize < 0x8000_0000
    ensures 0 < g.start <= AddressOf(g, s) == Wrap32(AddressOf(g, s))
    ensures 1 <= ChunkCount(g, b) && s + ChunkCount(g, b) < g.chunks <= 8 * bitmapSize
  {
    BlockExtent(g, s, b);
  }

  lemma ZeroHeader(m: seq<u8>)
    requires |m| == 16 && forall i :: 0 <= i < 16 ==> m[i] == 0
    ensures DecodeHeader(m).signature == 0
  {
  }

  lemma StoredParts(g: Geometry, mem: seq<u8>, s: nat, b: Block)
    requires StoredAt(g, mem, s, b)
    ensures DecodeHeader(mem[Lo(g, s)..Lo(g, s) + HEADER_SIZE]) == HeaderOf(g, b)
    ensures mem[Lo(g, s) + HEADER_SIZE..Hi(g, s, b)] == b.data
  {
    var stored := mem[Lo(g, s)..Hi(g, s, b)];
    assert stored[..HEADER_SIZE] == mem[Lo(g, s)..Lo(g, s) + HEADER_SIZE] == EncodeHeader(HeaderOf(g, b));
    assert stored[HEADER_SIZE..] == mem[Lo(g, s) + HEADER_SIZE..Hi(g, s, b)];
    HeaderRoundTrip(HeaderOf(g, b));
  }

  lemma IndexOfPlaced(g: Geometry, s: nat)
    requires g.chunkSize > 0 && 0 <= AddressOf(g, s) < WORD
    ensures IndexOfAddress(g, AddressOf(g, s)) == s
  {
    DivModUnique(s * g.chunkSize, g.chunkSize, s, 0);
  }

  lemma OffsetValue(cs: nat, byte: nat, bit: nat)
    requires (8 * byte + bit) * cs < WORD
    ensures Wrap32(byte * 8 * cs + bit * cs) == (8 * byte + bit) * cs
  {
    assert (8 * byte) * cs == byte * 8 * cs;
    assert (8 * byte + bit) * cs == byte * 8 * cs + bit * cs;
  }

  /** What the two bit tests and the alignment of gallocator_find_start_aligned accept. */
  ghost predicate CanStart(g: Geometry, bm: seq<bv8>, alignment: nat, s: int)
    requires g.chunks <= 8 * |bm| && alignment > 0
  {
    1 <= s < g.chunks && Aligned(g, alignment, s) && !Bit(bm, s) && !Bit(bm, s - 1)
  }

  /** Fits, read off the bitmap. */
  ghost predicate BitsFit(g: Geometry, bm: seq<bv8>, alignment: nat, n: nat, s: int)
    requires g.chunks <= 8 * |bm| && alignment > 0
  {
    1 <= s && s + n < g.chunks && Aligned(g, alignment, s) && forall c :: s - 1 <= c < s + n ==> !Bit(bm, c)
  }

  lemma FitsCanStart(g: Geometry, bm: seq<bv8>, alignment: nat, n: nat)
    requires g.chunks <= 8 * |bm| && alignment > 0 && n >= 1
    ensures forall s :: BitsFit(g, bm, alignment, n, s) ==> CanStart(g, bm, alignment, s)
  {
  }

  lemma StrideStep(g: Geometry, bm: seq<bv8>, alignment: nat, s: nat)
    requires GeometryOk(g, |bm|) && g.chunks <= 8 * |bm| && PowerOfTwo(alignment) && Aligned(g, alignment, s)
    ensures Stride(g, alignment) >= 1 && Aligned(g, alignment, s + Stride(g, alignment))
    ensures forall t :: s < t < s + Stride(g, alignment) && t < g.chunks ==> !CanStart(g, bm, alignment, t)
  {
    NextStart(g, alignment, s);
  }

  /** Skipping a free run that is too short never jumps over a fit. */
  lemma SkipIsSafe(g: Geometry, bm: seq<bv8>, alignment: nat, n: nat, i: nat, run: nat)
    requires g.chunks <= 8 * |bm| && alignment > 0 && 1 <= run < n && i + run <= g.chunks
    requires i + run < g.chunks ==> Bit(bm, i + run)
    ensures forall s :: i <= s <= i + run ==> !BitsFit(g, bm, alignment, n, s)
  {
  }
}

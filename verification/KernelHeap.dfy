/** The kernel heap as its clients see it: a map from addresses to blocks, and what kmalloc,
    kfree and krealloc do to it (kernel/mem/kmalloc.c on top of kernel/mem/gallocator.c). */
module KernelHeap {
  import opened Machine
  import opened Gallocator
  import opened ChunkPool
  import opened HeapLayout

  datatype HeapGeometry = HeapGeometry(base: int, size: int, lo: Geometry, mid: Geometry, hi: Geometry)

  datatype HeapState = HeapState(lo: Blocks, mid: Blocks, hi: Blocks)

  datatype Kind = Low | Middle | High

  function Geo(k: HeapGeometry, kind: Kind): Geometry {
    match kind case Low => k.lo case Middle => k.mid case High => k.hi
  }

  function Part(h: HeapState, kind: Kind): Blocks {
    match kind case Low => h.lo case Middle => h.mid case High => h.hi
  }

  function WithPart(h: HeapState, kind: Kind, blocks: Blocks): HeapState {
    match kind case Low => h.(lo := blocks) case Middle => h.(mid := blocks) case High => h.(hi := blocks)
  }

  /** The pool that serves a request. */
  function KindFor(size: nat): Kind {
    if size >= HI_CHUNK then High else if size >= MID_CHUNK then Middle else Low
  }

  /** heap_is_addr_inside */
  predicate Inside(k: HeapGeometry, address: int) {
    k.base <= address < k.base + k.size
  }

  predicate InPool(g: Geometry, address: int) {
    g.start <= address < PoolEnd(g)
  }

  ghost predicate GeometryFine(k: HeapGeometry) {
    && 0 < k.base && k.base + k.size <= WORD
    && k.lo.chunkSize == LO_CHUNK && k.mid.chunkSize == MID_CHUNK && k.hi.chunkSize == HI_CHUNK
    && k.base < k.hi.start && PoolEnd(k.hi) <= k.mid.start && PoolEnd(k.mid) <= k.lo.start
    && PoolEnd(k.lo) <= k.base + k.size
    && PoolEnd(k.hi) - k.hi.start < 0x8000_0000
    && PoolEnd(k.mid) - k.mid.start < 0x8000_0000
    && PoolEnd(k.lo) - k.lo.start < 0x8000_0000
  }

  ghost predicate HeapOk(k: HeapGeometry, h: HeapState) {
    && GeometryFine(k)
    && Placed(k.lo, h.lo) && Placed(k.mid, h.mid) && Placed(k.hi, h.hi)
  }

  /** The slot of a live block's address in one pool. */
  predicate SlotOf(g: Geometry, blocks: Blocks, address: int, s: nat) {
    s in blocks && address == AddressOf(g, s)
  }

  function BlockIn(g: Geometry, blocks: Blocks, address: int): Option<Block>
    requires g.chunkSize > 0
  {
    if address >= g.start && SlotOf(g, blocks, address, (address - g.start) / g.chunkSize)
    then Some(blocks[(address - g.start) / g.chunkSize]) else None
  }

  /** The live block at an address. */
  function BlockAt(k: HeapGeometry, h: HeapState, address: int): Option<Block>
    requires k.lo.chunkSize > 0 && k.mid.chunkSize > 0 && k.hi.chunkSize > 0
  {
    if InPool(k.lo, address) then BlockIn(k.lo, h.lo, address)
    else if InPool(k.mid, address) then BlockIn(k.mid, h.mid, address)
    else if InPool(k.hi, address) then BlockIn(k.hi, h.hi, address)
    else None
  }

  lemma BlockInIs(g: Geometry, blocks: Blocks, s: nat)
    requires g.chunkSize > 0
    ensures BlockIn(g, blocks, AddressOf(g, s)) == if s in blocks then Some(blocks[s]) else None
  {
    MulMono(0, s, g.chunkSize);
    DivModUnique(s * g.chunkSize, g.chunkSize, s, 0);
  }

  /** A placed block is where its pool is, with its header and payload inside the pool. */
  lemma PlacedInPool(k: HeapGeometry, kind: Kind, s: nat, b: Block)
    requires GeometryFine(k) && WellPlaced(Geo(k, kind), s, b)
    ensures InPool(Geo(k, kind), AddressOf(Geo(k, kind), s))
    ensures Geo(k, kind).start <= AddressOf(Geo(k, kind), s) - HEADER_SIZE
    ensures AddressOf(Geo(k, kind), s) + |b.data| <= PoolEnd(Geo(k, kind))
    ensures |b.data| < 0x8000_0000
  {
    BlockExtent(Geo(k, kind), s, b);
  }

  lemma InOnePool(k: HeapGeometry, h: HeapState, kind: Kind, address: int)
    requires GeometryFine(k) && InPool(Geo(k, kind), address)
    ensures BlockAt(k, h, address) == BlockIn(Geo(k, kind), Part(h, kind), address)
    ensures forall other :: other != kind ==> !InPool(Geo(k, other), address)
    ensures Inside(k, address)
  {
  }

  lemma LiveSlot(k: HeapGeometry, h: HeapState, address: int) returns (kind: Kind, s: nat)
    requires GeometryFine(k) && BlockAt(k, h, address).Some?
    ensures SlotOf(Geo(k, kind), Part(h, kind), address, s) && InPool(Geo(k, kind), address)
    ensures BlockAt(k, h, address) == Some(Part(h, kind)[s])
  {
    kind := if InPool(k.lo, address) then Low else if InPool(k.mid, address) then Middle else High;
    s := (address - Geo(k, kind).start) / Geo(k, kind).chunkSize;
  }

  /** Putting a block into a pool changes what is at its address and nowhere else. */
  lemma PutBlock(k: HeapGeometry, h: HeapState, kind: Kind, s: nat, b: Block, a: int)
    requires GeometryFine(k) && WellPlaced(Geo(k, kind), s, b)
    ensures BlockAt(k, WithPart(h, kind, Part(h, kind)[s := b]), a)
         == if a == AddressOf(Geo(k, kind), s) then Some(b) else BlockAt(k, h, a)
  {
    var g := Geo(k, kind);
    PlacedInPool(k, kind, s, b);
    BlockInIs(g, Part(h, kind)[s := b], s);
    if InPool(g, a) {
      InOnePool(k, h, kind, a);
      InOnePool(k, WithPart(h, kind, Part(h, kind)[s := b]), kind, a);
    }
  }

  lemma DropBlock(k: HeapGeometry, h: HeapState, kind: Kind, s: nat, a: int)
    requires GeometryFine(k)
    ensures BlockAt(k, WithPart(h, kind, Part(h, kind) - {s}), a)
         == if a == AddressOf(Geo(k, kind), s) && InPool(Geo(k, kind), a) then None else BlockAt(k, h, a)
  {
    var g := Geo(k, kind);
    BlockInIs(g, Part(h, kind) - {s}, s);
    if InPool(g, a) {
      InOnePool(k, h, kind, a);
      InOnePool(k, WithPart(h, kind, Part(h, kind) - {s}), kind, a);
    }
  }

  // ---------------------------------------------------------------- the operations

  /** A call either returns an address (0 is NULL) in a new state, or panics. */
  datatype Outcome = Returned(heap: HeapState, address: int) | Panicked

  /** gallocator_alloc_aligned on the active heap. */
  ghost function Alloc(k: HeapGeometry, h: HeapState, size: nat, alignment: nat): (r: Outcome)
    requires GeometryFine(k) && alignment > 0
    ensures r.Returned?
  {
    var kind := KindFor(size);
    var (blocks, address) := Allocated(Geo(k, kind), Part(h, kind), size, alignment);
    Returned(WithPart(h, kind, blocks), address)
  }

  /** kmalloc_aligned */
  ghost function Kmalloc(k: HeapGeometry, h: HeapState, size: nat, alignment: nat): Outcome
    requires GeometryFine(k)
  {
    if size == 0 then Returned(h, 0)
    else if !PowerOfTwo(alignment) then Panicked
    else Alloc(k, h, size, alignment)
  }

  ghost function Release(k: HeapGeometry, h: HeapState, address: int): HeapState
    requires GeometryFine(k) && BlockAt(k, h, address).Some?
  {
    var kind := if InPool(k.lo, address) then Low else if InPool(k.mid, address) then Middle else High;
    WithPart(h, kind, Part(h, kind) - {(address - Geo(k, kind).start) / Geo(k, kind).chunkSize})
  }

  /** kfree */
  ghost function Kfree(k: HeapGeometry, h: HeapState, address: int): Outcome
    requires GeometryFine(k)
  {
    if address == 0 || !Inside(k, address) || BlockAt(k, h, address).None? then Panicked
    else Returned(Release(k, h, address), 0)
  }

  /** A client storing bytes into its own payload. */
  ghost function Write(k: HeapGeometry, h: HeapState, address: int, off: nat, bytes: seq<u8>): HeapState
    requires GeometryFine(k) && BlockAt(k, h, address).Some?
    requires off + |bytes| <= |BlockAt(k, h, address).value.data|
  {
    var kind := if InPool(k.lo, address) then Low else if InPool(k.mid, address) then Middle else High;
    var s := (address - Geo(k, kind).start) / Geo(k, kind).chunkSize;
    WithPart(h, kind, Part(h, kind)[s := Patched(Part(h, kind)[s], off, bytes)])
  }

  /** krealloc. An alignment that reads as negative through ssize_t is taken for an error. */
  ghost function Krealloc(k: HeapGeometry, h: HeapState, address: int, size: nat, defaultAlignment: nat): Outcome
    requires HeapOk(k, h) && PowerOfTwo(defaultAlignment) && size < WORD
  {
    if size == 0 || (address != 0 && !Inside(k, address)) then Returned(h, 0)
    else if address == 0 then Alloc(k, h, size, defaultAlignment)
    else match BlockAt(k, h, address)
      case None => Returned(h, 0)
      case Some(b) =>
        if |b.data| == size then Returned(h, address)
        else if b.alignment >= 0x8000_0000 then Returned(h, 0)
        else
          LiveIsPlaced(k, h, address);
          Moved(k, h, address, b, size)
  }

  /** Allocate, copy min(old, new) bytes, free the old block; or nothing if the allocation fails. */
  ghost function Moved(k: HeapGeometry, h: HeapState, address: int, b: Block, size: nat): (r: Outcome)
    requires HeapOk(k, h) && BlockAt(k, h, address) == Some(b) && 1 <= size < WORD
    requires PowerOfTwo(b.alignment) && b.alignment < WORD
    ensures r.Returned?
  {
    var got := Alloc(k, h, size, b.alignment);
    if got.address == 0 then Returned(h, 0)
    else
      AllocKeeps(k, h, size, b.alignment, address);
      AllocGives(k, h, size, b.alignment);
      var bytes := b.data[..Min(|b.data|, size)];
      var copied := Write(k, got.heap, got.address, 0, bytes);
      WriteKeeps(k, got.heap, got.address, 0, bytes, address);
      Returned(Release(k, copied, address), got.address)
  }

  function Min(a: int, b: int): int {
    if a < b then a else b
  }

  lemma LiveIsPlaced(k: HeapGeometry, h: HeapState, address: int)
    requires HeapOk(k, h) && BlockAt(k, h, address).Some?
    ensures var b := BlockAt(k, h, address).value;
            1 <= |b.data| < 0x8000_0000 && PowerOfTwo(b.alignment) && b.alignment < WORD && address % b.alignment == 0
    ensures 0 < address
  {
    var kind, s := LiveSlot(k, h, address);
    PlacedInPool(k, kind, s, Part(h, kind)[s]);
  }

  /** Either nothing fits and nothing changes, or a fresh well placed block of zeroes appears. */
  lemma AllocStep(k: HeapGeometry, h: HeapState, size: nat, alignment: nat) returns (s: Option<nat>)
    requires HeapOk(k, h) && PowerOfTwo(alignment) && alignment < WORD && 1 <= size < WORD
    ensures var kind := KindFor(size); var g, b := Geo(k, kind), Block(alignment, Repeat(0, size));
            match s
            case None => Alloc(k, h, size, alignment) == Returned(h, 0)
            case Some(c) =>
              && Alloc(k, h, size, alignment) == Returned(WithPart(h, kind, Part(h, kind)[c := b]), AddressOf(g, c))
              && WellPlaced(g, c, b) && FirstFit(g, Part(h, kind), alignment, ChunkCount(g, b), c)
              && AddressOf(g, c) > 0
    ensures s.None? ==> forall c: nat :: !Fits(Geo(k, KindFor(size)), Part(h, KindFor(size)), alignment,
                                               CeilDiv(size, Geo(k, KindFor(size)).chunkSize), c)
  {
    hide PowerOfTwo, Aligned;
    var kind := KindFor(size);
    var g, b := Geo(k, kind), Block(alignment, Repeat(0, size));
    s := Search(g, Part(h, kind), alignment, ChunkCount(g, b), 0);
    if s.Some? {
      assert WellPlaced(g, s.value, b);
      PlacedInPool(k, kind, s.value, b);
    }
  }

  /** Allocation disturbs no live block. */
  lemma AllocKeeps(k: HeapGeometry, h: HeapState, size: nat, alignment: nat, a: int)
    requires HeapOk(k, h) && PowerOfTwo(alignment) && alignment < WORD && 1 <= size < WORD
    requires BlockAt(k, h, a).Some?
    ensures Alloc(k, h, size, alignment).address != a
    ensures BlockAt(k, Alloc(k, h, size, alignment).heap, a) == BlockAt(k, h, a)
  {
    hide PowerOfTwo, Aligned, Search, Fits, FirstFit, Placed, GeometryFine, Alloc;
    var s := AllocStep(k, h, size, alignment);
    LiveIsPlaced(k, h, a);
    if s.Some? {
      var kind := KindFor(size);
      FreshAddress(k, h, size, alignment, s.value);
      PutBlock(k, h, kind, s.value, Block(alignment, Repeat(0, size)), a);
    }
  }

  /** The address an allocation gives was nobody's. */
  lemma FreshAddress(k: HeapGeometry, h: HeapState, size: nat, alignment: nat, s: nat)
    requires HeapOk(k, h) && 1 <= size < WORD && PowerOfTwo(alignment)
    requires var g, b := Geo(k, KindFor(size)), Block(alignment, Repeat(0, size));
             WellPlaced(g, s, b) && FirstFit(g, Part(h, KindFor(size)), alignment, ChunkCount(g, b), s)
    ensures BlockAt(k, h, AddressOf(Geo(k, KindFor(size)), s)) == None && s !in Part(h, KindFor(size))
    ensures var kind := KindFor(size);
            HeapOk(k, WithPart(h, kind, Part(h, kind)[s := Block(alignment, Repeat(0, size))]))
  {
    hide PowerOfTwo, Aligned, ChunkCount, Apart;
    var kind := KindFor(size);
    var b := Block(alignment, Repeat(0, size));
    AddApart(Geo(k, kind), Part(h, kind), s, b);
    PlacedInPool(k, kind, s, b);
    InOnePool(k, h, kind, AddressOf(Geo(k, kind), s));
    BlockInIs(Geo(k, kind), Part(h, kind), s);
  }

  /** A successful allocation gives a fresh, aligned, zeroed block. */
  lemma AllocGives(k: HeapGeometry, h: HeapState, size: nat, alignment: nat)
    requires HeapOk(k, h) && PowerOfTwo(alignment) && alignment < WORD && 1 <= size < WORD
    ensures var r := Alloc(k, h, size, alignment);
            HeapOk(k, r.heap) && r.address >= 0 && (r.address == 0 ==> r.heap == h) &&
            (r.address != 0 ==>
               BlockAt(k, h, r.address) == None &&
               BlockAt(k, r.heap, r.address) == Some(Block(alignment, Repeat(0, size))) &&
               r.address % alignment == 0)
  {
    hide PowerOfTwo, Aligned, Search, Fits, FirstFit, Placed, GeometryFine, Alloc;
    var s := AllocStep(k, h, size, alignment);
    if s.Some? {
      var kind := KindFor(size);
      FreshAddress(k, h, size, alignment, s.value);
      PutBlock(k, h, kind, s.value, Block(alignment, Repeat(0, size)), AddressOf(Geo(k, kind), s.value));
      PlacedAligned(Geo(k, kind), s.value, Block(alignment, Repeat(0, size)));
    }
  }

  /** kmalloc_aligned's sanity check holds, for NULL as well. */
  lemma AllocIsAligned(k: HeapGeometry, h: HeapState, size: nat, alignment: nat)
    requires HeapOk(k, h) && PowerOfTwo(alignment) && alignment < WORD && 1 <= size < WORD
    ensures Alloc(k, h, size, alignment).address % alignment == 0
  {
    hide PowerOfTwo, HeapOk, BlockAt, Alloc;
    AllocGives(k, h, size, alignment);
  }

  lemma PlacedAligned(g: Geometry, s: nat, b: Block)
    requires WellPlaced(g, s, b)
    ensures AddressOf(g, s) % b.alignment == 0
  {
  }

  /** NULL means that the pool for this size has no aligned free run, and only then. */
  lemma NullIffNoFit(k: HeapGeometry, h: HeapState, size: nat, alignment: nat)
    requires HeapOk(k, h) && PowerOfTwo(alignment) && alignment < WORD && 1 <= size < WORD
    ensures var g := Geo(k, KindFor(size));
            Alloc(k, h, size, alignment).address == 0 <==>
            forall c: nat :: !Fits(g, Part(h, KindFor(size)), alignment, CeilDiv(size, g.chunkSize), c)
  {
    var s := AllocStep(k, h, size, alignment);
    var g := Geo(k, KindFor(size));
    if s.Some? {
      assert Fits(g, Part(h, KindFor(size)), alignment, CeilDiv(size, g.chunkSize), s.value);
    }
  }

  /** A request goes to the pool with the largest chunks that are no larger than it, or the smallest. */
  lemma PoolForSize(k: HeapGeometry, size: nat)
    requires GeometryFine(k)
    ensures var cs := Geo(k, KindFor(size)).chunkSize;
            (cs <= size || cs == 32) && cs in {32, 64, 128} &&
            forall kind :: Geo(k, kind).chunkSize <= size ==> Geo(k, kind).chunkSize <= cs
  {
  }

  /** What kmalloc_aligned does, for every size and alignment. */
  lemma KmallocContract(k: HeapGeometry, h: HeapState, size: nat, alignment: nat)
    requires HeapOk(k, h) && alignment < WORD && size < WORD
    ensures Kmalloc(k, h, size, alignment) == Panicked <==> size != 0 && !PowerOfTwo(alignment)
    ensures size == 0 ==> Kmalloc(k, h, size, alignment) == Returned(h, 0)
    ensures size != 0 && PowerOfTwo(alignment) ==>
              var g, r := Geo(k, KindFor(size)), Kmalloc(k, h, size, alignment);
              var n := CeilDiv(size, g.chunkSize);
              && HeapOk(k, r.heap)
              && (r.address == 0 <==> forall c: nat :: !Fits(g, Part(h, KindFor(size)), alignment, n, c))
              && (r.address == 0 ==> r.heap == h)
              && (r.address != 0 ==>
                    && r.address % alignment == 0 && InPool(g, r.address)
                    && BlockAt(k, h, r.address) == None
                    && BlockAt(k, r.heap, r.address) == Some(Block(alignment, Repeat(0, size)))
                    && (forall c: nat :: Fits(g, Part(h, KindFor(size)), alignment, n, c) ==> r.address <= AddressOf(g, c)))
              && forall a :: a != r.address ==> BlockAt(k, r.heap, a) == BlockAt(k, h, a)
  {
    hide PowerOfTwo, Placed, BlockAt, Alloc, Fits;
    if size != 0 && PowerOfTwo(alignment) {
      AllocGives(k, h, size, alignment);
      NullIffNoFit(k, h, size, alignment);
      AllocIsLowest(k, h, size, alignment);
      forall a | a != Alloc(k, h, size, alignment).address
        ensures BlockAt(k, Alloc(k, h, size, alignment).heap, a) == BlockAt(k, h, a)
      {
        AllocElsewhere(k, h, size, alignment, a);
      }
    }
  }

  lemma AllocIsLowest(k: HeapGeometry, h: HeapState, size: nat, alignment: nat)
    requires HeapOk(k, h) && PowerOfTwo(alignment) && alignment < WORD && 1 <= size < WORD
    ensures var g, r := Geo(k, KindFor(size)), Alloc(k, h, size, alignment);
            r.address != 0 ==>
              InPool(g, r.address) &&
              forall c: nat :: Fits(g, Part(h, KindFor(size)), alignment, CeilDiv(size, g.chunkSize), c) ==> r.address <= AddressOf(g, c)
  {
    hide PowerOfTwo, Aligned, Fits, Placed, Alloc;
    var s := AllocStep(k, h, size, alignment);
    var g := Geo(k, KindFor(size));
    if s.Some? {
      PlacedInPool(k, KindFor(size), s.value, Block(alignment, Repeat(0, size)));
      forall c: nat | Fits(g, Part(h, KindFor(size)), alignment, CeilDiv(size, g.chunkSize), c)
        ensures AddressOf(g, s.value) <= AddressOf(g, c)
      {
        assert s.value <= c;
        MulMono(s.value, c, g.chunkSize);
      }
    }
  }

  /** On a heap with no blocks, the first request that its pool has room for gets the second chunk. */
  lemma FreshHeapServes(k: HeapGeometry, size: nat, alignment: nat)
    requires HeapOk(k, HeapState(map[], map[], map[])) && 1 <= size < WORD && PowerOfTwo(alignment)
    requires var g := Geo(k, KindFor(size));
             alignment <= g.chunkSize && g.start % g.chunkSize == 0 && 1 + CeilDiv(size, g.chunkSize) < g.chunks
    ensures var g := Geo(k, KindFor(size));
            Kmalloc(k, HeapState(map[], map[], map[]), size, alignment).address == g.start + g.chunkSize
  {
    hide PowerOfTwo, BlockAt, Aligned;
    var h := HeapState(map[], map[], map[]);
    var g := Geo(k, KindFor(size));
    PoolForSize(k, size);
    KmallocContract(k, h, size, alignment);
    ChunkIsAligned(g, alignment);
    assert Fits(g, map[], alignment, CeilDiv(size, g.chunkSize), 1);
    var s := AllocStep(k, h, size, alignment);
    assert s.Some? ==> s.value <= 1;
  }

  lemma ChunkIsAligned(g: Geometry, alignment: nat)
    requires g.chunkSize in {32, 64, 128} && g.start % g.chunkSize == 0 && PowerOfTwo(alignment) && alignment <= g.chunkSize
    ensures Aligned(g, alignment, 1)
  {
    ChunkSizePower(g.chunkSize);
    PowersDivide(alignment, g.chunkSize);
    MultipleChain(AddressOf(g, 1), g.chunkSize, alignment);
  }

  /** What kfree does: it panics on anything but a live block, and frees that and no other. */
  lemma KfreeContract(k: HeapGeometry, h: HeapState, address: int)
    requires HeapOk(k, h)
    ensures Kfree(k, h, address) == Panicked <==> BlockAt(k, h, address) == None
    ensures BlockAt(k, h, address).Some? ==>
              HeapOk(k, Kfree(k, h, address).heap) &&
              forall a :: BlockAt(k, Kfree(k, h, address).heap, a) == if a == address then None else BlockAt(k, h, a)
  {
    hide BlockAt, Release, Placed;
    if BlockAt(k, h, address).Some? {
      LiveInside(k, h, address);
      LiveIsPlaced(k, h, address);
      ReleaseOk(k, h, address);
      forall a ensures BlockAt(k, Release(k, h, address), a) == if a == address then None else BlockAt(k, h, a) {
        ReleaseDrops(k, h, address, a);
      }
    }
  }

  /** krealloc of NULL is kmalloc with the default alignment, and of anything else that is no live block it
      does nothing. */
  lemma ReallocOfNoBlock(k: HeapGeometry, h: HeapState, address: int, size: nat, dflt: nat)
    requires HeapOk(k, h) && PowerOfTwo(dflt) && size < WORD && BlockAt(k, h, address) == None
    ensures Krealloc(k, h, address, size, dflt) == if address == 0 then Kmalloc(k, h, size, dflt) else Returned(h, 0)
  {
  }

  lemma WriteKeeps(k: HeapGeometry, h: HeapState, address: int, off: nat, bytes: seq<u8>, a: int)
    requires GeometryFine(k) && BlockAt(k, h, address).Some?
    requires off + |bytes| <= |BlockAt(k, h, address).value.data|
    ensures BlockAt(k, Write(k, h, address, off, bytes), a)
         == if a == address then Some(Patched(BlockAt(k, h, address).value, off, bytes)) else BlockAt(k, h, a)
  {
    hide BlockIn;
    var kind, s := LiveSlotOf(k, h, address);
    var b := Patched(Part(h, kind)[s], off, bytes);
    BlockInIs(Geo(k, kind), Part(h, kind)[s := b], s);
    if InPool(Geo(k, kind), a) {
      BlockInPatched(Geo(k, kind), Part(h, kind), s, b, a);
    }
  }

  /** The pool and slot that Release and Write compute are those of the live block. */
  lemma LiveSlotOf(k: HeapGeometry, h: HeapState, address: int) returns (kind: Kind, s: nat)
    requires GeometryFine(k) && BlockAt(k, h, address).Some?
    ensures kind == if InPool(k.lo, address) then Low else if InPool(k.mid, address) then Middle else High
    ensures s == (address - Geo(k, kind).start) / Geo(k, kind).chunkSize && s in Part(h, kind)
    ensures InPool(Geo(k, kind), address) && address == AddressOf(Geo(k, kind), s)
    ensures BlockAt(k, h, address) == Some(Part(h, kind)[s])
  {
    kind, s := LiveSlot(k, h, address);
    BlockInIs(Geo(k, kind), Part(h, kind), s);
    MulMono(0, s, Geo(k, kind).chunkSize);
    DivModUnique(s * Geo(k, kind).chunkSize, Geo(k, kind).chunkSize, s, 0);
  }

  lemma WriteAt(k: HeapGeometry, h: HeapState, address: int, off: nat, bytes: seq<u8>, kind: Kind, s: nat)
    requires GeometryFine(k) && s in Part(h, kind) && address == AddressOf(Geo(k, kind), s) && InPool(Geo(k, kind), address)
    requires off + |bytes| <= |Part(h, kind)[s].data|
    ensures BlockAt(k, h, address) == Some(Part(h, kind)[s])
    ensures Write(k, h, address, off, bytes) == WithPart(h, kind, Part(h, kind)[s := Patched(Part(h, kind)[s], off, bytes)])
  {
    InOnePool(k, h, kind, address);
    BlockInIs(Geo(k, kind), Part(h, kind), s);
    MulMono(0, s, Geo(k, kind).chunkSize);
    DivModUnique(s * Geo(k, kind).chunkSize, Geo(k, kind).chunkSize, s, 0);
  }

  lemma BlockInPatched(g: Geometry, blocks: Blocks, s: nat, b: Block, a: int)
    requires g.chunkSize > 0 && s in blocks
    ensures BlockIn(g, blocks[s := b], a) == if a == AddressOf(g, s) then Some(b) else BlockIn(g, blocks, a)
  {
    BlockInIs(g, blocks[s := b], s);
  }

  lemma ReleaseDrops(k: HeapGeometry, h: HeapState, address: int, a: int)
    requires GeometryFine(k) && BlockAt(k, h, address).Some?
    ensures BlockAt(k, Release(k, h, address), a) == if a == address then None else BlockAt(k, h, a)
  {
    var kind, s := LiveSlotOf(k, h, address);
    DropBlock(k, h, kind, s, a);
  }

  lemma ReleaseOk(k: HeapGeometry, h: HeapState, address: int)
    requires HeapOk(k, h) && BlockAt(k, h, address).Some?
    ensures HeapOk(k, Release(k, h, address))
  {
  }

  lemma WriteOk(k: HeapGeometry, h: HeapState, address: int, off: nat, bytes: seq<u8>)
    requires HeapOk(k, h) && BlockAt(k, h, address).Some?
    requires off + |bytes| <= |BlockAt(k, h, address).value.data|
    ensures HeapOk(k, Write(k, h, address, off, bytes))
  {
    var kind, s := LiveSlotOf(k, h, address);
    PatchPlaced(Geo(k, kind), Part(h, kind), s, Patched(Part(h, kind)[s], off, bytes));
  }

  lemma PatchPlaced(g: Geometry, blocks: Blocks, s: nat, b: Block)
    requires Placed(g, blocks) && s in blocks && |b.data| == |blocks[s].data| && b.alignment == blocks[s].alignment
    ensures Placed(g, blocks[s := b])
  {
    hide Aligned;
    assert ChunkCount(g, b) == ChunkCount(g, blocks[s]);
  }

  // ---------------------------------------------------------------- what clients rely on

  lemma PoolOrderKept(g: Geometry, blocks: Blocks, s: nat, s': nat)
    requires Placed(g, blocks) && s in blocks && s' in blocks && AddressOf(g, s) < AddressOf(g, s')
    requires g.chunkSize >= LO_CHUNK
    ensures AddressOf(g, s) + |blocks[s].data| <= AddressOf(g, s') - HEADER_SIZE
  {
    hide PowerOfTwo, Aligned;
    AddressOrder(g, s, s');
    DisjointExtents(g, s, blocks[s], s', blocks[s']);
  }

  /** Two live blocks never share a byte, counting their headers, and all of them lie in the heap. */
  lemma NoOverlap(k: HeapGeometry, h: HeapState, a: int, a': int)
    requires HeapOk(k, h) && BlockAt(k, h, a).Some? && BlockAt(k, h, a').Some? && a < a'
    ensures a + |BlockAt(k, h, a).value.data| <= a' - HEADER_SIZE
    ensures Inside(k, a - HEADER_SIZE) && a' + |BlockAt(k, h, a').value.data| <= k.base + k.size
  {
    hide PowerOfTwo, Aligned, ChunkCount, CeilDiv, AddressOf;
    var kind, s := LiveSlotOf(k, h, a);
    var kind', s' := LiveSlotOf(k, h, a');
    PlacedInPool(k, kind, s, Part(h, kind)[s]);
    PlacedInPool(k, kind', s', Part(h, kind')[s']);
    if kind == kind' {
      PoolOrderKept(Geo(k, kind), Part(h, kind), s, s');
    }
  }

  /** What krealloc promises of an existing block. */
  lemma ReallocContract(k: HeapGeometry, h: HeapState, address: int, size: nat, dflt: nat, a: int)
    requires HeapOk(k, h) && PowerOfTwo(dflt) && size < WORD && address != 0 && BlockAt(k, h, address).Some?
    ensures Krealloc(k, h, address, size, dflt).Returned?
    ensures var b, r := BlockAt(k, h, address).value, Krealloc(k, h, address, size, dflt);
            HeapOk(k, r.heap) && (r.address == address <==> |b.data| == size) &&
            if r.address == 0 then r.heap == h
            else
              var kept := Min(|b.data|, size);
              BlockAt(k, r.heap, a) ==
                if a == r.address then Some(Block(b.alignment, b.data[..kept] + Repeat(0, size - kept)))
                else if a == address then None
                else BlockAt(k, h, a)
  {
    hide PowerOfTwo, Placed, Alloc, Moved;
    var b := BlockAt(k, h, address).value;
    LiveIsPlaced(k, h, address);
    LiveInside(k, h, address);
    if size != 0 && |b.data| != size && b.alignment < 0x8000_0000 {
      MovedContract(k, h, address, b, size, a);
    } else if |b.data| == size {
      assert b.data[..size] + Repeat(0, 0) == b.data;
    }
  }

  /** Exactly when krealloc of an existing block returns NULL. */
  lemma ReallocFailsIff(k: HeapGeometry, h: HeapState, address: int, size: nat, dflt: nat)
    requires HeapOk(k, h) && PowerOfTwo(dflt) && size < WORD && address != 0 && BlockAt(k, h, address).Some?
    ensures var b, g := BlockAt(k, h, address).value, Geo(k, KindFor(size));
            b.alignment > 0 &&
            (Krealloc(k, h, address, size, dflt).address == 0 <==>
             size == 0 ||
             (|b.data| != size &&
              (b.alignment >= 0x8000_0000 ||
               forall c: nat :: !Fits(g, Part(h, KindFor(size)), b.alignment, CeilDiv(size, g.chunkSize), c))))
  {
    hide PowerOfTwo, Placed, Alloc, Fits;
    var b := BlockAt(k, h, address).value;
    LiveIsPlaced(k, h, address);
    LiveInside(k, h, address);
    if size != 0 && |b.data| != size && b.alignment < 0x8000_0000 {
      NullIffNoFit(k, h, size, b.alignment);
    }
  }

  /** Only one address is as aligned as that, and the block sits on it: nothing fits anywhere else. */
  lemma HugeAlignmentHasNoFit(k: HeapGeometry, h: HeapState, address: int, kind: Kind, n: nat, c: nat)
    requires HeapOk(k, h) && BlockAt(k, h, address).Some? && BlockAt(k, h, address).value.alignment >= 0x8000_0000 && n >= 1
    ensures !Fits(Geo(k, kind), Part(h, kind), BlockAt(k, h, address).value.alignment, n, c)
  {
    hide PowerOfTwo, Aligned, Used, Apart, GeometryFine, BlockAt, AddressOf, PoolEnd, ChunkCount, InPool;
    var b := BlockAt(k, h, address).value;
    LiveIsPlaced(k, h, address);
    var kind', s := LiveSlot(k, h, address);
    var g, g' := Geo(k, kind), Geo(k, kind');
    if Fits(g, Part(h, kind), b.alignment, n, c) {
      FitAddress(k, h, kind, b.alignment, n, c);
      LiveAddress(k, h, kind', s);
      OnlyMultiple(address, b.alignment);
      OnlyMultiple(AddressOf(g, c), b.alignment);
      InOnePool(k, h, kind', address);
      assert kind == kind';
      IndexOfPlaced(g, s);
      IndexOfPlaced(g, c);
      OwnsStart(g, Part(h, kind), s);
    }
  }

  lemma OwnsStart(g: Geometry, blocks: Blocks, s: nat)
    requires Placed(g, blocks) && s in blocks
    ensures Used(g, blocks, s)
  {
    assert Owns(g, blocks, s, s);
  }

  lemma LiveAddress(k: HeapGeometry, h: HeapState, kind: Kind, s: nat)
    requires HeapOk(k, h) && s in Part(h, kind)
    ensures 0 < AddressOf(Geo(k, kind), s) < WORD
  {
    PlacedInPool(k, kind, s, Part(h, kind)[s]);
  }

  lemma FitAddress(k: HeapGeometry, h: HeapState, kind: Kind, alignment: nat, n: nat, c: nat)
    requires HeapOk(k, h) && alignment > 0 && Fits(Geo(k, kind), Part(h, kind), alignment, n, c)
    ensures 0 < AddressOf(Geo(k, kind), c) < WORD && InPool(Geo(k, kind), AddressOf(Geo(k, kind), c))
    ensures AddressOf(Geo(k, kind), c) % alignment == 0
    ensures n > 0 ==> !Used(Geo(k, kind), Part(h, kind), c)
  {
    ChunkInPool(Geo(k, kind), c);
  }

  lemma ChunkInPool(g: Geometry, c: nat)
    requires g.chunkSize > 0 && c < g.chunks
    ensures InPool(g, AddressOf(g, c))
  {
  }

  lemma OnlyMultiple(address: int, alignment: nat)
    requires 0 < address < WORD && alignment >= 0x8000_0000 && address % alignment == 0
    ensures address == alignment
  {
    var q := address / alignment;
    assert address == q * alignment;
    if q >= 2 { MulMono(2, q, alignment); }
    if q <= 0 { MulMono(q, 0, alignment); }
  }

  lemma HugePower()
    ensures PowerOfTwo(0x8000_0000) && PowerOfTwo(4)
  {
    assert PowerOfTwo(1) && PowerOfTwo(2) && PowerOfTwo(4) && PowerOfTwo(8);
    Times16(8);
    Times16(0x80);
    Times16(0x800);
    Times16(0x8000);
    Times16(0x8_0000);
    Times16(0x80_0000);
    Times16(0x800_0000);
  }

  /** Such a block exists: one byte at 0x80000000. Growing it fails. */
  lemma HugeBlockCannotGrow()
    ensures var k := HeapGeometry(0x7FFF_0000, 0x2_0000,
                       Geometry(32, 0x7FFF_FFE0, 8), Geometry(64, 0x7FFF_E000, 8), Geometry(128, 0x7FFF_1000, 8));
            var h := HeapState(map[1 := Block(0x8000_0000, [0])], map[], map[]);
            HeapOk(k, h) && PowerOfTwo(4) && BlockAt(k, h, 0x8000_0000) == Some(Block(0x8000_0000, [0])) &&
            Krealloc(k, h, 0x8000_0000, 2, 4) == Returned(h, 0)
  {
    var k := HeapGeometry(0x7FFF_0000, 0x2_0000,
               Geometry(32, 0x7FFF_FFE0, 8), Geometry(64, 0x7FFF_E000, 8), Geometry(128, 0x7FFF_1000, 8));
    var b := Block(0x8000_0000, [0]);
    var h := HeapState(map[1 := b], map[], map[]);
    HugePower();
    assert WellPlaced(k.lo, 1, b);
    assert HeapOk(k, h);
    BlockInIs(k.lo, h.lo, 1);
    InOnePool(k, h, Low, 0x8000_0000);
    ReallocContract(k, h, 0x8000_0000, 2, 4, 0);
    ReallocFailsIff(k, h, 0x8000_0000, 2, 4);
  }

  /** So the sign of the alignment makes no difference: krealloc fails exactly when nothing fits. */
  lemma ReallocFailsIffNoFit(k: HeapGeometry, h: HeapState, address: int, size: nat, dflt: nat)
    requires HeapOk(k, h) && PowerOfTwo(dflt) && size < WORD && address != 0 && BlockAt(k, h, address).Some?
    ensures var b, g := BlockAt(k, h, address).value, Geo(k, KindFor(size));
            b.alignment > 0 &&
            (Krealloc(k, h, address, size, dflt).address == 0 <==>
             size == 0 ||
             (|b.data| != size &&
              forall c: nat :: !Fits(g, Part(h, KindFor(size)), b.alignment, CeilDiv(size, g.chunkSize), c)))
  {
    hide PowerOfTwo, Placed, Alloc, Fits, Krealloc, BlockAt;
    ReallocFailsIff(k, h, address, size, dflt);
    var b, g := BlockAt(k, h, address).value, Geo(k, KindFor(size));
    if b.alignment >= 0x8000_0000 && size > 0 {
      forall c: nat ensures !Fits(g, Part(h, KindFor(size)), b.alignment, CeilDiv(size, g.chunkSize), c) {
        HugeAlignmentHasNoFit(k, h, address, KindFor(size), CeilDiv(size, g.chunkSize), c);
      }
    }
  }

  lemma LiveInside(k: HeapGeometry, h: HeapState, address: int)
    requires GeometryFine(k) && BlockAt(k, h, address).Some?
    ensures Inside(k, address)
  {
  }

  lemma MovedContract(k: HeapGeometry, h: HeapState, address: int, b: Block, size: nat, a: int)
    requires HeapOk(k, h) && BlockAt(k, h, address) == Some(b) && 1 <= size < WORD
    requires PowerOfTwo(b.alignment) && b.alignment < WORD
    ensures var r := Moved(k, h, address, b, size);
            HeapOk(k, r.heap) &&
            if r.address == 0 then r.heap == h
            else
              var kept := Min(|b.data|, size);
              r.address != address &&
              BlockAt(k, r.heap, a) ==
                if a == r.address then Some(Block(b.alignment, b.data[..kept] + Repeat(0, size - kept)))
                else if a == address then None
                else BlockAt(k, h, a)
  {
    hide PowerOfTwo, Placed, GeometryFine, Alloc, BlockAt, Write, Release;
    var got := Alloc(k, h, size, b.alignment);
    AllocKeeps(k, h, size, b.alignment, address);
    AllocGives(k, h, size, b.alignment);
    if got.address != 0 {
      var bytes := b.data[..Min(|b.data|, size)];
      var copied := Write(k, got.heap, got.address, 0, bytes);
      WriteKeeps(k, got.heap, got.address, 0, bytes, address);
      WriteKeeps(k, got.heap, got.address, 0, bytes, a);
      WriteOk(k, got.heap, got.address, 0, bytes);
      ReleaseOk(k, copied, address);
      ReleaseDrops(k, copied, address, a);
      if a != got.address { AllocElsewhere(k, h, size, b.alignment, a); }
      assert Repeat(0, size)[..0] + bytes + Repeat(0, size)[|bytes|..] == bytes + Repeat(0, size - |bytes|);
    }
  }

  lemma AllocElsewhere(k: HeapGeometry, h: HeapState, size: nat, alignment: nat, a: int)
    requires HeapOk(k, h) && PowerOfTwo(alignment) && alignment < WORD && 1 <= size < WORD
    requires a != Alloc(k, h, size, alignment).address
    ensures BlockAt(k, Alloc(k, h, size, alignment).heap, a) == BlockAt(k, h, a)
  {
    hide PowerOfTwo, Aligned, Search, Fits, FirstFit, Placed, GeometryFine, Alloc;
    var s := AllocStep(k, h, size, alignment);
    if s.Some? {
      PutBlock(k, h, KindFor(size), s.value, Block(alignment, Repeat(0, size)), a);
    }
  }

  /** Freeing what was just allocated restores the heap exactly. */
  lemma AllocThenFree(k: HeapGeometry, h: HeapState, size: nat, alignment: nat)
    requires HeapOk(k, h) && PowerOfTwo(alignment) && alignment < WORD && 1 <= size < WORD
    requires Alloc(k, h, size, alignment).address != 0
    ensures var r := Alloc(k, h, size, alignment); Kfree(k, r.heap, r.address) == Returned(h, 0)
  {
    hide Placed, Search, Fits, Alloc, WellPlaced, BlockAt, Release;
    var s := AllocStep(k, h, size, alignment);
    FreshAddress(k, h, size, alignment, s.value);
    AllocGives(k, h, size, alignment);
    var r := Alloc(k, h, size, alignment);
    LiveInside(k, r.heap, r.address);
    PutThenRelease(k, h, KindFor(size), s.value, Block(alignment, Repeat(0, size)));
  }

  lemma PutThenRelease(k: HeapGeometry, h: HeapState, kind: Kind, s: nat, b: Block)
    requires GeometryFine(k) && WellPlaced(Geo(k, kind), s, b) && s !in Part(h, kind)
    ensures var h' := WithPart(h, kind, Part(h, kind)[s := b]);
            BlockAt(k, h', AddressOf(Geo(k, kind), s)).Some? && Release(k, h', AddressOf(Geo(k, kind), s)) == h
  {
    hide WellPlaced;
    var g, a := Geo(k, kind), AddressOf(Geo(k, kind), s);
    var h' := WithPart(h, kind, Part(h, kind)[s := b]);
    PutBlock(k, h, kind, s, b, a);
    var kind', s' := LiveSlotOf(k, h', a);
    PlacedInPool(k, kind, s, b);
    InOnePool(k, h', kind, a);
    MulMono(0, s, g.chunkSize);
    DivModUnique(s * g.chunkSize, g.chunkSize, s, 0);
    assert Part(h, kind)[s := b] - {s} == Part(h, kind);
  }

  // ---------------------------------------------------------------- whole runs

  datatype Request =
    | Malloc(size: u32, alignment: u32)
    | Free(address: int)
    | Realloc(address: int, size: u32)
    | Fill(address: int, off: nat, bytes: seq<u8>)

  /** Clients store only inside their own payloads. */
  predicate Allowed(k: HeapGeometry, h: HeapState, q: Request)
    requires k.lo.chunkSize > 0 && k.mid.chunkSize > 0 && k.hi.chunkSize > 0
  {
    q.Fill? ==> BlockAt(k, h, q.address).Some? && q.off + |q.bytes| <= |BlockAt(k, h, q.address).value.data|
  }

  ghost function Serve(k: HeapGeometry, h: HeapState, q: Request, dflt: nat): Outcome
    requires HeapOk(k, h) && PowerOfTwo(dflt) && Allowed(k, h, q)
  {
    match q
    case Malloc(size, alignment) => Kmalloc(k, h, size, alignment)
    case Free(address) => Kfree(k, h, address)
    case Realloc(address, size) => Krealloc(k, h, address, size, dflt)
    case Fill(address, off, bytes) => Returned(Write(k, h, address, off, bytes), 0)
  }

  /** h' is reached from h by the requests, none of which panicked. */
  ghost predicate Run(k: HeapGeometry, h: HeapState, qs: seq<Request>, dflt: nat, h': HeapState)
    requires HeapOk(k, h) && PowerOfTwo(dflt) && dflt < WORD
    decreases |qs|
  {
    if qs == [] then h' == h
    else
      Allowed(k, h, qs[0]) &&
      var r := Serve(k, h, qs[0], dflt);
      ServeOk(k, h, qs[0], dflt);
      r.Returned? && Run(k, r.heap, qs[1..], dflt, h')
  }

  predicate Names(q: Request, a: int) {
    !q.Malloc? && q.address == a
  }

  /** One request keeps the heap well formed. */
  lemma ServeOk(k: HeapGeometry, h: HeapState, q: Request, dflt: nat)
    requires HeapOk(k, h) && PowerOfTwo(dflt) && dflt < WORD && Allowed(k, h, q)
    ensures var r := Serve(k, h, q, dflt); r.Returned? ==> HeapOk(k, r.heap)
  {
    hide PowerOfTwo, Placed, Alloc, Moved, Release;
    match q
    case Malloc(size, alignment) =>
      if size != 0 && PowerOfTwo(alignment) { AllocGives(k, h, size, alignment); }
    case Free(address) =>
      if BlockAt(k, h, address).Some? { ReleaseOk(k, h, address); }
    case Realloc(address, size) =>
      if address != 0 && BlockAt(k, h, address).Some? {
        ReallocContract(k, h, address, size, dflt, address);
      } else if size != 0 && address == 0 {
        AllocGives(k, h, size, dflt);
      }
    case Fill(address, off, bytes) =>
      WriteOk(k, h, address, off, bytes);
  }

  /** One request leaves alone every live block it does not name. */
  lemma ServeKeeps(k: HeapGeometry, h: HeapState, q: Request, dflt: nat, a: int)
    requires HeapOk(k, h) && PowerOfTwo(dflt) && dflt < WORD && Allowed(k, h, q)
    requires BlockAt(k, h, a).Some? && !Names(q, a) && Serve(k, h, q, dflt).Returned?
    ensures BlockAt(k, Serve(k, h, q, dflt).heap, a) == BlockAt(k, h, a)
  {
    hide PowerOfTwo, Placed, Alloc, Moved, Release, Write;
    match q
    case Malloc(size, alignment) =>
      if size != 0 && PowerOfTwo(alignment) { AllocKeeps(k, h, size, alignment, a); }
    case Free(address) =>
      ReleaseDrops(k, h, address, a);
    case Realloc(address, size) =>
      if address != 0 && BlockAt(k, h, address).Some? {
        ReallocElsewhere(k, h, address, size, dflt, a);
      } else if size != 0 && address == 0 {
        AllocKeeps(k, h, size, dflt, a);
      }
    case Fill(address, off, bytes) =>
      WriteKeeps(k, h, address, off, bytes, a);
  }

  lemma ReallocElsewhere(k: HeapGeometry, h: HeapState, address: int, size: nat, dflt: nat, a: int)
    requires HeapOk(k, h) && PowerOfTwo(dflt) && size < WORD && address != 0 && BlockAt(k, h, address).Some?
    requires BlockAt(k, h, a).Some? && a != address
    ensures BlockAt(k, Krealloc(k, h, address, size, dflt).heap, a) == BlockAt(k, h, a)
  {
    hide PowerOfTwo, Placed, Alloc, BlockAt, Release;
    LiveIsPlaced(k, h, address);
    var b := BlockAt(k, h, address).value;
    ReallocContract(k, h, address, size, dflt, a);
    if size != 0 { AllocKeeps(k, h, size, b.alignment, a); }
  }

  /** Over any run, a live block that no request names keeps its address, alignment and every byte,
      and the heap stays well formed. */
  lemma {:induction false} RunKeeps(k: HeapGeometry, h: HeapState, qs: seq<Request>, dflt: nat, h': HeapState, a: int)
    requires HeapOk(k, h) && PowerOfTwo(dflt) && dflt < WORD && Run(k, h, qs, dflt, h')
    requires BlockAt(k, h, a).Some? && forall i :: 0 <= i < |qs| ==> !Names(qs[i], a)
    ensures HeapOk(k, h') && BlockAt(k, h', a) == BlockAt(k, h, a)
    decreases |qs|
  {
    hide HeapOk, BlockAt, Serve, PowerOfTwo, Allowed;
    if qs != [] {
      ServeOk(k, h, qs[0], dflt);
      ServeKeeps(k, h, qs[0], dflt, a);
      RunKeeps(k, Serve(k, h, qs[0], dflt).heap, qs[1..], dflt, h', a);
    }
  }
}

/** kernel/mem/kmalloc.c over gallocator.c: the calls themselves, on raw memory and bitmaps,
    proved against what KernelHeap says they do. */
module Kmalloc {
  import opened Machine
  import opened Gallocator
  import opened ChunkPool
  import opened HeapLayout
  import opened KernelHeap

  datatype CallResult = Address(address: u32) | Panic

  lemma LayoutIsFine(vaddr: u32, size: nat, m: HeapMeta)
    requires 0 < vaddr && vaddr + size <= WORD && LaidOut(vaddr, size, m)
    ensures GeometryFine(HeapGeometry(vaddr, size, m.lo.geometry, m.mid.geometry, m.hi.geometry))
    ensures GeometryOk(m.lo.geometry, m.lo.bitmapSize) && GeometryOk(m.mid.geometry, m.mid.bitmapSize)
    ensures 0 < m.lo.bitmapSize && 0 < m.mid.bitmapSize && 0 < m.hi.bitmapSize && GeometryOk(m.hi.geometry, m.hi.bitmapSize)
  {
  }

  class KernelAllocator {
    const k: HeapGeometry
    const lo: Pool
    const mid: Pool
    const hi: Pool
    const defaultAlignment: nat

    function PoolOf(kind: Kind): Pool {
      match kind case Low => lo case Middle => mid case High => hi
    }

    ghost function Repr(): set<object> {
      {lo, lo.bitmap, lo.memory, mid, mid.bitmap, mid.memory, hi, hi.bitmap, hi.memory}
    }

    /** The three pools share no storage. */
    ghost predicate Separate() {
      && lo != mid && lo != hi && mid != hi
      && lo.bitmap != mid.bitmap && lo.bitmap != hi.bitmap && mid.bitmap != hi.bitmap
      && lo.memory != mid.memory && lo.memory != hi.memory && mid.memory != hi.memory
      && {lo.bitmap as object, mid.bitmap, hi.bitmap} !! {lo.memory as object, mid.memory, hi.memory}
    }

    ghost predicate Valid()
      reads Repr()
    {
      && GeometryFine(k) && Separate()
      && lo.g == k.lo && mid.g == k.mid && hi.g == k.hi
      && lo.Valid() && mid.Valid() && hi.Valid()
      && PowerOfTwo(defaultAlignment) && defaultAlignment < WORD
    }

    ghost function State(): HeapState
      reads lo, mid, hi
    {
      HeapState(lo.blocks, mid.blocks, hi.blocks)
    }

    lemma StateOk()
      requires Valid()
      ensures HeapOk(k, State())
    {
    }

    /** Registering a heap of zeroed memory; kmalloc_check_driver has vetted the default alignment. */
    constructor (vaddr: u32, pagespan: u32, defaultAlignment: nat)
      requires 0 < vaddr && 1 <= pagespan && vaddr + pagespan * PAGE_SIZE <= WORD
      requires PowerOfTwo(defaultAlignment) && defaultAlignment < WORD
      ensures Valid() && State() == HeapState(map[], map[], map[])
      ensures k.base == vaddr && k.size == pagespan * PAGE_SIZE
      ensures var m := InitHeap(vaddr, pagespan).value;
              k.lo == m.lo.geometry && k.mid == m.mid.geometry && k.hi == m.hi.geometry
    {
      hide InitHeap, LaidOut, GeometryFine, GeometryOk, PowerOfTwo, Represents;
      var m := InitHeap(vaddr, pagespan).value;
      HeapIsLaidOut(vaddr, pagespan);
      LayoutIsFine(vaddr, pagespan * PAGE_SIZE, m);
      k := HeapGeometry(vaddr, pagespan * PAGE_SIZE, m.lo.geometry, m.mid.geometry, m.hi.geometry);
      lo := new Pool(m.lo.geometry, m.lo.bitmapSize);
      mid := new Pool(m.mid.geometry, m.mid.bitmapSize);
      hi := new Pool(m.hi.geometry, m.hi.bitmapSize);
      this.defaultAlignment := defaultAlignment;
    }

    /** kmalloc_aligned_with_heap */
    method AllocAligned(size: u32, alignment: nat) returns (address: u32)
      requires Valid() && size >= 1 && PowerOfTwo(alignment) && alignment < WORD
      modifies Repr()
      ensures Valid() && Returned(State(), address) == Alloc(k, old(State()), size, alignment)
    {
      if size >= HI_CHUNK {
        address := hi.Allocate(size, alignment);
      } else if size >= MID_CHUNK {
        address := mid.Allocate(size, alignment);
      } else {
        address := lo.Allocate(size, alignment);
      }
    }

    /** The 16 bytes before an address, when they lie in one pool. */
    function Peek(address: int): Option<Header>
      requires Valid()
      reads Repr()
    {
      if lo.Holds(address) && lo.Holds(address - HEADER_SIZE) then Some(lo.ReadHeader(address))
      else if mid.Holds(address) && mid.Holds(address - HEADER_SIZE) then Some(mid.ReadHeader(address))
      else if hi.Holds(address) && hi.Holds(address - HEADER_SIZE) then Some(hi.ReadHeader(address))
      else None
    }

    /** What the source reads before an address. Outside the pools, where the heap keeps its metadata and
        its bitmaps, it is whatever `beyond` says. */
    function HeaderAt(address: int, beyond: Header): Header
      requires Valid()
      reads Repr()
    {
      match Peek(address) case Some(header) => header case None => beyond
    }

    /** An address inside the heap that is no live block's, and whose 16 bytes before it do not
        happen to spell an allocation header. */
    ghost predicate Stray(address: int, beyond: Header)
      requires Valid()
      reads Repr()
    {
      && Inside(k, address) && BlockAt(k, State(), address).None?
      && HeaderAt(address, beyond).signature != ALLOCATION_SIGNATURE
    }

    /** Addresses a client may hand back: anything outside the heap, a live block, or a stray address. */
    ghost predicate Presentable(address: int, beyond: Header)
      requires Valid()
      reads Repr()
    {
      !Inside(k, address) || BlockAt(k, State(), address).Some? || Stray(address, beyond)
    }

    /** The header before a live block says what the block is. */
    lemma PeekLive(address: int) returns (kind: Kind, s: nat)
      requires Valid() && BlockAt(k, State(), address).Some?
      ensures s in PoolOf(kind).blocks && address == AddressOf(Geo(k, kind), s)
      ensures BlockAt(k, State(), address) == Some(PoolOf(kind).blocks[s])
      ensures |PoolOf(kind).blocks[s].data| < 0x8000_0000 && PoolOf(kind).blocks[s].alignment < WORD
      ensures Peek(address) == Some(HeaderOf(Geo(k, kind), PoolOf(kind).blocks[s]))
      ensures Geo(k, kind).chunkSize == match kind case Low => LO_CHUNK case Middle => MID_CHUNK case High => HI_CHUNK
      ensures InPool(Geo(k, kind), address)
      ensures (lo.Holds(address) <==> kind == Low) && (mid.Holds(address) <==> kind == Middle)
      ensures Release(k, State(), address) == WithPart(State(), kind, PoolOf(kind).blocks - {s})
    {
      hide DecodeHeader, GeometryOk, BitsMatch, AllStored, RestZero, Placed;
      kind, s := LiveSlotOf(k, State(), address);
      PoolOf(kind).LiveHeader(s);
    }

    /** kmalloc_aligned */
    method KmallocAligned(size: u32, alignment: u32) returns (r: CallResult)
      requires Valid()
      modifies Repr()
      ensures Valid() && Kmalloc(k, old(State()), size, alignment) == Seen(r)
    {
      if size == 0 {
        return Address(0);
      }
      if !PowerOfTwo(alignment) {
        return Panic;
      }
      StateOk();
      AllocIsAligned(k, State(), size, alignment);
      hide Alloc, HeapOk, GeometryFine, Represents, PowerOfTwo;
      var address := AllocAligned(size, alignment);
      assert address % alignment == 0;
      return Address(address);
    }

    /** A call's outcome, read off the state it left behind. */
    ghost function Seen(r: CallResult): Outcome
      reads lo, mid, hi
    {
      match r case Address(address) => Returned(State(), address) case Panic => Panicked
    }

    /** gallocator_free: the pool is chosen by the chunk size in the header. */
    method FreeBlock(address: u32, beyond: Header) returns (r: CallResult)
      requires Valid() && Inside(k, address) && Presentable(address, beyond)
      modifies Repr()
      ensures Valid()
      ensures if old(BlockAt(k, State(), address)).Some?
              then r == Address(0) && State() == old(Release(k, State(), address)) && Stray(address, beyond)
              else r == Panic && State() == old(State())
    {
      hide Represents, Release, BlockAt, DecodeHeader;
      var header := HeaderAt(address, beyond);
      ghost var live := BlockAt(k, State(), address).Some?;
      ghost var kind, s;
      if live {
        kind, s := PeekLive(address);
      }
      if header.signature != ALLOCATION_SIGNATURE {
        return Panic;
      }
      assert live;
      if header.chunkSize == LO_CHUNK {
        lo.Free(address, s);
      } else if header.chunkSize == MID_CHUNK {
        mid.Free(address, s);
      } else if header.chunkSize == HI_CHUNK {
        hi.Free(address, s);
      } else {
        assert false; // the second ASSERT_NOT_HIT
      }
      StateOk();
      ReleaseDrops(k, old(State()), address, address);
      return Address(0);
    }

    /** kfree. A block that was freed is stray, so that freeing it again panics. */
    method KfreeCall(address: u32, beyond: Header) returns (r: CallResult)
      requires Valid() && Presentable(address, beyond)
      modifies Repr()
      ensures Valid() && Kfree(k, old(State()), address) == Seen(r)
      ensures r.Panic? ==> State() == old(State())
      ensures r.Address? ==> Stray(address, beyond)
    {
      if address == 0 || !Inside(k, address) {
        return Panic;
      }
      r := FreeBlock(address, beyond);
    }

    /** memcpy between the payloads of two live blocks. */
    method CopyPayload(target: u32, source: u32, n: nat)
      requires Valid() && target != source
      requires BlockAt(k, State(), target).Some? && BlockAt(k, State(), source).Some?
      requires n <= |BlockAt(k, State(), target).value.data| && n <= |BlockAt(k, State(), source).value.data|
      modifies Repr()
      ensures Valid()
      ensures State() == Write(k, old(State()), target, 0, old(BlockAt(k, State(), source)).value.data[..n])
    {
      var bytes := LoadPayload(source, n);
      StorePayload(target, 0, bytes);
    }

    method LoadPayload(address: u32, n: nat) returns (bytes: seq<u8>)
      requires Valid() && BlockAt(k, State(), address).Some? && n <= |BlockAt(k, State(), address).value.data|
      ensures bytes == BlockAt(k, State(), address).value.data[..n]
    {
      ghost var kind, s := PeekLive(address);
      if lo.Holds(address) {
        bytes := lo.Load(s, address, n);
      } else if mid.Holds(address) {
        bytes := mid.Load(s, address, n);
      } else {
        bytes := hi.Load(s, address, n);
      }
    }

    /** A client storing into its own payload. */
    method StorePayload(address: u32, off: nat, bytes: seq<u8>)
      requires Valid() && BlockAt(k, State(), address).Some?
      requires off + |bytes| <= |BlockAt(k, State(), address).value.data|
      modifies Repr()
      ensures Valid() && State() == Write(k, old(State()), address, off, bytes)
    {
      hide Represents, Write, DecodeHeader, GeometryOk;
      ghost var kind, s := PeekLive(address);
      WriteAt(k, State(), address, off, bytes, kind, s);
      if lo.Holds(address) {
        lo.Store(s, address + off, bytes);
      } else if mid.Holds(address) {
        mid.Store(s, address + off, bytes);
      } else {
        hi.Store(s, address + off, bytes);
      }
    }

    /** krealloc, the way that does not rely on the driver. */
    method KreallocCall(address: u32, size: u32, beyond: Header) returns (r: CallResult)
      requires Valid() && (address == 0 || Presentable(address, beyond))
      modifies Repr()
      ensures Valid()
      ensures old(HeapOk(k, State())) && Krealloc(k, old(State()), address, size, defaultAlignment) == Seen(r)
    {
      StateOk();
      if size == 0 {
        return Address(0);
      }
      if address != 0 && !Inside(k, address) {
        return Address(0);
      }
      if address == 0 {
        var newborn := AllocAligned(size, defaultAlignment);
        return Address(newborn);
      }
      var header := HeaderAt(address, beyond);
      if BlockAt(k, State(), address).Some? {
        ghost var kind, s := PeekLive(address);
        LiveIsPlaced(k, State(), address);
      }
      if header.signature != ALLOCATION_SIGNATURE || Signed32(header.size) <= 0 {
        return Address(0);
      }
      if header.size == size {
        return Address(address);
      }
      if Signed32(header.alignment) < 0 {
        return Address(0);
      }
      if !PowerOfTwo(header.alignment) {
        return Panic;
      }
      r := Relocate(address, header.size, header.alignment, size, beyond);
    }

    method Relocate(address: u32, previous: u32, alignment: u32, size: u32, beyond: Header) returns (r: CallResult)
      requires Valid() && Inside(k, address) && BlockAt(k, State(), address).Some? && size >= 1
      requires var b := BlockAt(k, State(), address).value; previous == |b.data| && alignment == b.alignment
      requires PowerOfTwo(alignment)
      modifies Repr()
      ensures Valid()
      ensures old(HeapOk(k, State())) && Moved(k, old(State()), address, old(BlockAt(k, State(), address)).value, size) == Seen(r)
    {
      hide Represents, Write, Release, Alloc, BlockAt, DecodeHeader, GeometryFine;
      StateOk();
      ghost var b := BlockAt(k, State(), address).value;
      AllocKeeps(k, State(), size, alignment, address);
      AllocGives(k, State(), size, alignment);
      var target := AllocAligned(size, alignment);
      if target == 0 {
        return Address(0);
      }
      ghost var bytes := b.data[..Min(|b.data|, size)];
      WriteKeeps(k, State(), target, 0, bytes, address);
      CopyPayload(target, address, if previous < size then previous else size);
      r := FreeBlock(address, beyond);
      r := Address(target);
    }
  }
}

/** gallocator_init_heap: carving one heap into metadata, three bitmaps and three pools. */
module HeapLayout {
  import opened Machine
  import opened Gallocator

  const LO_CHUNK := 32
  const MID_CHUNK := 64
  const HI_CHUNK := 128
  const HEAP_META_SIZE := 52

  datatype PoolMeta = PoolMeta(bitmap: int, bitmapSize: int, geometry: Geometry)

  datatype HeapMeta = HeapMeta(lo: PoolMeta, mid: PoolMeta, hi: PoolMeta)

  /** How many chunks each pool gets out of a number of bytes. */
  datatype Split = Split(lo: nat, mid: nat, hi: nat)

  function SplitOf(heapsize: nat): (r: Split)
    ensures r.hi * HI_CHUNK + r.mid * MID_CHUNK + r.lo * LO_CHUNK <= heapsize
    ensures r.hi * HI_CHUNK <= heapsize / 2 && r.mid * MID_CHUNK <= heapsize / 4 && r.lo * LO_CHUNK <= heapsize / 4
    ensures heapsize >= 512 ==> 2 <= r.lo && 2 <= r.mid && 2 <= r.hi
  {
    Split(heapsize / 4 / LO_CHUNK, heapsize / 4 / MID_CHUNK, heapsize / 2 / HI_CHUNK)
  }

  /** One bitmap bit per chunk, in whole bytes. */
  function BitmapBytes(chunks: nat): (r: nat)
    ensures chunks <= 8 * r <= chunks + 7
  {
    CeilDiv(chunks, 8)
  }

  /** What the bitmaps of the first split leave for the pools. */
  function AfterBitmaps(heapsize: nat): (r: int)
    ensures heapsize >= PAGE_SIZE - HI_CHUNK ==> 512 <= r <= heapsize
  {
    var c := SplitOf(heapsize);
    heapsize - (BitmapBytes(c.lo) + BitmapBytes(c.mid) + BitmapBytes(c.hi))
  }

  /** sizeof(GAllocatorHeapMeta), aligned for the high pool. */
  function MetaSpan(): (r: nat)
    ensures r == HI_CHUNK
  {
    AlignUp(HEAP_META_SIZE, HI_CHUNK)
  }

  /** The heap's size; a heap that ends within the address space does not wrap it. */
  function HeapBytes(vaddr: u32, pagespan: u32): (r: nat)
    requires 0 < vaddr && vaddr + pagespan * PAGE_SIZE <= WORD
    ensures r == pagespan * PAGE_SIZE
  {
    Wrap32(pagespan * PAGE_SIZE)
  }

  /** The metadata gallocator_init_heap writes, or None for -ENOMEM. */
  function InitHeap(vaddr: u32, pagespan: u32): (r: Option<HeapMeta>)
    requires 0 < vaddr && vaddr + pagespan * PAGE_SIZE <= WORD
    ensures r.None? <==> pagespan == 0
  {
    var metasize := MetaSpan();
    var heapsize := HeapBytes(vaddr, pagespan);
    if heapsize <= metasize then None
    else Some(Carve(vaddr + metasize, heapsize - metasize))
  }

  /** Bitmaps from `at` on, then the high, middle and low pools. */
  function Carve(at: nat, heapsize: nat): HeapMeta
    requires heapsize >= PAGE_SIZE - HI_CHUNK
  {
    var wide, c := SplitOf(heapsize), SplitOf(AfterBitmaps(heapsize));
    var midBitmap := at + BitmapBytes(wide.lo);
    var hiBitmap := midBitmap + BitmapBytes(wide.mid);
    var hiPool := hiBitmap + BitmapBytes(wide.hi);
    var midPool := hiPool + c.hi * HI_CHUNK;
    var loPool := midPool + c.mid * MID_CHUNK;
    HeapMeta(
      PoolMeta(at, BitmapBytes(wide.lo), Shrunk(loPool, c.lo, LO_CHUNK)),
      PoolMeta(midBitmap, BitmapBytes(wide.mid), Shrunk(midPool, c.mid, MID_CHUNK)),
      PoolMeta(hiBitmap, BitmapBytes(wide.hi), Shrunk(hiPool, c.hi, HI_CHUNK)))
  }

  /** A pool moved up to its chunk size, giving up one chunk if it had to move. */
  function Shrunk(pool: nat, chunks: nat, chunkSize: nat): (g: Geometry)
    requires chunkSize in {32, 64, 128} && 1 <= chunks
    ensures g.chunkSize == chunkSize && g.start % chunkSize == 0 && pool <= g.start < pool + chunkSize
    ensures g.start + g.chunks * chunkSize <= pool + chunks * chunkSize
    ensures chunks - 1 <= g.chunks <= chunks
  {
    AlignUpNext(pool, chunkSize, 0);
    assert (chunks - 1) * chunkSize == chunks * chunkSize - chunkSize;
    var aligned := AlignUp(pool, chunkSize);
    Geometry(chunkSize, aligned, if aligned != pool then chunks - 1 else chunks)
  }

  function PoolEnd(g: Geometry): int {
    g.start + g.chunks * g.chunkSize
  }

  /** The regions follow one another inside the heap, and every pool is usable by the allocator. */
  ghost predicate LaidOut(vaddr: int, size: int, m: HeapMeta) {
    && m.lo.geometry.chunkSize == LO_CHUNK && m.mid.geometry.chunkSize == MID_CHUNK && m.hi.geometry.chunkSize == HI_CHUNK
    && vaddr + HEAP_META_SIZE <= m.lo.bitmap
    && 0 < m.lo.bitmapSize && 0 < m.mid.bitmapSize && 0 < m.hi.bitmapSize
    && m.lo.bitmap + m.lo.bitmapSize <= m.mid.bitmap
    && m.mid.bitmap + m.mid.bitmapSize <= m.hi.bitmap
    && m.hi.bitmap + m.hi.bitmapSize <= m.hi.geometry.start
    && PoolEnd(m.hi.geometry) <= m.mid.geometry.start
    && PoolEnd(m.mid.geometry) <= m.lo.geometry.start
    && PoolEnd(m.lo.geometry) <= vaddr + size
    && GeometryOk(m.lo.geometry, m.lo.bitmapSize)
    && GeometryOk(m.mid.geometry, m.mid.bitmapSize)
    && GeometryOk(m.hi.geometry, m.hi.bitmapSize)
    && 1 <= m.lo.geometry.chunks && 1 <= m.mid.geometry.chunks && 1 <= m.hi.geometry.chunks
  }

  lemma SplitShrinks(a: nat, b: nat)
    requires a <= b
    ensures SplitOf(a).lo <= SplitOf(b).lo && SplitOf(a).mid <= SplitOf(b).mid && SplitOf(a).hi <= SplitOf(b).hi
  {
  }

  lemma PoolOk(pool: nat, chunks: nat, wide: nat, cs: nat)
    requires cs in {32, 64, 128} && 2 <= chunks <= wide && 0 < pool
    requires pool + chunks * cs <= WORD && wide * cs < 0x8000_0000
    ensures GeometryOk(Shrunk(pool, chunks, cs), BitmapBytes(wide))
    ensures PoolEnd(Shrunk(pool, chunks, cs)) <= pool + chunks * cs
    ensures 1 <= Shrunk(pool, chunks, cs).chunks && 1 <= BitmapBytes(wide)
    ensures pool <= Shrunk(pool, chunks, cs).start && Shrunk(pool, chunks, cs).chunkSize == cs
  {
  }

  lemma HeapIsLaidOut(vaddr: u32, pagespan: u32)
    requires 0 < vaddr && vaddr + pagespan * PAGE_SIZE <= WORD && 1 <= pagespan
    ensures LaidOut(vaddr, pagespan * PAGE_SIZE, InitHeap(vaddr, pagespan).value)
  {
    hide Carve, LaidOut;
    CarveOk(vaddr, pagespan * PAGE_SIZE - HI_CHUNK);
  }

  lemma CarveOk(vaddr: u32, heapsize: nat)
    requires 0 < vaddr && PAGE_SIZE - HI_CHUNK <= heapsize && vaddr + HI_CHUNK + heapsize <= WORD
    ensures LaidOut(vaddr, heapsize + HI_CHUNK, Carve(vaddr + HI_CHUNK, heapsize))
  {
    hide SplitOf, BitmapBytes, Shrunk, GeometryOk, AfterBitmaps, PoolEnd;
    var wide, c := SplitOf(heapsize), SplitOf(AfterBitmaps(heapsize));
    SplitShrinks(AfterBitmaps(heapsize), heapsize);
    BytesLeft(heapsize);
    var hiPool := vaddr + HI_CHUNK + BitmapBytes(wide.lo) + BitmapBytes(wide.mid) + BitmapBytes(wide.hi);
    var midPool := hiPool + c.hi * HI_CHUNK;
    var loPool := midPool + c.mid * MID_CHUNK;
    PoolOk(hiPool, c.hi, wide.hi, HI_CHUNK);
    PoolOk(midPool, c.mid, wide.mid, MID_CHUNK);
    PoolOk(loPool, c.lo, wide.lo, LO_CHUNK);
  }

  lemma BytesLeft(heapsize: nat)
    ensures var wide := SplitOf(heapsize);
            AfterBitmaps(heapsize) + BitmapBytes(wide.lo) + BitmapBytes(wide.mid) + BitmapBytes(wide.hi) == heapsize
  {
  }

  function PoolBytes(m: PoolMeta): int {
    m.geometry.chunks * m.geometry.chunkSize
  }

  /** Nearly all of the heap is pools: half of what metadata and bitmaps leave is the high pool and a quarter
      each of the others, less at most two chunks, and the bitmaps take one byte in 512. */
  lemma PoolsUseTheHeap(vaddr: u32, pagespan: u32)
    requires 0 < vaddr && vaddr + pagespan * PAGE_SIZE <= WORD && 1 <= pagespan
    ensures var m := InitHeap(vaddr, pagespan).value;
            var bitmaps := m.lo.bitmapSize + m.mid.bitmapSize + m.hi.bitmapSize;
            var left := pagespan * PAGE_SIZE - 128 - bitmaps;
            && left / 2 - 2 * 128 < PoolBytes(m.hi) <= left / 2
            && left / 4 - 2 * 64 < PoolBytes(m.mid) <= left / 4
            && left / 4 - 2 * 32 < PoolBytes(m.lo) <= left / 4
            && 0 < bitmaps <= pagespan * PAGE_SIZE / 512 + 3
  {
    var heapsize := pagespan * PAGE_SIZE - HI_CHUNK;
    var wide, c := SplitOf(heapsize), SplitOf(AfterBitmaps(heapsize));
    BytesLeft(heapsize);
    SplitShare(AfterBitmaps(heapsize));
    SplitShare(heapsize);
    hide SplitOf, BitmapBytes, AfterBitmaps;
    var hiPool := vaddr + HI_CHUNK + BitmapBytes(wide.lo) + BitmapBytes(wide.mid) + BitmapBytes(wide.hi);
    ShrunkBytes(hiPool, c.hi, HI_CHUNK);
    ShrunkBytes(hiPool + c.hi * HI_CHUNK, c.mid, MID_CHUNK);
    ShrunkBytes(hiPool + c.hi * HI_CHUNK + c.mid * MID_CHUNK, c.lo, LO_CHUNK);
  }

  lemma SplitShare(heapsize: nat)
    ensures var c := SplitOf(heapsize);
            && heapsize / 2 - 128 < c.hi * 128 <= heapsize / 2
            && heapsize / 4 - 64 < c.mid * 64 <= heapsize / 4
            && heapsize / 4 - 32 < c.lo * 32 <= heapsize / 4
    ensures var c := SplitOf(heapsize); BitmapBytes(c.lo) + BitmapBytes(c.mid) + BitmapBytes(c.hi) <= heapsize / 512 + 3
  {
  }

  lemma ShrunkBytes(pool: nat, chunks: nat, cs: nat)
    requires cs in {32, 64, 128} && 1 <= chunks
    ensures (chunks - 1) * cs <= Shrunk(pool, chunks, cs).chunks * cs <= chunks * cs
    ensures Shrunk(pool, chunks, cs).chunkSize == cs
  {
  }
}

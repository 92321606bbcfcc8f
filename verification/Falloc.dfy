/** kernel/mem/falloc.c: the page frame bitmap and its downward user cursor. */
module Falloc {
  import opened Machine

  /** A u64 as its bits, least significant first. */
  type bits64 = w: seq<bool> | |w| == 64 witness seq(64, _ => false)

  const POOL_SIZE: nat := 0x4000

  // ---------------------------------------------------------------- bw_set and bw_clear

  function ShiftRight32(w: bits64): bits64 { w[32..] + seq(32, _ => false) }
  function ShiftLeft32(w: bits64): bits64 { seq(32, _ => false) + w[..32] }
  function LowHalf(w: bits64): bits64 { w[..32] + seq(32, _ => false) }
  function Or(a: bits64, b: bits64): bits64 { seq(64, i requires 0 <= i < 64 => a[i] || b[i]) }
  function And(a: bits64, b: bits64): bits64 { seq(64, i requires 0 <= i < 64 => a[i] && b[i]) }

  /** (u32)(1 << bit), widened to 64 bits. */
  function OneBit32(bit: nat): bits64
    requires bit < 32
  {
    seq(64, i => i == bit)
  }

  /** (u32)~(1 << bit), widened to 64 bits: the upper half of the mask is zero. */
  function NotOneBit32(bit: nat): bits64
    requires bit < 32
  {
    seq(64, i => i < 32 && i != bit)
  }

  function BwSet(n: bits64, bit: nat): (r: bits64)
    requires bit < 64
    ensures r == n[bit := true]
  {
    if bit < 32 then Or(n, OneBit32(bit))
    else Or(ShiftLeft32(Or(ShiftRight32(n), OneBit32(bit - 32))), LowHalf(n))
  }

  function BwClear(n: bits64, bit: nat): bits64
    requires bit < 64
  {
    if bit < 32 then And(n, NotOneBit32(bit))
    else Or(ShiftLeft32(And(ShiftRight32(n), NotOneBit32(bit - 32))), LowHalf(n))
  }

  /** Clearing a bit of the upper half clears that bit alone; clearing one of the lower half also
      clears the whole upper half. */
  lemma BwClearEffect(n: bits64, bit: nat, i: nat)
    requires bit < 64 && i < 64
    ensures BwClear(n, bit)[i] == (n[i] && i != bit && (bit < 32 ==> i < 32))
  {
  }

  /** So bw_clear does what its name says exactly when the upper half has nothing else to lose. */
  lemma BwClearIsClearIff(n: bits64, bit: nat)
    requires bit < 64
    ensures BwClear(n, bit) == n[bit := false] <==> (bit >= 32 || forall i :: 32 <= i < 64 ==> !n[i])
  {
    forall i: nat | i < 64 ensures BwClear(n, bit)[i] == (n[i] && i != bit && (bit < 32 ==> i < 32)) {
      BwClearEffect(n, bit, i);
    }
    if BwClear(n, bit) == n[bit := false] && bit < 32 {
      forall i | 32 <= i < 64 ensures !n[i] {
        assert BwClear(n, bit)[i] == n[bit := false][i];
      }
    }
  }

  /** Marks other than the cleared one survive bw_clear exactly when the bit is in the upper half or none
      of them is. */
  lemma ClearKeepsIff(n: bits64, bit: nat, kept: set<int>)
    requires bit < 64 && forall i :: i in kept ==> 0 <= i < 64 && i != bit && n[i]
    ensures (forall i :: i in kept ==> BwClear(n, bit)[i]) <==> (bit >= 32 || forall i :: i in kept ==> i < 32)
  {
    forall i: nat | i in kept ensures BwClear(n, bit)[i] == (bit < 32 ==> i < 32) {
      BwClearEffect(n, bit, i);
    }
  }

  /** Clearing bit 10 of a full word takes bit 40 with it. */
  lemma NeighbourLosesMark()
    ensures var n: bits64 := seq(64, _ => true); n[40] && BwClear(n, 10) != n[10 := false] && !BwClear(n, 10)[40]
  {
    var n: bits64 := seq(64, _ => true);
    BwClearEffect(n, 10, 40);
    assert n[10 := false][40];
  }

  /** Freeing frame f takes the mark of frame g. */
  predicate Unmarks(f: int, g: int) {
    g / 64 == f / 64 && (g == f || (f % 64 < 32 && g % 64 >= 32))
  }

  /** The line of ffree_one that touches the bitmap. */
  method ClearFrame(pool: array<bits64>, base: u32)
    requires pool.Length == POOL_SIZE && base % PAGE_SIZE == 0
    modifies pool
    ensures forall g :: 0 <= g < 64 * POOL_SIZE ==>
              pool[g / 64][g % 64] == (old(pool[g / 64][g % 64]) && !Unmarks(base / PAGE_SIZE, g))
  {
    var f := base / PAGE_SIZE;
    forall i: nat | i < 64 ensures BwClear(pool[f / 64], f % 64)[i] == (pool[f / 64][i] && i != f % 64 && (f % 64 < 32 ==> i < 32)) {
      BwClearEffect(pool[f / 64], f % 64, i);
    }
    hide BwClear;
    pool[f / 64] := BwClear(pool[f / 64], f % 64);
    assert forall g :: 0 <= g < 64 * POOL_SIZE && g / 64 == f / 64 ==> (g == f <==> g % 64 == f % 64);
  }

  // ---------------------------------------------------------------- boot

  /** Available memory, in whole pages. */
  datatype Region = Region(start: nat, size: nat)

  /** The frames freed for the pages of a region from address a on. An address is cut to 32 bits on its way
      to ffree_one. */
  function FramesFrom(r: Region, a: nat): set<int>
    decreases r.start + r.size - a
  {
    if a >= r.start + r.size then {} else {Wrap32(a) / PAGE_SIZE} + FramesFrom(r, a + PAGE_SIZE)
  }

  function FramesOf(regions: seq<Region>): set<int> {
    if regions == [] then {} else FramesOf(regions[..|regions| - 1]) + FramesFrom(regions[|regions| - 1], regions[|regions| - 1].start)
  }

  /** The k-th page from an address on. */
  function PageAt(a: nat, k: nat): nat { a + k * PAGE_SIZE }

  /** These are the frames of every page that starts in the region. */
  lemma {:induction false} FramesFromAre(r: Region, a: nat, f: int)
    ensures f in FramesFrom(r, a) <==> exists k: nat :: PageAt(a, k) < r.start + r.size && Wrap32(PageAt(a, k)) / PAGE_SIZE == f
    decreases r.start + r.size - a
  {
    if a < r.start + r.size {
      var b := a + PAGE_SIZE;
      FramesFromAre(r, b, f);
      assert PageAt(a, 0) == a;
      if k: nat :| PageAt(b, k) < r.start + r.size && Wrap32(PageAt(b, k)) / PAGE_SIZE == f {
        assert PageAt(a, k + 1) == PageAt(b, k);
      }
      if k: nat :| PageAt(a, k) < r.start + r.size && Wrap32(PageAt(a, k)) / PAGE_SIZE == f && k > 0 {
        assert PageAt(b, k - 1) == PageAt(a, k);
      }
    }
  }

  lemma {:induction false} FramesOfAre(regions: seq<Region>, f: int)
    ensures f in FramesOf(regions) <==> exists i :: 0 <= i < |regions| && f in FramesFrom(regions[i], regions[i].start)
  {
    if regions != [] {
      var front := regions[..|regions| - 1];
      FramesOfAre(front, f);
      assert forall i :: 0 <= i < |front| ==> front[i] == regions[i];
    }
  }

  /** The bitmap after these frames, and no others, were freed out of a full one. */
  ghost predicate FreedOnly(bitmap: seq<bits64>, freed: set<int>) {
    |bitmap| == POOL_SIZE &&
    forall g :: 0 <= g < 64 * POOL_SIZE ==> (bitmap[g / 64][g % 64] <==> forall f :: f in freed ==> !Unmarks(f, g))
  }

  /** falloc_init, which panics when nothing was freed. */
  method Init(regions: seq<Region>) returns (bitmap: seq<bits64>, panicked: bool)
    requires forall k :: 0 <= k < |regions| ==> regions[k].start % PAGE_SIZE == 0
    ensures FreedOnly(bitmap, FramesOf(regions)) && (panicked <==> FramesOf(regions) == {})
  {
    hide FreedOnly;
    var pool := new bits64[POOL_SIZE](_ => seq(64, _ => true));
    var count := 0;
    FullIsUnfreed(pool[..]);
    for n := 0 to |regions|
      invariant pool.Length == POOL_SIZE && FreedOnly(pool[..], FramesOf(regions[..n]))
      invariant count >= 0 && (count == 0 <==> FramesOf(regions[..n]) == {})
    {
      assert regions[..n + 1][..n] == regions[..n];
      var freed := AddAvailable(pool, regions[n], FramesOf(regions[..n]));
      count := count + freed;
    }
    assert regions[..|regions|] == regions;
    return pool[..], count == 0;
  }

  /** pageframe_add_available, with the number of frames it counts as free. */
  method AddAvailable(pool: array<bits64>, r: Region, ghost before: set<int>) returns (count: nat)
    requires pool.Length == POOL_SIZE && r.start % PAGE_SIZE == 0 && FreedOnly(pool[..], before)
    modifies pool
    ensures FreedOnly(pool[..], before + FramesFrom(r, r.start)) && (count == 0 <==> FramesFrom(r, r.start) == {})
  {
    hide FreedOnly, FramesFrom, Wrap32, Unmarks;
    RegionFrames(r, r.start);
    var frame := r.start;
    ghost var freed := before;
    count := 0;
    while frame < r.start + r.size
      invariant frame % PAGE_SIZE == 0 && pool.Length == POOL_SIZE && FreedOnly(pool[..], freed)
      invariant freed + FramesFrom(r, frame) == before + FramesFrom(r, r.start)
      invariant count == 0 <==> frame == r.start
      invariant frame >= r.start && (frame > r.start ==> r.size > 0)
      decreases r.start + r.size - frame
    {
      ghost var was := pool[..];
      RegionFrames(r, frame);
      ClearFrame(pool, Wrap32(frame));
      OneMoreFreed(was, pool[..], freed, Wrap32(frame) / PAGE_SIZE);
      freed := freed + {Wrap32(frame) / PAGE_SIZE};
      frame := frame + PAGE_SIZE;
      count := count + 1;
    }
    RegionFrames(r, frame);
    assert freed == before + FramesFrom(r, r.start);
  }

  lemma RegionFrames(r: Region, a: nat)
    requires a % PAGE_SIZE == 0
    ensures a >= r.start + r.size ==> FramesFrom(r, a) == {}
    ensures a < r.start + r.size ==>
              FramesFrom(r, a) == {Wrap32(a) / PAGE_SIZE} + FramesFrom(r, a + PAGE_SIZE) && FramesFrom(r, a) != {}
    ensures Wrap32(a) % PAGE_SIZE == 0
  {
    if a < r.start + r.size { assert Wrap32(a) / PAGE_SIZE in FramesFrom(r, a); }
  }

  lemma FullIsUnfreed(bitmap: seq<bits64>)
    requires |bitmap| == POOL_SIZE && forall i, b :: 0 <= i < POOL_SIZE && 0 <= b < 64 ==> bitmap[i][b]
    ensures FreedOnly(bitmap, {})
  {
  }

  lemma OneMoreFreed(was: seq<bits64>, now: seq<bits64>, freed: set<int>, f: int)
    requires FreedOnly(was, freed) && |now| == POOL_SIZE
    requires forall g :: 0 <= g < 64 * POOL_SIZE ==> now[g / 64][g % 64] == (was[g / 64][g % 64] && !Unmarks(f, g))
    ensures FreedOnly(now, freed + {f})
  {
    hide Unmarks;
    forall g | 0 <= g < 64 * POOL_SIZE
      ensures now[g / 64][g % 64] <==> forall f' :: f' in freed + {f} ==> !Unmarks(f', g)
    {
      assert now[g / 64][g % 64] == (was[g / 64][g % 64] && !Unmarks(f, g));
      assert f in freed + {f};
    }
  }

  /** The kernel starts out with exactly the available frames free if and only if words with an available
      frame in their lower half are available in all of their upper half. */
  lemma InitIsExactIff(freed: set<int>)
    requires forall f :: f in freed ==> 0 <= f < 64 * POOL_SIZE
    ensures (forall g :: 0 <= g < 64 * POOL_SIZE ==> ((exists f :: f in freed && Unmarks(f, g)) <==> g in freed)) <==>
            forall f, g :: f in freed && 0 <= g < 64 * POOL_SIZE && g / 64 == f / 64 && f % 64 < 32 <= g % 64 ==> g in freed
  {
    forall g | g in freed ensures Unmarks(g, g) {
    }
  }

  // ---------------------------------------------------------------- the allocator

  class FrameAllocator {
    const pool: array<bits64>
    var cursor: nat
    var subcursor: int
    /** The bitmap when the allocator came up. */
    ghost const atStart: seq<bits64>
    /** The frames held by user pages. */
    ghost var held: set<int>

    /** Frame number f is marked used. */
    ghost predicate Marked(f: int)
      requires pool.Length == POOL_SIZE && 0 <= f < 64 * POOL_SIZE
      reads pool
    {
      pool[f / 64][f % 64]
    }

    ghost function Position(): int
      reads this
    {
      cursor * 64 + subcursor
    }

    /** Held frames are above the cursor, or at it and marked; frames below the cursor are as they
        were or have been marked since. */
    ghost predicate Valid()
      reads this, pool
    {
      && pool.Length == POOL_SIZE == |atStart|
      && cursor < POOL_SIZE && 0 <= subcursor < 64
      && (forall f :: f in held ==> 64 <= f < 64 * POOL_SIZE && !atStart[f / 64][f % 64])
      && (forall f :: f in held ==> Position() <= f && (f == Position() ==> Marked(f)))
      && (forall f :: 64 <= f <= Position() && atStart[f / 64][f % 64] ==> Marked(f))
    }

    /** No held frame can be given away: all of them are marked. It is no part of Valid, because freeing
        a frame can break it. */
    ghost predicate HeldMarked()
      reads this, pool
    {
      pool.Length == POOL_SIZE && forall f :: f in held ==> 0 <= f < 64 * POOL_SIZE && Marked(f)
    }

    constructor (bitmap: seq<bits64>)
      requires |bitmap| == POOL_SIZE
      ensures Valid() && pool[..] == bitmap && cursor == POOL_SIZE - 1 && subcursor == 63 && atStart == bitmap && held == {} && fresh(pool)
    {
      pool := new bits64[POOL_SIZE](i requires 0 <= i < POOL_SIZE => bitmap[i]);
      cursor := POOL_SIZE - 1;
      subcursor := 63;
      atStart := bitmap;
      held := {};
    }

    /** falloc_one_user: the highest unmarked frame at or below the cursor, or 0 when words 1 and up
        have none. */
    method OneUser() returns (address: u32)
      requires Valid()
      modifies this, pool
      ensures Valid() && held == old(held)
      ensures address % PAGE_SIZE == 0
      ensures address == 0 <==> forall f :: 64 <= f <= old(Position()) ==> old(Marked(f))
      ensures address != 0 ==>
                var f := address / PAGE_SIZE;
                64 <= f <= old(Position()) && f == Position() && !old(Marked(f)) && Marked(f) &&
                (forall g :: f < g <= old(Position()) ==> old(Marked(g))) &&
                f !in held && !atStart[f / 64][f % 64]
      ensures forall g :: 0 <= g < 64 * POOL_SIZE && !(address != 0 && g == address / PAGE_SIZE) ==> Marked(g) == old(Marked(g))
    {
      while cursor >= 1
        invariant pool.Length == POOL_SIZE && cursor < POOL_SIZE && 0 <= subcursor < 64 && Position() <= old(Position())
        invariant forall g :: Position() < g <= old(Position()) && g >= 64 ==> old(Marked(g))
        invariant pool[..] == old(pool[..]) && held == old(held)
        decreases cursor
      {
        var found := ScanWord();
        assert pool[cursor] == old(pool[..])[cursor];
        if found {
          ghost var f := Position();
          assert f / 64 == cursor && f % 64 == subcursor && !old(Marked(f));
          address := Take();
          assert address / PAGE_SIZE == f;
          return;
        }
        subcursor := 63;
        cursor := cursor - 1;
      }
      assert forall f :: 64 <= f <= old(Position()) ==> old(Marked(f));
      return 0;
    }

    /** Marks the frame at the cursor. */
    method Take() returns (address: u32)
      requires pool.Length == POOL_SIZE && 1 <= cursor < POOL_SIZE && 0 <= subcursor < 64
      modifies pool
      ensures address == Position() * PAGE_SIZE
      ensures forall g :: 0 <= g < 64 * POOL_SIZE ==> Marked(g) == (old(Marked(g)) || g == Position())
    {
      assert Position() / 64 == cursor && Position() % 64 == subcursor;
      pool[cursor] := BwSet(pool[cursor], subcursor);
      return cursor * 64 * PAGE_SIZE + subcursor * PAGE_SIZE;
    }

    /** The inner loop: down to the next unmarked frame of the word, if there is one. */
    method ScanWord() returns (found: bool)
      requires pool.Length == POOL_SIZE && 1 <= cursor < POOL_SIZE && 0 <= subcursor < 64
      modifies this`subcursor
      ensures found ==> 0 <= subcursor < 64 && !pool[cursor][subcursor]
      ensures forall b :: (if found then subcursor else -1) < b <= old(subcursor) ==> pool[cursor][b]
      ensures subcursor <= old(subcursor)
    {
      while subcursor >= 0
        invariant -1 <= subcursor <= old(subcursor)
        invariant forall b :: subcursor < b <= old(subcursor) ==> pool[cursor][b]
        decreases subcursor
      {
        if !pool[cursor][subcursor] {
          return true;
        }
        subcursor := subcursor - 1;
      }
      found := false;
    }

    /** A user page takes the frame falloc_one_user just gave. */
    ghost method Hold(address: u32)
      requires Valid() && address % PAGE_SIZE == 0 && address / PAGE_SIZE == Position() >= 64
      requires Marked(Position()) && !atStart[Position() / 64][Position() % 64]
      modifies this`held
      ensures Valid() && held == old(held) + {address / PAGE_SIZE} && (old(HeldMarked()) ==> HeldMarked())
    {
      held := held + {address / PAGE_SIZE};
    }

    /** falloc_one_at: takes one particular frame. It is no held one as long as held frames are marked. */
    method OneAt(base: u32) returns (st: int)
      requires Valid() && base % PAGE_SIZE == 0
      modifies pool
      ensures Valid() && st == (if old(Marked(base / PAGE_SIZE)) then -ENOMEM else 0)
      ensures forall g :: 0 <= g < 64 * POOL_SIZE ==> Marked(g) == (old(Marked(g)) || g == base / PAGE_SIZE)
      ensures old(HeldMarked()) ==> HeldMarked() && (st == 0 ==> base / PAGE_SIZE !in held)
    {
      var f := base / PAGE_SIZE;
      if pool[f / 64][f % 64] {
        return -ENOMEM;
      }
      pool[f / 64] := BwSet(pool[f / 64], f % 64);
      return 0;
    }

    /** ffree_one. Held frames keep their marks exactly when the freed frame is none of them and is in the
        upper half of its word or no held frame is in the upper half of that word. The frames at or below the
        cursor that were never free stay taken exactly when none of those loses its mark. */
    method FreeOne(base: u32)
      requires pool.Length == POOL_SIZE && base % PAGE_SIZE == 0
      modifies pool
      ensures forall g :: 0 <= g < 64 * POOL_SIZE ==> Marked(g) == (old(Marked(g)) && !Unmarks(base / PAGE_SIZE, g))
      ensures old(HeldMarked()) ==> (HeldMarked() <==> forall h :: h in held ==> !Unmarks(base / PAGE_SIZE, h))
      ensures old(Valid()) ==>
                (Valid() <==> forall g :: 64 <= g <= Position() && Unmarks(base / PAGE_SIZE, g) ==>
                                !atStart[g / 64][g % 64] && g !in held)
    {
      ClearFrame(pool, base);
    }
  }

  /** A user page holds frame 40 of the last word, and frame 10 was taken for a second one. */
  method TwoTaken() returns (a: FrameAllocator, first: u32, second: u32)
    ensures fresh(a) && fresh(a.pool) && a.Valid() && a.HeldMarked() && first % PAGE_SIZE == 0 && second % PAGE_SIZE == 0
    ensures first / PAGE_SIZE == 64 * (POOL_SIZE - 1) + 40 && a.held == {first / PAGE_SIZE}
    ensures second / PAGE_SIZE == 64 * (POOL_SIZE - 1) + 10 == a.Position()
    ensures !a.atStart[POOL_SIZE - 1][10]
  {
    hide BwSet, BwClear;
    var word: bits64 := seq(64, i => i != 40 && i != 10);
    a := new FrameAllocator(seq(POOL_SIZE, i => if i == POOL_SIZE - 1 then word else seq(64, _ => true)));
    ghost var base := 64 * (POOL_SIZE - 1);
    assert a.pool[..][POOL_SIZE - 1] == word;
    assert forall g :: base <= g < base + 64 ==> a.Marked(g) == word[g - base];
    assert !a.Marked(base + 40) && !a.Marked(base + 10) && a.Position() == base + 63;
    first := a.OneUser();
    assert first / PAGE_SIZE == base + 40;
    a.Hold(first);
    assert !a.Marked(base + 10) && a.Position() == base + 40;
    second := a.OneUser();
    assert second / PAGE_SIZE == base + 10;
  }

  /** When mapping the second page fails, its frame is freed, and the first page's frame is up for grabs:
      the next request for it is granted. */
  method HeldFrameGivenAway() returns (a: FrameAllocator, address: u32, st: int)
    ensures a.Valid() && address % PAGE_SIZE == 0 && st == 0 && address / PAGE_SIZE in a.held
  {
    hide BwSet, BwClear;
    var second;
    a, address, second := TwoTaken();
    a.FreeOne(second);
    assert Unmarks(second / PAGE_SIZE, address / PAGE_SIZE);
    st := a.OneAt(address);
  }
}

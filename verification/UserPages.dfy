/** kernel/mem/mm.c and arch/x86/mem/mm.c: giving pages to an address space and tearing it down. */
module UserPages {
  import opened Machine
  import opened PageTables
  import F = Falloc
  import P = Paging

  // ---------------------------------------------------------------- mm_new_user_page

  type Given = map<(u32, u32), int>

  /** Every page given out is mapped to its own frame where the processor can reach it, and the frames
      differ. */
  ghost predicate GivenOk(t: Tables, given: Given)
    requires Wf(t)
  {
    && (forall k :: k in given ==>
          k.0 in t.pdpts && k.1 < 3 * GIB && k.1 % PAGE_SIZE == 0 && given[k] > 0 &&
          Frame(t, k.0, k.1) == given[k] * PAGE_SIZE && Effective(t, k.0, k.1).Some?)
    && (forall k, k' :: k in given && k' in given && k != k' ==> given[k] != given[k'])
  }

  /** A page given out, seen through any step that does not touch it. */
  lemma UntouchedGiven(t: Tables, t': Tables, op: Op, p: u32, va: u32)
    requires Wf(t) && Wf(t') && Step(t, t', op) && p in t.pdpts && va < 3 * GIB && op != Destroy(p)
    requires Frame(t, p, va) != 0 && Effective(t, p, va).Some?
    requires op.Map? ==> !SamePlace(t', op.p, op.va, p, va)
    ensures p in t'.pdpts && Frame(t', p, va) == Frame(t, p, va) && Effective(t', p, va).Some?
  {
    hide Sized, Closed, Unshared, Promoted, TablePointer, Frame, Granted, Keeps;
    match op
    case Change(q, a, f) =>
      if SamePlace(t', q, a, p, va) { SamePlaceSamePage(t, q, a, p, va); }
    case _ =>
      UntouchedStays(t, t', op, p, va);
  }

  /** No step takes a page away from whoever it was given to, as long as nobody maps another user page and
      no space with such pages is torn down. */
  lemma StepKeepsGiven(t: Tables, t': Tables, op: Op, given: Given)
    requires Wf(t) && Wf(t') && Step(t, t', op) && GivenOk(t, given)
    requires op.Map? ==> op.va >= 3 * GIB
    requires op.Destroy? ==> forall k :: k in given ==> k.0 != op.space
    ensures GivenOk(t', given)
  {
    hide Sized, Closed, Unshared, Promoted, Frame, Granted, Effective, Step;
    forall k | k in given
      ensures k.0 in t'.pdpts && Frame(t', k.0, k.1) == Frame(t, k.0, k.1) && Effective(t', k.0, k.1).Some?
    {
      UntouchedGiven(t, t', op, k.0, k.1);
    }
  }

  lemma MapKeepsGiven(t: Tables, t': Tables, given: Given, p: u32, va: u32, pa: u32, f: Flags)
    requires Wf(t) && Wf(t') && Step(t, t', Map(p, va, pa, f)) && va < 3 * GIB && va % PAGE_SIZE == 0
    requires GivenOk(t, given) && (p, va) !in given
    requires pa % PAGE_SIZE == 0 && pa > 0 && forall k :: k in given ==> given[k] != pa / PAGE_SIZE
    ensures GivenOk(t', given[(p, va) := pa / PAGE_SIZE])
  {
    hide Sized, Closed, Unshared, Promoted, Frame, Granted, Evolves;
    forall k | k in given ensures Frame(t', k.0, k.1) == Frame(t, k.0, k.1) && Effective(t', k.0, k.1).Some? {
      assert k != (p, va) && PdptIndex(va) != KERNEL_SLOT;
      assert !SamePlace(t', p, va, k.0, k.1);
      UntouchedGiven(t, t', Map(p, va, pa, f), k.0, k.1);
    }
    assert SamePlace(t', p, va, p, va);
  }

  lemma NothingChanged(t: Tables)
    requires Wf(t)
    ensures SameTranslations(t, t) && Step(t, t, Fail)
  {
  }

  /** Two pages given out never share a frame, in one space or in two. */
  lemma FramesAreDistinct(t: Tables, given: Given, p: u32, va: u32, p': u32, va': u32)
    requires Wf(t) && GivenOk(t, given) && (p, va) in given && (p', va') in given && (p, va) != (p', va')
    ensures Va2Pa(t, p, va) != Va2Pa(t, p', va')
    ensures Va2Pa(t, p, va) != 0 && Va2Pa(t, p, va) % PAGE_SIZE == 0
  {
    hide Sized, Closed, Unshared, Promoted, Frame, Va2Pa, PtOf;
    assert Frame(t, p, va) == given[(p, va)] * PAGE_SIZE && Frame(t, p', va') == given[(p', va')] * PAGE_SIZE;
    Va2PaIsFrame(t, p, va);
    Va2PaIsFrame(t, p', va');
  }

  /** Page tables, the pages given out, and the frames taken for user pages so far. */
  datatype Memory = Memory(t: Tables, given: Given, held: set<int>)

  ghost predicate MemoryOk(m: Memory) {
    Wf(m.t) && GivenOk(m.t, m.given) && forall k :: k in m.given ==> m.given[k] in m.held
  }

  /** A user page is given out; or any other change of the tables: flags, mappings in the kernel quarter,
      failures, new spaces, the kernel entry copied, teardown. */
  datatype Event = Give(p: u32, va: u32, frame: int, f: Flags) | Other(op: Op)

  ghost predicate Happens(m: Memory, m': Memory, e: Event)
    requires Wf(m.t) && Wf(m'.t)
  {
    match e
    case Give(p, va, frame, f) =>
      && va < 3 * GIB && va % PAGE_SIZE == 0 && 0 < frame < WORD / PAGE_SIZE
      && frame !in m.held && (p, va) !in m.given
      && Step(m.t, m'.t, Map(p, va, frame * PAGE_SIZE, f))
      && m'.given == m.given[(p, va) := frame] && m'.held == m.held + {frame}
    case Other(op) =>
      && (op.Map? ==> op.va >= 3 * GIB) && Step(m.t, m'.t, op) && m.held <= m'.held
      && m'.given == if op.Destroy? then WithoutSpace(m.given, op.space) else m.given
  }

  function WithoutSpace(given: Given, p: u32): Given {
    map k | k in given && k.0 != p :: given[k]
  }

  lemma EventKeeps(m: Memory, m': Memory, e: Event)
    requires MemoryOk(m) && Wf(m'.t) && Happens(m, m', e)
    ensures MemoryOk(m')
  {
    hide Sized, Closed, Unshared, Promoted, Frame, Effective, Step;
    match e
    case Give(p, va, frame, f) =>
      MapKeepsGiven(m.t, m'.t, m.given, p, va, frame * PAGE_SIZE, f);
    case Other(op) =>
      StepKeepsGiven(m.t, m'.t, op, m'.given);
  }

  ghost predicate IsLife(run: seq<Memory>, events: seq<Event>) {
    && |run| == |events| + 1 && (forall i :: 0 <= i < |run| ==> Wf(run[i].t))
    && forall i :: 0 <= i < |events| ==> Happens(run[i], run[i + 1], events[i])
  }

  /** Over any run, the pages given out stay mapped and reachable, and no two of them share a frame. */
  lemma {:induction false} GivenForever(run: seq<Memory>, events: seq<Event>, n: nat)
    requires IsLife(run, events) && n < |run| && MemoryOk(run[0])
    ensures MemoryOk(run[n])
    ensures forall k, k' :: k in run[n].given && k' in run[n].given && k != k' ==>
              Va2Pa(run[n].t, k.0, k.1) != 0 && Va2Pa(run[n].t, k.0, k.1) != Va2Pa(run[n].t, k'.0, k'.1)
  {
    hide Wf, GivenOk, Happens, Va2Pa;
    if n > 0 {
      GivenForever(run, events, n - 1);
      EventKeeps(run[n - 1], run[n], events[n - 1]);
    }
    AllDistinct(run[n]);
  }

  lemma AllDistinct(m: Memory)
    requires MemoryOk(m)
    ensures forall k, k' :: k in m.given && k' in m.given && k != k' ==>
              Va2Pa(m.t, k.0, k.1) != 0 && Va2Pa(m.t, k.0, k.1) != Va2Pa(m.t, k'.0, k'.1)
  {
    hide Sized, Closed, Unshared, Promoted, Frame, Effective, Va2Pa;
    forall k, k' | k in m.given && k' in m.given && k != k'
      ensures Va2Pa(m.t, k.0, k.1) != 0 && Va2Pa(m.t, k.0, k.1) != Va2Pa(m.t, k'.0, k'.1)
    {
      FramesAreDistinct(m.t, m.given, k.0, k.1, k'.0, k'.1);
    }
  }

  /** No frame is given out twice, not even after its page's space is gone. */
  lemma {:induction false} NeverTwice(run: seq<Memory>, events: seq<Event>, i: nat, j: nat)
    requires IsLife(run, events) && i < j < |events| && events[i].Give? && events[j].Give?
    ensures events[i].frame != events[j].frame
  {
    assert Happens(run[i], run[i + 1], events[i]) && Happens(run[j], run[j + 1], events[j]);
    HeldGrows(run, events, i + 1, j);
  }

  lemma {:induction false} HeldGrows(run: seq<Memory>, events: seq<Event>, i: nat, j: nat)
    requires IsLife(run, events) && i <= j < |run|
    ensures run[i].held <= run[j].held
  {
    hide Wf, Step;
    if i < j {
      HeldGrows(run, events, i, j - 1);
      assert Happens(run[j - 1], run[j], events[j - 1]);
    }
  }

  // ---------------------------------------------------------------- tearing a space down

  const TABLE_SPAN: int := 0x20_0000

  /** Below one pointer table, the page table tells the 2 MiB region and the directory the GiB. */
  lemma TableIsRegion(t: Tables, p: u32, va: u32, va': u32)
    requires Wf(t) && p in t.pdpts && PtOf(t, p, va) != 0 && PtOf(t, p, va') != 0
    ensures PtOf(t, p, va) == PtOf(t, p, va') <==> va / TABLE_SPAN == va' / TABLE_SPAN
    ensures PdOf(t, p, va) == PdOf(t, p, va') <==> va / GIB == va' / GIB
  {
    hide TablePointer, Promoted;
    IndexBounds(va);
    IndexBounds(va');
  }

  /** Pages that an address space tracks: in ascending order, with a page table each. */
  ghost predicate Teardown(t: Tables, p: u32, pages: seq<u32>) {
    Wf(t) && p in t.pdpts && P.Ascending(pages) &&
    forall va :: va in pages ==> PtOf(t, p, va) != 0
  }

  /** None of them is in a directory that another space shares. */
  ghost predicate Private(t: Tables, p: u32, pages: seq<u32>)
    requires Sized(t) && p in t.pdpts
  {
    forall va :: va in pages ==>
      va < 3 * GIB || forall q :: q in t.pdpts && q != p ==> PdSlot(t, q, KERNEL_SLOT) != PdSlot(t, p, KERNEL_SLOT)
  }

  ghost function PtsOf(t: Tables, p: u32, pages: seq<u32>): set<u32>
    requires Wf(t) && p in t.pdpts
  {
    set va | va in pages :: PtOf(t, p, va)
  }

  ghost function PdsOf(t: Tables, p: u32, pages: seq<u32>): set<u32>
    requires Wf(t) && p in t.pdpts
  {
    set va | va in pages :: PdOf(t, p, va)
  }

  /** The table of the next page was met before exactly when it is the table of the page before it. */
  lemma MetBefore(t: Tables, p: u32, pages: seq<u32>, n: nat)
    requires Teardown(t, p, pages) && n < |pages|
    ensures PtsOf(t, p, pages[..n + 1]) == PtsOf(t, p, pages[..n]) + {PtOf(t, p, pages[n])}
    ensures PdsOf(t, p, pages[..n + 1]) == PdsOf(t, p, pages[..n]) + {PdOf(t, p, pages[n])}
    ensures PtOf(t, p, pages[n]) in PtsOf(t, p, pages[..n]) <==> n > 0 && PtOf(t, p, pages[n - 1]) == PtOf(t, p, pages[n])
    ensures PdOf(t, p, pages[n]) in PdsOf(t, p, pages[..n]) <==> n > 0 && PdOf(t, p, pages[n - 1]) == PdOf(t, p, pages[n])
  {
    hide Sized, Closed, Unshared, Promoted, PtOf, PdOf;
    assert pages[..n + 1] == pages[..n] + [pages[n]];
    if n > 0 { assert pages[..n][n - 1] in pages[..n]; }
    forall va | va in pages[..n]
      ensures PtOf(t, p, va) == PtOf(t, p, pages[n]) ==> PtOf(t, p, pages[n - 1]) == PtOf(t, p, pages[n])
      ensures PdOf(t, p, va) == PdOf(t, p, pages[n]) ==> PdOf(t, p, pages[n - 1]) == PdOf(t, p, pages[n])
    {
      assert va <= pages[n - 1] < pages[n];
      TableIsRegion(t, p, va, pages[n]);
      TableIsRegion(t, p, pages[n - 1], pages[n]);
    }
  }

  /** The tables without one space and what hangs below it. */
  ghost function Without(t: Tables, p: u32, pages: seq<u32>): Tables
    requires Teardown(t, p, pages)
  {
    Tables(t.pdpts - {p}, t.pds - PdsOf(t, p, pages), t.pts - PtsOf(t, p, pages))
  }

  /** What is freed is referred to by this space alone. */
  lemma FreedIsOwn(t: Tables, p: u32, pages: seq<u32>)
    requires Teardown(t, p, pages) && Private(t, p, pages)
    ensures PdsOf(t, p, pages) <= t.pds.Keys && PtsOf(t, p, pages) <= t.pts.Keys
    ensures forall q, i :: q in t.pdpts && q != p && 0 <= i < 4 && PdSlot(t, q, i) != 0 ==> PdSlot(t, q, i) !in PdsOf(t, p, pages)
    ensures forall d, j :: d in t.pds && d !in PdsOf(t, p, pages) && 0 <= j < 512 && PtSlot(t, d, j) != 0 ==>
              PtSlot(t, d, j) !in PtsOf(t, p, pages)
  {
    hide TablePointer, Promoted, PdIndex, PtIndex;
    forall va | va in pages
      ensures PdOf(t, p, va) in t.pds && PtOf(t, p, va) in t.pts
      ensures forall q, i :: q in t.pdpts && q != p && 0 <= i < 4 ==> PdSlot(t, q, i) != PdOf(t, p, va)
      ensures forall d, j :: d in t.pds && 0 <= j < 512 && PtSlot(t, d, j) == PtOf(t, p, va) ==> d == PdOf(t, p, va)
    {
      IndexBounds(va);
      assert PdptIndex(va) == KERNEL_SLOT <==> va >= 3 * GIB;
    }
  }

  /** Tearing a space down leaves no dangling pointer and no other translation changed. */
  lemma WithoutKeeps(t: Tables, p: u32, pages: seq<u32>)
    requires Teardown(t, p, pages) && Private(t, p, pages)
    ensures var t' := Without(t, p, pages);
            Wf(t') && forall q, va :: q in t'.pdpts ==>
              Frame(t', q, va) == Frame(t, q, va) && Va2Pa(t', q, va) == Va2Pa(t, q, va) &&
              Granted(t', q, va) == Granted(t, q, va) && Effective(t', q, va) == Effective(t, q, va)
  {
    hide TablePointer, PdptIndex, PdIndex, PtIndex, PdsOf, PtsOf, Grants;
    FreedIsOwn(t, p, pages);
    var t' := Without(t, p, pages);
    assert forall q, i :: q in t'.pdpts && 0 <= i < 4 ==> PdSlot(t', q, i) == PdSlot(t, q, i);
    assert forall d, j :: d in t'.pds && 0 <= j < 512 ==> PtSlot(t', d, j) == PtSlot(t, d, j);
    forall q, va | q in t'.pdpts
      ensures Frame(t', q, va) == Frame(t, q, va) && Va2Pa(t', q, va) == Va2Pa(t, q, va)
      ensures Granted(t', q, va) == Granted(t, q, va) && (Reaches(t', q, va) <==> Reaches(t, q, va))
    {
      IndexBounds(va);
    }
  }

  /** Tearing down a space leaves well-formed tables if and only if none of its tracked pages is in a
      directory that another space shares. */
  lemma TeardownIsSafeIff(t: Tables, p: u32, pages: seq<u32>)
    requires Teardown(t, p, pages)
    ensures Wf(Without(t, p, pages)) <==> Private(t, p, pages)
  {
    hide Unshared, Promoted, TablePointer;
    var t' := Without(t, p, pages);
    if Private(t, p, pages) {
      WithoutKeeps(t, p, pages);
    } else {
      var va :| va in pages && va >= 3 * GIB && exists q :: q in t.pdpts && q != p && PdSlot(t, q, KERNEL_SLOT) == PdSlot(t, p, KERNEL_SLOT);
      var q :| q in t.pdpts && q != p && PdSlot(t, q, KERNEL_SLOT) == PdSlot(t, p, KERNEL_SLOT);
      IndexBounds(va);
      assert PdptIndex(va) == KERNEL_SLOT && PdOf(t, p, va) in PdsOf(t, p, pages);
      assert PdSlot(t', q, KERNEL_SLOT) == PdOf(t, p, va) != 0 && PdOf(t, p, va) !in t'.pds;
      assert !(Sized(t') && Closed(t'));
    }
  }

  // ---------------------------------------------------------------- the three loops of the teardown

  ghost predicate Distinct(s: seq<u32>) {
    forall i, j :: 0 <= i < j < |s| ==> s[i] != s[j]
  }

  ghost function Elements(s: seq<u32>): set<u32> {
    set x | x in s
  }

  lemma AppendDistinct(s: seq<u32>, x: u32)
    requires Distinct(s) && x !in Elements(s)
    ensures Distinct(s + [x]) && Elements(s + [x]) == Elements(s) + {x}
  {
  }

  /** The levels above the page tables are as they were, and the page tables still to be freed exist. */
  ghost predicate UpperKept(t: Tables, was: Tables, gone: set<u32>)
  {
    t.pdpts == was.pdpts && t.pds == was.pds && t.pts.Keys == was.pts.Keys - gone
  }

  /** pt_from_vaddr_abs, which reads no page table. */
  method PtFromVaddr(mmu: Mmu, p: u32, va: u32, ghost was: Tables, ghost gone: set<u32>) returns (e: u32)
    requires Wf(was) && p in was.pdpts && UpperKept(mmu.t, was, gone)
    ensures e == PtOf(was, p, va)
  {
    hide TablePointer, Unshared, Promoted, PdptIndex, PdIndex;
    IndexBounds(va);
    var d := PdSlot(mmu.t, p, PdptIndex(va));
    assert d == PdSlot(was, p, PdptIndex(va));
    e := if d == 0 then 0 else PtSlot(mmu.t, d, PdIndex(va));
  }

  /** kfree of a page table; it has to be allocated still. */
  method FreePt(mmu: Mmu, e: u32)
    requires e in mmu.t.pts
    modifies mmu
    ensures mmu.t == old(mmu.t).(pts := old(mmu.t).pts - {e})
  {
    mmu.t := mmu.t.(pts := mmu.t.pts - {e});
  }

  /** kfree of a page directory; it has to be allocated still. */
  method FreePd(mmu: Mmu, d: u32)
    requires d in mmu.t.pds
    modifies mmu
    ensures mmu.t == old(mmu.t).(pds := old(mmu.t).pds - {d})
  {
    mmu.t := mmu.t.(pds := mmu.t.pds - {d});
  }

  /** The second loop of mm_destroy_paging_struct_arch. */
  method FreePts(mmu: Mmu, p: u32, pages: seq<u32>, ghost was: Tables) returns (freed: seq<u32>)
    requires Teardown(was, p, pages) && UpperKept(mmu.t, was, {})
    modifies mmu
    ensures Distinct(freed) && Elements(freed) == PtsOf(was, p, pages)
    ensures UpperKept(mmu.t, was, PtsOf(was, p, pages)) && mmu.t.pts == old(mmu.t).pts - PtsOf(was, p, pages)
  {
    hide Sized, Closed, Unshared, Promoted, PtOf, PdOf, Distinct, Elements, PtsOf, P.Ascending;
    ghost var before := mmu.t.pts;
    var pt: u32 := 0;
    freed := [];
    NothingYet(was, p, pages);
    for n := 0 to |pages|
      invariant Distinct(freed) && Elements(freed) == PtsOf(was, p, pages[..n])
      invariant pt == if n == 0 then 0 else PtOf(was, p, pages[n - 1])
      invariant UpperKept(mmu.t, was, PtsOf(was, p, pages[..n])) && mmu.t.pts == before - PtsOf(was, p, pages[..n])
    {
      MetBefore(was, p, pages, n);
      HasTables(was, p, pages, n);
      var pttmp := PtFromVaddr(mmu, p, pages[n], was, PtsOf(was, p, pages[..n]));
      if pt != pttmp {
        pt := pttmp;
        FreePt(mmu, pt);
        AppendDistinct(freed, pt);
        freed := freed + [pt];
      }
    }
    assert pages[..|pages|] == pages;
  }

  /** The third loop of mm_destroy_paging_struct_arch. */
  method FreePds(mmu: Mmu, p: u32, pages: seq<u32>, ghost was: Tables) returns (freed: seq<u32>)
    requires Teardown(was, p, pages) && mmu.t.pdpts == was.pdpts && mmu.t.pds == was.pds
    modifies mmu
    ensures Distinct(freed) && Elements(freed) == PdsOf(was, p, pages)
    ensures mmu.t == old(mmu.t).(pds := was.pds - PdsOf(was, p, pages))
  {
    hide Sized, Closed, Unshared, Promoted, PtOf, Distinct, Elements, PdsOf, P.Ascending, PdptIndex, TablePointer;
    var pd: u32 := 0;
    freed := [];
    NothingYet(was, p, pages);
    for n := 0 to |pages|
      invariant Distinct(freed) && Elements(freed) == PdsOf(was, p, pages[..n])
      invariant pd == if n == 0 then 0 else PdOf(was, p, pages[n - 1])
      invariant mmu.t == old(mmu.t).(pds := was.pds - PdsOf(was, p, pages[..n]))
    {
      MetBefore(was, p, pages, n);
      HasTables(was, p, pages, n);
      IndexBounds(pages[n]);
      var pdtmp := PdSlot(mmu.t, p, PdptIndex(pages[n]));
      if pd != pdtmp {
        pd := pdtmp;
        FreePd(mmu, pd);
        AppendDistinct(freed, pd);
        freed := freed + [pd];
      }
    }
    assert pages[..|pages|] == pages;
  }

  /** The first loop clears the entry of every tracked page. Its ffree_one reads the frame after the
      entry is cleared, so it is always frame 0 that it returns: the mark of frame 0 goes, and with it those
      of frames 32 to 63, but no tracked page's frame is ever given back. */
  method ClearEntries(mmu: Mmu, frames: F.FrameAllocator, p: u32, pages: seq<u32>)
    requires Teardown(mmu.t, p, pages) && frames.Valid()
    modifies mmu, frames.pool
    ensures frames.Valid() && UpperKept(mmu.t, old(mmu.t), {})
    ensures forall e :: e in mmu.t.pts && e !in PtsOf(old(mmu.t), p, pages) ==> mmu.t.pts[e] == old(mmu.t).pts[e]
    ensures OnlyFrameZero(frames.pool[..], old(frames.pool[..]), |pages|)
    ensures old(frames.HeldMarked()) ==> frames.HeldMarked()
  {
    hide F.FrameAllocator.HeldMarked, F.FrameAllocator.Marked;
    hide Closed, Unshared, Promoted, PtOf, P.Ascending, F.FrameAllocator.Valid;
    ghost var was := mmu.t;
    assert OnlyFrameZero(frames.pool[..], old(frames.pool[..]), 0) by { FullPool(frames); }
    for n := 0 to |pages|
      invariant frames.Valid() && UpperKept(mmu.t, was, {}) && OnlyFrameZero(frames.pool[..], old(frames.pool[..]), n)
      invariant old(frames.HeldMarked()) ==> frames.HeldMarked()
      invariant forall e :: e in mmu.t.pts ==> |mmu.t.pts[e]| == 512 && (e !in PtsOf(was, p, pages) ==> mmu.t.pts[e] == was.pts[e])
    {
      HasTables(was, p, pages, n);
      IndexBounds(pages[n]);
      var e := PtFromVaddr(mmu, p, pages[n], was, {});
      var k := PtIndex(pages[n]);
      mmu.t := mmu.t.(pts := mmu.t.pts[e := mmu.t.pts[e][k := mmu.t.pts[e][k].(frameBase := 0, present := false)]]);
      NullEntry();
      FreeFrameZero(frames, BaseAddress(mmu.t.pts[e][k].frameBase), old(frames.pool[..]), n);
    }
  }

  /** The frame bitmap after frame 0 was freed n times. */
  ghost predicate OnlyFrameZero(now: seq<F.bits64>, was: seq<F.bits64>, n: nat) {
    && |now| == |was| == F.POOL_SIZE
    && (forall w :: 1 <= w < F.POOL_SIZE ==> now[w] == was[w])
    && (forall g :: 0 <= g < 64 ==> now[0][g] == (was[0][g] && (n == 0 || !F.Unmarks(0, g))))
  }

  lemma FullPool(frames: F.FrameAllocator)
    requires frames.Valid()
    ensures frames.pool.Length == F.POOL_SIZE
  {
  }

  method FreeFrameZero(frames: F.FrameAllocator, base: u32, ghost was: seq<F.bits64>, ghost n: nat)
    requires frames.Valid() && base == 0 && OnlyFrameZero(frames.pool[..], was, n)
    modifies frames.pool
    ensures frames.Valid() && OnlyFrameZero(frames.pool[..], was, n + 1)
    ensures old(frames.HeldMarked()) ==> frames.HeldMarked()
  {
    ghost var before := frames.pool[..];
    frames.FreeOne(base);
    forall w, b | 0 <= w < F.POOL_SIZE && 0 <= b < 64
      ensures frames.pool[w][b] == (before[w][b] && !F.Unmarks(0, 64 * w + b))
    {
      assert frames.Marked(64 * w + b) == (before[w][b] && !F.Unmarks(0, 64 * w + b));
    }
    assert forall w :: 1 <= w < F.POOL_SIZE ==> frames.pool[w] == before[w];
  }

  /** The three loops and the pointer table. */
  method FreeTables(mmu: Mmu, frames: F.FrameAllocator, p: u32, pages: seq<u32>) returns (pts: seq<u32>, pds: seq<u32>)
    requires Teardown(mmu.t, p, pages) && frames.Valid()
    modifies mmu, frames.pool
    ensures frames.Valid() && mmu.t == Without(old(mmu.t), p, pages)
    ensures Distinct(pts) && Elements(pts) == PtsOf(old(mmu.t), p, pages)
    ensures Distinct(pds) && Elements(pds) == PdsOf(old(mmu.t), p, pages)
    ensures OnlyFrameZero(frames.pool[..], old(frames.pool[..]), |pages|)
    ensures old(frames.HeldMarked()) ==> frames.HeldMarked()
  {
    hide Sized, Closed, Unshared, Promoted, F.FrameAllocator.Valid, F.FrameAllocator.HeldMarked, OnlyFrameZero,
         Distinct, Elements, PtsOf, PdsOf;
    ghost var was := mmu.t;
    ClearEntries(mmu, frames, p, pages);
    pts := FreePts(mmu, p, pages, was);
    pds := FreePds(mmu, p, pages, was);
    mmu.t := mmu.t.(pdpts := mmu.t.pdpts - {p});
    assert mmu.t.pts == was.pts - PtsOf(was, p, pages);
  }

  lemma NothingYet(t: Tables, p: u32, pages: seq<u32>)
    requires Wf(t) && p in t.pdpts
    ensures PtsOf(t, p, pages[..0]) == {} == PdsOf(t, p, pages[..0]) && Distinct([]) && Elements([]) == {}
  {
  }

  lemma HasTables(t: Tables, p: u32, pages: seq<u32>, n: nat)
    requires Teardown(t, p, pages) && n < |pages|
    ensures PtOf(t, p, pages[n]) != 0 && PtOf(t, p, pages[n]) in t.pts
    ensures PdOf(t, p, pages[n]) != 0 && PdOf(t, p, pages[n]) in t.pds
    ensures |t.pdpts[p]| == 4
  {
    hide TablePointer, Unshared, Promoted;
    assert pages[n] in pages;
    IndexBounds(pages[n]);
  }

  /** The pages given to a space can be torn down. */
  lemma TrackedCanGo(t: Tables, given: Given, p: u32, pages: seq<u32>)
    requires Wf(t) && p in t.pdpts && GivenOk(t, given) && P.Ascending(pages)
    requires forall va: u32 :: va in pages ==> (if va < 3 * GIB then (p, va) in given else PtOf(t, p, va) != 0)
    ensures Teardown(t, p, pages)
  {
    hide Sized, Closed, Unshared, Promoted, PtOf;
    forall va | va in pages ensures PtOf(t, p, va) != 0 {
      if va < 3 * GIB { assert (p, va) in given && Frame(t, p, va) != 0; }
    }
  }

  class UserMemory {
    const mmu: Mmu
    const frames: F.FrameAllocator
    /** The frame of every page given out below the kernel, by address space and address. */
    ghost var given: Given

    ghost function Now(): Memory
      reads this, mmu, frames
    {
      Memory(mmu.t, given, frames.held)
    }

    ghost predicate Valid()
      reads this, mmu, frames, frames.pool
    {
      frames.Valid() && MemoryOk(Now())
    }

    constructor (mmu: Mmu, frames: F.FrameAllocator)
      requires Wf(mmu.t) && frames.Valid()
      ensures Valid() && given == map[] && this.mmu == mmu && this.frames == frames
    {
      this.mmu := mmu;
      this.frames := frames;
      given := map[];
    }

    /** Below the kernel, ps tracks exactly the pages given to space p. */
    ghost predicate Tracks(ps: P.PagingStruct, p: u32)
      reads this, frames, ps, ps.allocatedPages
    {
      ps.Valid() && ps.allocatedPages as object != frames.pool &&
      forall va: u32 :: va < 3 * GIB ==> (va in ps.Pages() <==> (p, va) in given)
    }

    /** No frame is left for user pages. */
    ghost predicate NoFrame()
      requires frames.Valid()
      reads frames, frames.pool
    {
      forall f :: 64 <= f <= frames.Position() ==> frames.Marked(f)
    }

    /** kmalloc_aligned refuses a table that the page needs. */
    ghost predicate NoTable(p: u32, va: u32, pdAddress: u32, ptAddress: u32)
      requires Wf(mmu.t) && p in mmu.t.pdpts
      reads mmu
    {
      (PdOf(mmu.t, p, va) == 0 && pdAddress == 0) || (PtOf(mmu.t, p, va) == 0 && ptAddress == 0)
    }

    /** What a page given out, or mapped into the kernel quarter, is as an event. */
    ghost function Gives(p: u32, va: u32, frame: int, f: Flags): Event
      requires 0 <= frame < WORD / PAGE_SIZE
    {
      if va < 3 * GIB then Give(p, va, frame, f) else Other(Map(p, va, frame * PAGE_SIZE, f))
    }

    /** mm_new_user_page. The last three arguments are what the allocator would answer. Nothing keeps the
        caller from asking for a page in the kernel quarter. */
    method NewUserPage(ps: P.PagingStruct, p: u32, va: u32, f: Flags, pdAddress: u32, ptAddress: u32, granted: bool)
      returns (r: P.TrackResult)
      requires Valid() && Tracks(ps, p) && p in mmu.t.pdpts && va % PAGE_SIZE == 0
      requires Allocatable(mmu.t.pds, pdAddress) && Allocatable(mmu.t.pts, ptAddress)
      modifies this, mmu, frames, frames.pool, ps, ps.allocatedPages
      ensures mmu.t.pdpts.Keys == old(mmu.t).pdpts.Keys
      ensures r != P.Panic ==> Valid() && Tracks(ps, p) && r in {P.Status(0), P.Status(-ENOMEM)}
      ensures r == P.Status(-ENOMEM) ==> SameTranslations(old(mmu.t), mmu.t) && Happens(old(Now()), Now(), Other(Fail))
      ensures r == P.Status(0) ==>
                var frame := frames.Position();
                0 < frame < WORD / PAGE_SIZE && frame !in old(frames.held) && frame in frames.held &&
                Happens(old(Now()), Now(), Gives(p, va, frame, f.(user := true))) &&
                MapsOnly(old(mmu.t), mmu.t, p, va, frame * PAGE_SIZE, f.(user := true)) &&
                Effective(mmu.t, p, va) == Some(f.(user := true)) && UserAccess(mmu.t, p, va)
      ensures r == P.Status(0) && old(frames.HeldMarked()) ==> frames.HeldMarked()
      ensures r == P.Status(-ENOMEM) && old(frames.HeldMarked()) ==>
                (frames.HeldMarked() <==> old(NoFrame()) || forall h :: h in frames.held ==> !F.Unmarks(frames.Position(), h))
      ensures r == P.Status(-ENOMEM) <==> old(NoFrame()) || old(NoTable(p, va, pdAddress, ptAddress))
      ensures r == P.Panic ==> va in old(ps.Pages()) || (!granted && old(ps.size == ps.allocatedPages.Length))
      ensures r == P.Status(0) ==> va !in old(ps.Pages()) && (granted || old(ps.size < ps.allocatedPages.Length))
    {
      hide Wf, GivenOk, MapsOnly, Opens, Step, Effective, UserAccess, SetsDirectoryUser, SameTranslations, KeepsSlots, Evolves, PdOf, PtOf;
      var pa := frames.OneUser();
      if pa == 0 {
        NothingChanged(mmu.t);
        return P.Status(-ENOMEM);
      }
      r := MapOrFree(ps, p, va, pa, f.(user := true), pdAddress, ptAddress, granted);
    }

    /** mm_new_user_page once it has a frame. */
    method MapOrFree(ps: P.PagingStruct, p: u32, va: u32, pa: u32, f: Flags, pdAddress: u32, ptAddress: u32, granted: bool)
      returns (r: P.TrackResult)
      requires Valid() && Tracks(ps, p) && p in mmu.t.pdpts && va % PAGE_SIZE == 0
      requires Allocatable(mmu.t.pds, pdAddress) && Allocatable(mmu.t.pts, ptAddress)
      requires pa > 0 && pa % PAGE_SIZE == 0 && pa / PAGE_SIZE == frames.Position() >= 64 && pa / PAGE_SIZE !in frames.held
      requires frames.Marked(frames.Position()) && !frames.atStart[frames.Position() / 64][frames.Position() % 64]
      modifies this, mmu, frames`held, frames.pool, ps, ps.allocatedPages
      ensures mmu.t.pdpts.Keys == old(mmu.t).pdpts.Keys
      ensures r == if old(NoTable(p, va, pdAddress, ptAddress)) then P.Status(-ENOMEM)
                   else if va in old(ps.Pages()) || (!granted && old(ps.size == ps.allocatedPages.Length)) then P.Panic
                   else P.Status(0)
      ensures r != P.Panic ==> Valid() && Tracks(ps, p)
      ensures r == P.Status(-ENOMEM) ==> SameTranslations(old(mmu.t), mmu.t) && Happens(old(Now()), Now(), Other(Fail))
      ensures r == P.Status(0) ==>
                pa / PAGE_SIZE in frames.held && Happens(old(Now()), Now(), Gives(p, va, pa / PAGE_SIZE, f)) &&
                MapsOnly(old(mmu.t), mmu.t, p, va, pa, f) && Effective(mmu.t, p, va) == Some(f) &&
                (UserAccess(mmu.t, p, va) <==> f.user)
      ensures r == P.Status(0) && old(frames.HeldMarked()) ==> frames.HeldMarked()
      ensures r == P.Status(-ENOMEM) && old(frames.HeldMarked()) ==>
                (frames.HeldMarked() <==> forall h :: h in frames.held ==> !F.Unmarks(frames.Position(), h))
    {
      hide Wf, GivenOk, MapsOnly, Opens, Step, Effective, UserAccess, SetsDirectoryUser, SameTranslations, KeepsSlots, Evolves, PdOf, PtOf;
      hide F.FrameAllocator.HeldMarked, F.FrameAllocator.Marked;
      var st := mmu.MapPage(p, va, pa, f, pdAddress, ptAddress);
      if st < 0 {
        StepKeepsGiven(old(mmu.t), mmu.t, Fail, given);
        frames.FreeOne(pa);
        return P.Status(st);
      }
      r := TrackAndHold(ps, p, va, pa, f, granted, old(mmu.t));
    }

    /** The tail of mm_new_user_page: a failure to track the page is fatal. */
    method TrackAndHold(ps: P.PagingStruct, p: u32, va: u32, pa: u32, f: Flags, granted: bool, ghost was: Tables)
      returns (r: P.TrackResult)
      requires Wf(mmu.t) && MemoryOk(Memory(was, given, frames.held)) && Step(was, mmu.t, Map(p, va, pa, f))
      requires va % PAGE_SIZE == 0 && pa > 0 && pa % PAGE_SIZE == 0 && Tracks(ps, p)
      requires frames.Valid() && pa / PAGE_SIZE == frames.Position() >= 64 && pa / PAGE_SIZE !in frames.held
      requires frames.Marked(frames.Position()) && !frames.atStart[frames.Position() / 64][frames.Position() % 64]
      modifies this, frames`held, ps, ps.allocatedPages
      ensures r == P.Status(0) || r == P.Panic
      ensures r == P.Status(0) ==>
                Valid() && Tracks(ps, p) && pa / PAGE_SIZE in frames.held &&
                Happens(Memory(was, old(given), old(frames.held)), Now(), Gives(p, va, pa / PAGE_SIZE, f))
      ensures r == P.Status(0) && old(frames.HeldMarked()) ==> frames.HeldMarked()
      ensures r == P.Panic <==> va in old(ps.Pages()) || (!granted && old(ps.size == ps.allocatedPages.Length))
    {
      hide Wf, GivenOk, Step, F.FrameAllocator.Valid, F.FrameAllocator.Marked, P.Ascending, P.Inserted;
      ghost var before := Memory(was, given, frames.held);
      r := ps.TrackPage(va, granted);
      if r != P.Status(0) {
        return P.Panic;
      }
      P.InsertedAscends(old(ps.Pages()), va);
      frames.Hold(pa);
      if va < 3 * GIB {
        given := given[(p, va) := pa / PAGE_SIZE];
      }
      EventKeeps(before, Now(), Gives(p, va, pa / PAGE_SIZE, f));
    }

    /** mm_destroy_paging_struct_arch. Every page table and page directory below the tracked pages is
        freed exactly once, the pointer table once. No other space notices, and nothing is left dangling,
        if and only if no tracked page is in the kernel quarter that other spaces share. */
    method DestroySpace(ps: P.PagingStruct, p: u32) returns (pts: seq<u32>, pds: seq<u32>)
      requires Valid() && Tracks(ps, p) && p in mmu.t.pdpts
      requires forall va :: va in ps.Pages() && va >= 3 * GIB ==> PtOf(mmu.t, p, va) != 0
      modifies this, mmu, frames.pool
      ensures frames.Valid() && given == old(WithoutSpace(given, p)) && frames.held == old(frames.held)
      ensures Teardown(old(mmu.t), p, ps.Pages())
      ensures Distinct(pts) && Elements(pts) == PtsOf(old(mmu.t), p, ps.Pages())
      ensures Distinct(pds) && Elements(pds) == PdsOf(old(mmu.t), p, ps.Pages())
      ensures mmu.t == Without(old(mmu.t), p, ps.Pages())
      ensures Wf(mmu.t) <==> Private(old(mmu.t), p, ps.Pages())
      ensures Private(old(mmu.t), p, ps.Pages()) ==> Valid() && Happens(old(Now()), Now(), Other(Destroy(p)))
      ensures Private(old(mmu.t), p, ps.Pages()) ==>
                forall q, va :: q in mmu.t.pdpts ==>
                  q in old(mmu.t).pdpts && Va2Pa(mmu.t, q, va) == Va2Pa(old(mmu.t), q, va) &&
                  Effective(mmu.t, q, va) == Effective(old(mmu.t), q, va)
      ensures OnlyFrameZero(frames.pool[..], old(frames.pool[..]), |ps.Pages()|)
      ensures old(frames.HeldMarked()) ==> frames.HeldMarked()
    {
      hide Sized, Closed, Unshared, Promoted, PtOf, PdOf, Frame, Granted, Va2Pa, F.FrameAllocator.Valid,
           F.FrameAllocator.HeldMarked, F.FrameAllocator.Marked, OnlyFrameZero, Distinct, Elements, PtsOf, PdsOf, Private;
      ghost var before := Now();
      ghost var pages := ps.Pages();
      TrackedCanGo(before.t, given, p, pages);
      var tracked := ps.allocatedPages[..ps.size];
      pts, pds := FreeTables(mmu, frames, p, tracked);
      given := WithoutSpace(given, p);
      TeardownIsSafeIff(before.t, p, pages);
      if Private(before.t, p, pages) {
        WithoutKeeps(before.t, p, pages);
        assert Step(before.t, mmu.t, Destroy(p));
        EventKeeps(before, Now(), Other(Destroy(p)));
      }
    }
  }
}

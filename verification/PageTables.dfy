/** arch/x86/mem: the three-level PAE structure, as entries in tables that live in kernel memory. */
module PageTables {
  import opened Machine

  const GIB: int := 0x4000_0000
  /** _kernel_map_offset: where kernel virtual addresses stand from physical ones. */
  const MAP_OFFSET: int := 0xC000_0000
  const KERNEL_SLOT: int := 3

  function Kpa2va(pa: u32): u32 { Wrap32(pa + MAP_OFFSET) }
  function Kva2pa(va: u32): u32 { Wrap32(va - MAP_OFFSET) }

  // ---------------------------------------------------------------- entries

  datatype Pdpte = Pdpte(present: bool, pdBase: nat)
  datatype Pde = Pde(present: bool, writable: bool, user: bool, execDisable: bool, tableBase: nat)
  datatype Pte = Pte(present: bool, writable: bool, user: bool, execDisable: bool, frameBase: nat)

  /** base << 12, cut to a ptr: pdpte_pd_paddr, pde_pt_paddr and pte_frame_paddr. */
  function BaseAddress(base: nat): u32 { Wrap32(base * PAGE_SIZE) }

  /** paddr >> 12 */
  function AddressBase(pa: u32): nat { pa / PAGE_SIZE }

  /** The pointer to the table an entry refers to, 0 for NULL: pdpte_pd_vaddr and pde_pt_vaddr. */
  function TablePointer(base: nat): u32 {
    if BaseAddress(base) == 0 then 0 else Kpa2va(BaseAddress(base))
  }

  /** What kmalloc_aligned(PAGESIZE) can return for a table: page aligned, and not physical address 0. */
  predicate TableAddress(va: u32) {
    va != 0 && va % PAGE_SIZE == 0 && Kva2pa(va) != 0
  }

  lemma EntryRoundTrip(va: u32)
    requires TableAddress(va)
    ensures TablePointer(AddressBase(Kva2pa(va))) == va
  {
    assert Kva2pa(va) % PAGE_SIZE == 0;
    assert BaseAddress(AddressBase(Kva2pa(va))) == Kva2pa(va);
  }

  lemma FrameRoundTrip(pa: u32)
    requires pa % PAGE_SIZE == 0
    ensures BaseAddress(AddressBase(pa)) == pa
  {
  }

  // ---------------------------------------------------------------- indices

  function PdptIndex(va: u32): nat { va / GIB }
  function PdIndex(va: u32): int { va / (PAGE_SIZE * 512) - va / (PAGE_SIZE * 512 * 512) * 512 }
  function PtIndex(va: u32): int { va / PAGE_SIZE - va / (PAGE_SIZE * 512) * 512 }

  lemma IndexBounds(va: u32)
    ensures PdptIndex(va) < 4 && 0 <= PdIndex(va) < 512 && 0 <= PtIndex(va) < 512
  {
  }

  /** Two addresses have the same three indices exactly when they are in the same page. */
  lemma IndicesAreThePage(va: u32, va': u32)
    ensures PdptIndex(va) == PdptIndex(va') && PdIndex(va) == PdIndex(va') && PtIndex(va) == PtIndex(va')
       <==> va / PAGE_SIZE == va' / PAGE_SIZE
  {
    PageNumber(va);
    PageNumber(va');
  }

  lemma PageNumber(va: u32)
    ensures va / PAGE_SIZE == (PdptIndex(va) * 512 + PdIndex(va)) * 512 + PtIndex(va)
    ensures va / PAGE_SIZE / 512 / 512 == PdptIndex(va) && va / PAGE_SIZE / 512 == va / (PAGE_SIZE * 512)
  {
  }

  // ---------------------------------------------------------------- tables in memory

  /** The tables by the address they are allocated at. */
  datatype Tables = Tables(pdpts: map<u32, seq<Pdpte>>, pds: map<u32, seq<Pde>>, pts: map<u32, seq<Pte>>)

  predicate Sized(t: Tables) {
    && (forall p :: p in t.pdpts ==> |t.pdpts[p]| == 4)
    && (forall d :: d in t.pds ==> |t.pds[d]| == 512)
    && (forall e :: e in t.pts ==> |t.pts[e]| == 512)
  }

  function PdSlot(t: Tables, p: u32, i: int): u32
    requires p in t.pdpts && 0 <= i < |t.pdpts[p]|
  {
    TablePointer(t.pdpts[p][i].pdBase)
  }

  function PtSlot(t: Tables, d: u32, j: int): u32
    requires d in t.pds && 0 <= j < |t.pds[d]|
  {
    TablePointer(t.pds[d][j].tableBase)
  }

  /** Pointers in entries lead to tables. */
  ghost predicate Closed(t: Tables)
    requires Sized(t)
  {
    && (forall p, i :: p in t.pdpts && 0 <= i < 4 && PdSlot(t, p, i) != 0 ==> PdSlot(t, p, i) in t.pds)
    && (forall d, j :: d in t.pds && 0 <= j < 512 && PtSlot(t, d, j) != 0 ==> PtSlot(t, d, j) in t.pts)
  }

  /** No table is referred to twice, except that spaces may share the kernel's page directory. */
  ghost predicate Unshared(t: Tables)
    requires Sized(t)
  {
    && (forall p, i, p', i' :: p in t.pdpts && p' in t.pdpts && 0 <= i < 4 && 0 <= i' < 4 &&
          PdSlot(t, p, i) != 0 && PdSlot(t, p, i) == PdSlot(t, p', i')
          ==> i == i' && (p == p' || i == KERNEL_SLOT))
    && (forall d, j, d', j' :: d in t.pds && d' in t.pds && 0 <= j < 512 && 0 <= j' < 512 &&
          PtSlot(t, d, j) != 0 && PtSlot(t, d, j) == PtSlot(t, d', j')
          ==> d == d' && j == j')
  }

  /** A directory entry grants whatever a table entry below it grants. */
  ghost predicate Promoted(t: Tables)
    requires Sized(t) && Closed(t)
  {
    && (forall d, j :: d in t.pds && 0 <= j < 512 && PtSlot(t, d, j) == 0 ==> !t.pds[d][j].execDisable)
    && (forall d, j, k :: d in t.pds && 0 <= j < 512 && PtSlot(t, d, j) != 0 && 0 <= k < 512 ==>
          Grants(t.pds[d][j], t.pts[PtSlot(t, d, j)][k]))
  }

  predicate Grants(pde: Pde, pte: Pte) {
    && (pte.writable ==> pde.writable) && (pde.execDisable ==> pte.execDisable)
    && (pte.present ==> pde.present)
  }

  ghost predicate Wf(t: Tables) {
    Sized(t) && Closed(t) && Unshared(t) && Promoted(t)
  }

  // ---------------------------------------------------------------- walks

  /** pd_from_vaddr_abs */
  function PdOf(t: Tables, p: u32, va: u32): u32
    requires Sized(t) && p in t.pdpts
  {
    IndexBounds(va);
    PdSlot(t, p, PdptIndex(va))
  }

  /** pt_from_vaddr_abs */
  function PtOf(t: Tables, p: u32, va: u32): u32
    requires Sized(t) && Closed(t) && p in t.pdpts
  {
    IndexBounds(va);
    var d := PdOf(t, p, va);
    if d == 0 then 0 else PtSlot(t, d, PdIndex(va))
  }

  /** The frame the page of va maps to, 0 when there is none. */
  function Frame(t: Tables, p: u32, va: u32): u32
    requires Sized(t) && Closed(t) && p in t.pdpts
  {
    IndexBounds(va);
    var e := PtOf(t, p, va);
    if e == 0 then 0 else BaseAddress(t.pts[e][PtIndex(va)].frameBase)
  }

  /** mm_va2pa_arch */
  function Va2Pa(t: Tables, p: u32, va: u32): u32
    requires Sized(t) && Closed(t) && p in t.pdpts
  {
    IndexBounds(va);
    var e := PtOf(t, p, va);
    if e == 0 then 0 else Wrap32(BaseAddress(t.pts[e][PtIndex(va)].frameBase) + va % PAGE_SIZE)
  }

  /** A mapped address translates to its frame plus its offset. An unmapped one gives 0, as mm_va2pa
      promises, exactly when it is page aligned or no page table covers it. */
  lemma Va2PaIsFrame(t: Tables, p: u32, va: u32)
    requires Sized(t) && Closed(t) && p in t.pdpts
    ensures Frame(t, p, va) != 0 ==> Va2Pa(t, p, va) == Frame(t, p, va) + va % PAGE_SIZE
    ensures Frame(t, p, va) == 0 ==> (Va2Pa(t, p, va) == 0 <==> va % PAGE_SIZE == 0 || PtOf(t, p, va) == 0)
  {
    var e := PtOf(t, p, va);
    IndexBounds(va);
    if e != 0 { AddOffset(t.pts[e][PtIndex(va)].frameBase, va); }
  }

  lemma AddOffset(base: nat, va: u32)
    ensures Wrap32(BaseAddress(base) + va % PAGE_SIZE) == BaseAddress(base) + va % PAGE_SIZE
  {
    assert BaseAddress(base) % PAGE_SIZE == 0;
  }

  /** What a caller asks for, and what entries grant. `user` is the table entry's bit; the directory entry has
      one of its own, DirectoryUser. */
  datatype Flags = Flags(write: bool, execute: bool, user: bool)

  /** What changing the flags of a page makes of what it granted: one that is not present stays so. */
  function Regranted(before: Option<Flags>, f: Flags): Option<Flags> {
    if before.Some? then Some(f) else None
  }

  /** What the directory entry and the table entry of va grant together: nothing unless both are present. */
  function Granted(t: Tables, p: u32, va: u32): Option<Flags>
    requires Sized(t) && Closed(t) && p in t.pdpts
  {
    IndexBounds(va);
    var e := PtOf(t, p, va);
    if e == 0 then None
    else
      var pde, pte := t.pds[PdOf(t, p, va)][PdIndex(va)], t.pts[e][PtIndex(va)];
      if pde.present && pte.present
      then Some(Flags(pde.writable && pte.writable, !pde.execDisable && !pte.execDisable, pte.user)) else None
  }

  /** The pointer table entry of va is present. */
  predicate Reaches(t: Tables, p: u32, va: u32)
    requires Sized(t) && p in t.pdpts
  {
    IndexBounds(va);
    t.pdpts[p][PdptIndex(va)].present
  }

  /** What the processor allows in a page: all three entries have to be present, and both lower levels
      have to allow it. */
  function Effective(t: Tables, p: u32, va: u32): Option<Flags>
    requires Sized(t) && Closed(t) && p in t.pdpts
  {
    if Reaches(t, p, va) then Granted(t, p, va) else None
  }

  /** The directory entry of va lets user code in. */
  predicate DirectoryUser(t: Tables, p: u32, va: u32)
    requires Sized(t) && Closed(t) && p in t.pdpts
  {
    IndexBounds(va);
    PtOf(t, p, va) != 0 && t.pds[PdOf(t, p, va)][PdIndex(va)].user
  }

  /** User code may use the page: it can be walked, and both lower levels let user code in. */
  predicate UserAccess(t: Tables, p: u32, va: u32)
    requires Sized(t) && Closed(t) && p in t.pdpts
  {
    Effective(t, p, va).Some? && Effective(t, p, va).value.user && DirectoryUser(t, p, va)
  }

  /** Page tables stay where they are, and so do the directory entries' user bits. */
  ghost predicate KeepsTables(t: Tables, t': Tables)
    requires Sized(t) && Closed(t) && Sized(t') && Closed(t') && t'.pdpts.Keys == t.pdpts.Keys
  {
    forall p, va :: p in t.pdpts && PtOf(t, p, va) != 0 ==>
      PtOf(t', p, va) == PtOf(t, p, va) && (DirectoryUser(t', p, va) <==> DirectoryUser(t, p, va))
  }

  ghost predicate SameTables(t: Tables, t': Tables)
    requires Sized(t) && Closed(t) && Sized(t') && Closed(t') && t'.pdpts.Keys == t.pdpts.Keys
  {
    forall p, va :: p in t.pdpts ==>
      PtOf(t', p, va) == PtOf(t, p, va) && (DirectoryUser(t', p, va) <==> DirectoryUser(t, p, va))
  }

  lemma SetsThenSame(t: Tables, t': Tables, t'': Tables, p: u32, va: u32, user: bool)
    requires Wf(t) && Wf(t') && Wf(t'') && t'.pdpts.Keys == t.pdpts.Keys == t''.pdpts.Keys && p in t.pdpts
    requires SetsDirectoryUser(t, t', p, va, user) && SameTables(t', t'')
    ensures SetsDirectoryUser(t, t'', p, va, user)
  {
    hide Sized, Closed, Unshared, Promoted, PtOf, DirectoryUser;
  }

  /** The directory entry of va, and no other, has its user bit set as said. */
  ghost predicate SetsDirectoryUser(t: Tables, t': Tables, p: u32, va: u32, user: bool)
    requires Sized(t) && Closed(t) && Sized(t') && Closed(t') && t'.pdpts.Keys == t.pdpts.Keys && p in t.pdpts
  {
    PtOf(t', p, va) != 0 &&
    forall p', va' :: p' in t.pdpts ==>
      if PtOf(t', p', va') == PtOf(t', p, va) then DirectoryUser(t', p', va') <==> user
      else PtOf(t, p', va') != 0 ==> (DirectoryUser(t', p', va') <==> DirectoryUser(t, p', va'))
  }

  // ---------------------------------------------------------------- writes

  function EmptyPd(): seq<Pde> { seq(512, _ => Pde(false, false, false, false, 0)) }
  function EmptyPt(): seq<Pte> { seq(512, _ => Pte(false, false, false, false, 0)) }

  /** A zeroed page directory at d, entered in slot i of p. */
  function WithPd(t: Tables, p: u32, i: int, d: u32): Tables
    requires p in t.pdpts && 0 <= i < |t.pdpts[p]|
  {
    var entry := t.pdpts[p][i].(pdBase := AddressBase(Kva2pa(d)));
    t.(pdpts := t.pdpts[p := t.pdpts[p][i := entry]], pds := t.pds[d := EmptyPd()])
  }

  /** A zeroed page table at e, entered in slot j of d. */
  function WithPt(t: Tables, d: u32, j: int, e: u32): Tables
    requires d in t.pds && 0 <= j < |t.pds[d]|
  {
    var entry := t.pds[d][j].(tableBase := AddressBase(Kva2pa(e)));
    t.(pds := t.pds[d := t.pds[d][j := entry]], pts := t.pts[e := EmptyPt()])
  }

  /** What an update of one space may do to the top level: fill an empty slot of that space. */
  ghost predicate KeepsSlots(t: Tables, t': Tables, p: u32, i: int)
    requires Sized(t) && Sized(t')
  {
    && t'.pdpts.Keys == t.pdpts.Keys
    && forall p', i' :: p' in t.pdpts && 0 <= i' < 4 && !(p' == p && i' == i && PdSlot(t, p, i) == 0) ==>
         PdSlot(t', p', i') == PdSlot(t, p', i')
  }

  /** No translation and no permission changed. */
  ghost predicate SameTranslations(t: Tables, t': Tables)
    requires Sized(t) && Closed(t) && Sized(t') && Closed(t') && t'.pdpts.Keys == t.pdpts.Keys
  {
    forall p, va :: p in t.pdpts ==>
      Frame(t', p, va) == Frame(t, p, va) && Granted(t', p, va) == Granted(t, p, va) &&
      (Reaches(t', p, va) <==> Reaches(t, p, va))
  }

  /** The slots after a directory was entered. */
  lemma PdSlots(t: Tables, p: u32, i: int, d: u32)
    requires Sized(t) && p in t.pdpts && 0 <= i < 4 && TableAddress(d) && d !in t.pds
    ensures var t' := WithPd(t, p, i, d);
            Sized(t') && d in t'.pds && (forall j :: 0 <= j < 512 ==> PtSlot(t', d, j) == 0) &&
            (forall p', i' :: p' in t.pdpts && 0 <= i' < 4 ==>
               PdSlot(t', p', i') == if p' == p && i' == i then d else PdSlot(t, p', i')) &&
            forall d', j :: d' in t.pds && 0 <= j < 512 ==> PtSlot(t', d', j) == PtSlot(t, d', j)
  {
    hide TablePointer, AddressBase, Kva2pa;
    EntryRoundTrip(d);
    NullEntry();
  }

  lemma AddPd(t: Tables, p: u32, i: int, d: u32)
    requires Wf(t) && p in t.pdpts && 0 <= i < 4 && PdSlot(t, p, i) == 0
    requires TableAddress(d) && d !in t.pds
    ensures var t' := WithPd(t, p, i, d);
            Wf(t') && KeepsSlots(t, t', p, i) && PdSlot(t', p, i) == d && SameTranslations(t, t') && KeepsTables(t, t') &&
            d in t'.pds && forall j :: 0 <= j < 512 ==> PtSlot(t', d, j) == 0
  {
    hide PdSlot, PtSlot, TableAddress;
    PdSlots(t, p, i, d);
    var t' := WithPd(t, p, i, d);
    assert Wf(t');
    hide Closed, Unshared, Promoted;
    forall p', va | p' in t.pdpts
      ensures Frame(t', p', va) == Frame(t, p', va) && Granted(t', p', va) == Granted(t, p', va)
      ensures Reaches(t', p', va) <==> Reaches(t, p', va)
      ensures PtOf(t, p', va) != 0 ==>
                PtOf(t', p', va) == PtOf(t, p', va) && (DirectoryUser(t', p', va) <==> DirectoryUser(t, p', va))
    {
      PdSilent(t, p, i, d, p', va);
    }
  }

  lemma PdSilent(t: Tables, p: u32, i: int, d: u32, p': u32, va: u32)
    requires Wf(t) && p in t.pdpts && p' in t.pdpts && 0 <= i < 4 && PdSlot(t, p, i) == 0
    requires TableAddress(d) && d !in t.pds && Wf(WithPd(t, p, i, d))
    ensures var t' := WithPd(t, p, i, d);
            Frame(t', p', va) == Frame(t, p', va) && Granted(t', p', va) == Granted(t, p', va) &&
            (Reaches(t', p', va) <==> Reaches(t, p', va)) &&
            (PtOf(t, p', va) != 0 ==>
               PtOf(t', p', va) == PtOf(t, p', va) && (DirectoryUser(t', p', va) <==> DirectoryUser(t, p', va)))
  {
    hide PdSlot, PtSlot, TableAddress, Unshared, Promoted;
    PdSlots(t, p, i, d);
    IndexBounds(va);
  }

  lemma NullEntry()
    ensures TablePointer(0) == 0 && BaseAddress(0) == 0
  {
  }

  /** The slots after a page table was entered. */
  lemma PtSlots(t: Tables, d: u32, j: int, e: u32)
    requires Sized(t) && d in t.pds && 0 <= j < 512 && TableAddress(e)
    ensures var t' := WithPt(t, d, j, e);
            Sized(t') && (forall p, i :: p in t.pdpts && 0 <= i < 4 ==> PdSlot(t', p, i) == PdSlot(t, p, i)) &&
            forall d', j' :: d' in t.pds && 0 <= j' < 512 ==>
              PtSlot(t', d', j') == if d' == d && j' == j then e else PtSlot(t, d', j')
  {
    hide TablePointer, AddressBase, Kva2pa;
    EntryRoundTrip(e);
  }

  lemma AddPt(t: Tables, d: u32, j: int, e: u32)
    requires Wf(t) && d in t.pds && 0 <= j < 512 && PtSlot(t, d, j) == 0
    requires TableAddress(e) && e !in t.pts
    ensures var t' := WithPt(t, d, j, e);
            Wf(t') && t'.pdpts == t.pdpts && PtSlot(t', d, j) == e && SameTranslations(t, t') && KeepsTables(t, t')
  {
    hide PdSlot, PtSlot, TableAddress;
    PtSlots(t, d, j, e);
    var t' := WithPt(t, d, j, e);
    assert Wf(t');
    hide Closed, Unshared, Promoted;
    forall p', va | p' in t.pdpts
      ensures Frame(t', p', va) == Frame(t, p', va) && Granted(t', p', va) == Granted(t, p', va)
      ensures Reaches(t', p', va) <==> Reaches(t, p', va)
      ensures PtOf(t, p', va) != 0 ==>
                PtOf(t', p', va) == PtOf(t, p', va) && (DirectoryUser(t', p', va) <==> DirectoryUser(t, p', va))
    {
      PtSilent(t, d, j, e, p', va);
    }
  }

  lemma PtSilent(t: Tables, d: u32, j: int, e: u32, p': u32, va: u32)
    requires Wf(t) && d in t.pds && p' in t.pdpts && 0 <= j < 512 && PtSlot(t, d, j) == 0
    requires TableAddress(e) && e !in t.pts && Wf(WithPt(t, d, j, e))
    ensures var t' := WithPt(t, d, j, e);
            Frame(t', p', va) == Frame(t, p', va) && Granted(t', p', va) == Granted(t, p', va) &&
            (Reaches(t', p', va) <==> Reaches(t, p', va)) &&
            (PtOf(t, p', va) != 0 ==>
               PtOf(t', p', va) == PtOf(t, p', va) && (DirectoryUser(t', p', va) <==> DirectoryUser(t, p', va)))
  {
    hide PdSlot, PtSlot, TableAddress, Unshared, Promoted;
    PtSlots(t, d, j, e);
    NullEntry();
    IndexBounds(va);
  }

  /** mm_set_pte_and_pde_flags: the directory entry is only ever promoted. */
  function FlaggedPde(pde: Pde, f: Flags): Pde {
    Pde(pde.present, pde.writable || f.write, f.user, pde.execDisable && !f.execute, pde.tableBase)
  }

  function FlaggedPte(pte: Pte, f: Flags): Pte {
    Pte(pte.present, f.write, f.user, !f.execute, pte.frameBase)
  }

  /** The entries of va in space p after a permission change, with the table entry's frame replaced. */
  function WithEntry(t: Tables, p: u32, va: u32, frameBase: nat, present: bool, f: Flags): Tables
    requires Sized(t) && Closed(t) && p in t.pdpts && PtOf(t, p, va) != 0
  {
    IndexBounds(va);
    var d, e := PdOf(t, p, va), PtOf(t, p, va);
    var j, k := PdIndex(va), PtIndex(va);
    var pde, pte := t.pds[d][j], t.pts[e][k];
    var pde' := FlaggedPde(pde.(present := pde.present || present), f);
    var pte' := FlaggedPte(pte.(frameBase := frameBase, present := pte.present || present), f);
    t.(pds := t.pds[d := t.pds[d][j := pde']], pts := t.pts[e := t.pts[e][k := pte']])
  }

  /** va' in space p' is the very page va in space p: the same page of the same space, or of the
      kernel quarter that both share. */
  predicate SamePlace(t: Tables, p: u32, va: u32, p': u32, va': u32)
    requires Sized(t) && p in t.pdpts && p' in t.pdpts
  {
    va / PAGE_SIZE == va' / PAGE_SIZE &&
    (p == p' || (PdptIndex(va) == KERNEL_SLOT && PdSlot(t, p', KERNEL_SLOT) == PdSlot(t, p, KERNEL_SLOT)))
  }

  /** A place is one table entry, and different places are different entries. */
  lemma PlaceIsEntry(t: Tables, p: u32, va: u32, p': u32, va': u32)
    requires Wf(t) && p in t.pdpts && p' in t.pdpts && PtOf(t, p, va) != 0
    ensures SamePlace(t, p, va, p', va') <==> PtOf(t, p', va') == PtOf(t, p, va) && PtIndex(va') == PtIndex(va)
    ensures PtOf(t, p', va') == PtOf(t, p, va) ==> PdOf(t, p', va') == PdOf(t, p, va) && PdIndex(va') == PdIndex(va)
  {
    hide TablePointer, PdptIndex, PdIndex, PtIndex;
    IndexBounds(va);
    IndexBounds(va');
    IndicesAreThePage(va, va');
  }

  lemma SetEntry(t: Tables, p: u32, va: u32, frameBase: nat, present: bool, f: Flags)
    requires Wf(t) && p in t.pdpts && PtOf(t, p, va) != 0
    ensures var t' := WithEntry(t, p, va, frameBase, present, f);
            Wf(t') && t'.pdpts == t.pdpts &&
            forall p', va' :: p' in t.pdpts ==>
              if SamePlace(t, p, va, p', va') then
                Frame(t', p', va') == BaseAddress(frameBase) &&
                Granted(t', p', va') == (if present then Some(f) else Regranted(Granted(t, p, va), f))
              else Frame(t', p', va') == Frame(t, p', va') && Granted(t', p', va') == Granted(t, p', va')
  {
    hide TablePointer, PdptIndex, PdIndex, PtIndex;
    var t' := WithEntry(t, p, va, frameBase, present, f);
    IndexBounds(va);
    var d, e := PdOf(t, p, va), PtOf(t, p, va);
    var j, k := PdIndex(va), PtIndex(va);
    assert forall p, i :: p in t.pdpts && 0 <= i < 4 ==> PdSlot(t', p, i) == PdSlot(t, p, i);
    assert forall d, j :: d in t.pds && 0 <= j < 512 ==> PtSlot(t', d, j) == PtSlot(t, d, j);
    StillGrants(t.pds[d][j], t.pts[e][k], frameBase, present, f);
    assert Wf(t');
    forall p', va' | p' in t.pdpts
      ensures if SamePlace(t, p, va, p', va') then
                Frame(t', p', va') == BaseAddress(frameBase) &&
                Granted(t', p', va') == (if present then Some(f) else Regranted(Granted(t, p, va), f))
              else Frame(t', p', va') == Frame(t, p', va') && Granted(t', p', va') == Granted(t, p', va')
    {
      SetEntryAt(t, p, va, frameBase, present, f, p', va');
    }
  }

  lemma SetEntryDirectory(t: Tables, p: u32, va: u32, frameBase: nat, present: bool, f: Flags)
    requires Wf(t) && p in t.pdpts && PtOf(t, p, va) != 0 && Wf(WithEntry(t, p, va, frameBase, present, f))
    ensures SetsDirectoryUser(t, WithEntry(t, p, va, frameBase, present, f), p, va, f.user)
  {
    hide Closed, Unshared, Promoted, PtOf, DirectoryUser, WithEntry;
    var t' := WithEntry(t, p, va, frameBase, present, f);
    assert t'.pdpts == t.pdpts by { EntryKeepsTop(t, p, va, frameBase, present, f); }
    forall p', va' | p' in t.pdpts
      ensures PtOf(t', p', va') == PtOf(t, p', va')
      ensures if PtOf(t', p', va') == PtOf(t, p, va) then DirectoryUser(t', p', va') <==> f.user
              else DirectoryUser(t', p', va') <==> DirectoryUser(t, p', va')
    {
      SetEntryAt(t, p, va, frameBase, present, f, p', va');
    }
  }

  lemma EntryKeepsTop(t: Tables, p: u32, va: u32, frameBase: nat, present: bool, f: Flags)
    requires Wf(t) && p in t.pdpts && PtOf(t, p, va) != 0
    ensures WithEntry(t, p, va, frameBase, present, f).pdpts == t.pdpts
  {
  }

  /** Promotion keeps every entry below granted, the new one included. */
  lemma StillGrants(pde: Pde, pte: Pte, frameBase: nat, present: bool, f: Flags)
    requires Grants(pde, pte)
    ensures var pde' := FlaggedPde(pde.(present := pde.present || present), f);
            Grants(pde', FlaggedPte(pte.(frameBase := frameBase, present := pte.present || present), f)) &&
            forall other :: Grants(pde, other) ==> Grants(pde', other)
  {
  }

  lemma SetEntryAt(t: Tables, p: u32, va: u32, frameBase: nat, present: bool, f: Flags, p': u32, va': u32)
    requires Wf(t) && p in t.pdpts && p' in t.pdpts && PtOf(t, p, va) != 0
    requires Wf(WithEntry(t, p, va, frameBase, present, f))
    ensures var t' := WithEntry(t, p, va, frameBase, present, f);
            if SamePlace(t, p, va, p', va') then
              Frame(t', p', va') == BaseAddress(frameBase) &&
              Granted(t', p', va') == (if present then Some(f) else Regranted(Granted(t, p, va), f))
            else Frame(t', p', va') == Frame(t, p', va') && Granted(t', p', va') == Granted(t, p', va')
    ensures var t' := WithEntry(t, p, va, frameBase, present, f);
            PtOf(t', p', va') == PtOf(t, p', va') &&
            if PtOf(t', p', va') == PtOf(t, p, va) then DirectoryUser(t', p', va') <==> f.user
            else DirectoryUser(t', p', va') <==> DirectoryUser(t, p', va')
  {
    hide TablePointer, PdptIndex, PdIndex, PtIndex;
    IndexBounds(va);
    IndexBounds(va');
    PlaceIsEntry(t, p, va, p', va');
    var d, e := PdOf(t, p, va), PtOf(t, p, va);
    assert PtOf(t, p', va') == e ==> Grants(t.pds[d][PdIndex(va)], t.pts[e][PtIndex(va')]);
  }

  // ---------------------------------------------------------------- operations


  /** Only the page of va, wherever it is visible, changed: it now maps to pa, and the lower two levels
      grant what is said. */
  ghost predicate Becomes(t: Tables, t': Tables, p: u32, va: u32, pa: u32, grant: Option<Flags>)
    requires Wf(t) && Wf(t') && t'.pdpts.Keys == t.pdpts.Keys && p in t.pdpts
  {
    forall p', va' :: p' in t.pdpts ==>
      if SamePlace(t', p, va, p', va') then Frame(t', p', va') == pa && Granted(t', p', va') == grant
      else Frame(t', p', va') == Frame(t, p', va') && Granted(t', p', va') == Granted(t, p', va')
  }

  ghost predicate MapsOnly(t: Tables, t': Tables, p: u32, va: u32, pa: u32, f: Flags)
    requires Wf(t) && Wf(t') && t'.pdpts.Keys == t.pdpts.Keys && p in t.pdpts
  {
    Becomes(t, t', p, va, pa, Some(f))
  }

  /** Only the permissions of the page of va changed, if it granted anything. */
  ghost predicate ChangesOnly(t: Tables, t': Tables, p: u32, va: u32, f: Flags)
    requires Wf(t) && Wf(t') && t'.pdpts.Keys == t.pdpts.Keys && p in t.pdpts
  {
    Becomes(t, t', p, va, Frame(t, p, va), Regranted(Granted(t, p, va), f))
  }

  /** The GiB of va can be walked in space p, and no other changed in that. */
  ghost predicate Opens(t: Tables, t': Tables, p: u32, va: u32)
    requires Sized(t) && Sized(t') && t'.pdpts.Keys == t.pdpts.Keys && p in t.pdpts
  {
    forall p', va' :: p' in t.pdpts ==>
      (Reaches(t', p', va') <==> Reaches(t, p', va') || (p' == p && PdptIndex(va') == PdptIndex(va)))
  }

  /** The space is kept, and a directory once entered stays, and stays present. */
  ghost predicate Keeps(t: Tables, t': Tables, p: u32)
    requires Sized(t) && Sized(t') && p in t.pdpts
  {
    p in t'.pdpts && forall i :: 0 <= i < 4 && PdSlot(t, p, i) != 0 ==>
      PdSlot(t', p, i) == PdSlot(t, p, i) && (t.pdpts[p][i].present ==> t'.pdpts[p][i].present)
  }

  ghost predicate Evolves(t: Tables, t': Tables)
    requires Sized(t) && Sized(t')
  {
    forall p :: p in t.pdpts ==> Keeps(t, t', p)
  }

  /** What kmalloc_aligned may return when asked for a table: NULL, or an address in no use. */
  predicate Allocatable<T>(tables: map<u32, T>, address: u32) {
    address == 0 || (TableAddress(address) && address !in tables)
  }

  function WithPresent(t: Tables, p: u32, i: int): Tables
    requires p in t.pdpts && 0 <= i < |t.pdpts[p]|
  {
    t.(pdpts := t.pdpts[p := t.pdpts[p][i := t.pdpts[p][i].(present := true)]])
  }

  lemma PresentIsSilent(t: Tables, p: u32, i: int)
    requires Wf(t) && p in t.pdpts && 0 <= i < 4
    ensures var t' := WithPresent(t, p, i);
            Wf(t') && t'.pdpts.Keys == t.pdpts.Keys && SameTables(t, t') &&
            (forall p', i' :: p' in t.pdpts && 0 <= i' < 4 ==> PdSlot(t', p', i') == PdSlot(t, p', i')) &&
            forall p', va :: p' in t.pdpts ==>
              Frame(t', p', va) == Frame(t, p', va) && Granted(t', p', va) == Granted(t, p', va) &&
              (Reaches(t', p', va) <==> Reaches(t, p', va) || (p' == p && PdptIndex(va) == i))
  {
    hide TablePointer;
    var t' := WithPresent(t, p, i);
    assert forall p', i' :: p' in t.pdpts && 0 <= i' < 4 ==> PdSlot(t', p', i') == PdSlot(t, p', i');
    assert forall d, j :: d in t.pds && 0 <= j < 512 ==> PtSlot(t', d, j) == PtSlot(t, d, j);
    forall p', va | p' in t.pdpts
      ensures Frame(t', p', va) == Frame(t, p', va) && Granted(t', p', va) == Granted(t, p', va)
      ensures Reaches(t', p', va) <==> Reaches(t, p', va) || (p' == p && PdptIndex(va) == i)
      ensures PtOf(t', p', va) == PtOf(t, p', va) && (DirectoryUser(t', p', va) <==> DirectoryUser(t, p', va))
    {
      IndexBounds(va);
    }
  }

  /** An empty pointer table at p. */
  function WithSpace(t: Tables, p: u32): Tables {
    t.(pdpts := t.pdpts[p := seq(4, _ => Pdpte(false, 0))])
  }

  lemma AddSpace(t: Tables, p: u32)
    requires Wf(t) && p !in t.pdpts
    ensures var t' := WithSpace(t, p);
            Wf(t') && Evolves(t, t') && (forall va :: Frame(t', p, va) == 0) &&
            (forall va :: Granted(t', p, va) == None && !Reaches(t', p, va)) &&
            forall q, va :: q in t.pdpts ==>
              Frame(t', q, va) == Frame(t, q, va) && Granted(t', q, va) == Granted(t, q, va) &&
              (Reaches(t', q, va) <==> Reaches(t, q, va))
  {
    hide TablePointer, PdptIndex, PdIndex, PtIndex;
    NullEntry();
    var t' := WithSpace(t, p);
    assert forall q, i :: q in t'.pdpts && 0 <= i < 4 ==> PdSlot(t', q, i) == if q == p then 0 else PdSlot(t, q, i);
    assert forall d, j :: d in t.pds && 0 <= j < 512 ==> PtSlot(t', d, j) == PtSlot(t, d, j);
    forall va ensures Frame(t', p, va) == 0 && Granted(t', p, va) == None && !Reaches(t', p, va) { IndexBounds(va); }
    forall q, va | q in t.pdpts
      ensures Frame(t', q, va) == Frame(t, q, va) && Granted(t', q, va) == Granted(t, q, va)
      ensures Reaches(t', q, va) <==> Reaches(t, q, va)
    {
      IndexBounds(va);
    }
  }

  /** `*pdpte = *kpdpte` */
  function WithKernelEntry(t: Tables, p: u32, kernel: u32): Tables
    requires Sized(t) && p in t.pdpts && kernel in t.pdpts
  {
    t.(pdpts := t.pdpts[p := t.pdpts[p][KERNEL_SLOT := t.pdpts[kernel][KERNEL_SLOT]]])
  }

  lemma ShareKernel(t: Tables, p: u32, kernel: u32)
    requires Wf(t) && p in t.pdpts && kernel in t.pdpts
    ensures var t' := WithKernelEntry(t, p, kernel);
            Wf(t') &&
            (forall q, i :: q in t.pdpts && 0 <= i < 4 ==>
               PdSlot(t', q, i) == if q == p && i == KERNEL_SLOT then PdSlot(t, kernel, i) else PdSlot(t, q, i)) &&
            forall q, va :: q in t.pdpts && !(q == p && PdptIndex(va) == KERNEL_SLOT) ==>
              Frame(t', q, va) == Frame(t, q, va) && Granted(t', q, va) == Granted(t, q, va) &&
              (Reaches(t', q, va) <==> Reaches(t, q, va))
  {
    hide TablePointer, PdptIndex, PdIndex, PtIndex;
    var t' := WithKernelEntry(t, p, kernel);
    assert forall q, i :: q in t.pdpts && 0 <= i < 4 ==>
        PdSlot(t', q, i) == if q == p && i == KERNEL_SLOT then PdSlot(t, kernel, i) else PdSlot(t, q, i);
    assert forall d, j :: d in t.pds && 0 <= j < 512 ==> PtSlot(t', d, j) == PtSlot(t, d, j);
    forall q, va | q in t.pdpts && !(q == p && PdptIndex(va) == KERNEL_SLOT)
      ensures Frame(t', q, va) == Frame(t, q, va) && Granted(t', q, va) == Granted(t, q, va)
      ensures Reaches(t', q, va) <==> Reaches(t, q, va)
    {
      IndexBounds(va);
    }
  }

  lemma OpensHere(t: Tables, t': Tables, p: u32, va: u32)
    requires Sized(t) && Sized(t') && t'.pdpts.Keys == t.pdpts.Keys && p in t.pdpts && Opens(t, t', p, va)
    ensures Reaches(t', p, va)
  {
  }

  lemma SilentThenMaps(t: Tables, t': Tables, t'': Tables, p: u32, va: u32, pa: u32, f: Flags)
    requires Wf(t) && Wf(t') && Wf(t'') && t'.pdpts.Keys == t.pdpts.Keys == t''.pdpts.Keys && p in t.pdpts
    requires SameTranslations(t, t') && MapsOnly(t', t'', p, va, pa, f) && Opens(t', t'', p, va)
    requires KeepsSlots(t, t', p, PdptIndex(va)) && KeepsSlots(t', t'', p, PdptIndex(va)) && Evolves(t, t') && Evolves(t', t'')
    requires KeepsTables(t, t') && SetsDirectoryUser(t', t'', p, va, f.user)
    ensures MapsOnly(t, t'', p, va, pa, f) && Opens(t, t'', p, va) && SetsDirectoryUser(t, t'', p, va, f.user)
    ensures KeepsSlots(t, t'', p, PdptIndex(va)) && Evolves(t, t'')
    ensures Granted(t'', p, va) == Some(f)
  {
    hide Sized, Closed, Unshared, Promoted, Frame, Granted, Reaches, PdSlot, PdptIndex, PtOf, DirectoryUser;
    IndexBounds(va);
    assert SamePlace(t'', p, va, p, va);
  }

  class Mmu {
    var t: Tables

    /** mm_map_page_arch. pdAddress and ptAddress are what kmalloc_aligned returns if it is called. */
    method MapPage(p: u32, va: u32, pa: u32, f: Flags, pdAddress: u32, ptAddress: u32) returns (st: int)
      requires Wf(t) && p in t.pdpts && pa % PAGE_SIZE == 0
      requires Allocatable(t.pds, pdAddress) && Allocatable(t.pts, ptAddress)
      modifies this
      ensures Wf(t) && t.pdpts.Keys == old(t.pdpts).Keys && KeepsSlots(old(t), t, p, PdptIndex(va)) && Evolves(old(t), t)
      ensures st == -ENOMEM <==> (old(PdOf(t, p, va)) == 0 && pdAddress == 0) || (old(PtOf(t, p, va)) == 0 && ptAddress == 0)
      ensures st == -ENOMEM ==> SameTranslations(old(t), t) && Step(old(t), t, Fail)
      ensures st != -ENOMEM ==> st == 0 && MapsOnly(old(t), t, p, va, pa, f) && Opens(old(t), t, p, va)
      ensures st != -ENOMEM ==> SetsDirectoryUser(old(t), t, p, va, f.user) && (UserAccess(t, p, va) <==> f.user)
      ensures st != -ENOMEM ==> Effective(t, p, va) == Some(f) && Step(old(t), t, Map(p, va, pa, f))
    {
      hide TablePointer, PdptIndex, PdIndex, PtIndex, Closed, Unshared, Promoted, Frame, Granted, PtOf, Reaches, Opens, DirectoryUser;
      st := EnterTables(p, va, pdAddress, ptAddress);
      if st < 0 {
        return;
      }
      ghost var between := t;
      Install(p, va, pa, f);
      IndexBounds(va);
      OpensHere(between, t, p, va);
      SilentThenMaps(old(t), between, t, p, va, pa, f);
    }

    /** The first half: the directory and the table of va, allocated where they are missing. */
    method EnterTables(p: u32, va: u32, pdAddress: u32, ptAddress: u32) returns (st: int)
      requires Wf(t) && p in t.pdpts && Allocatable(t.pds, pdAddress) && Allocatable(t.pts, ptAddress)
      modifies this
      ensures Wf(t) && KeepsSlots(old(t), t, p, PdptIndex(va)) && Evolves(old(t), t)
      ensures SameTranslations(old(t), t) && KeepsTables(old(t), t)
      ensures st == if (old(PdOf(t, p, va)) == 0 && pdAddress == 0) || (old(PtOf(t, p, va)) == 0 && ptAddress == 0)
                    then -ENOMEM else 0
      ensures st == 0 ==> PtOf(t, p, va) != 0
    {
      hide TablePointer, PdptIndex, PdIndex, PtIndex, Unshared, Promoted, Frame, Granted, Reaches;
      IndexBounds(va);
      var i, j := PdptIndex(va), PdIndex(va);
      if PdSlot(t, p, i) == 0 {
        if pdAddress == 0 {
          return -ENOMEM;
        }
        AddPd(t, p, i, pdAddress);
        t := WithPd(t, p, i, pdAddress);
      }
      var d := PdSlot(t, p, i);
      if PtSlot(t, d, j) == 0 {
        if ptAddress == 0 {
          return -ENOMEM;
        }
        AddPt(t, d, j, ptAddress);
        t := WithPt(t, d, j, ptAddress);
      }
      st := 0;
    }

    /** The second half: the frame, the three present bits and the flags. */
    method Install(p: u32, va: u32, pa: u32, f: Flags)
      requires Wf(t) && p in t.pdpts && pa % PAGE_SIZE == 0 && PtOf(t, p, va) != 0
      modifies this
      ensures Wf(t) && KeepsSlots(old(t), t, p, PdptIndex(va)) && Evolves(old(t), t)
      ensures MapsOnly(old(t), t, p, va, pa, f) && Opens(old(t), t, p, va) && SetsDirectoryUser(old(t), t, p, va, f.user)
    {
      hide TablePointer, PdptIndex, PdIndex, PtIndex, Unshared, Promoted, Frame, Granted, DirectoryUser, SetsDirectoryUser, SameTables;
      IndexBounds(va);
      FrameRoundTrip(pa);
      SetEntry(t, p, va, AddressBase(pa), true, f);
      SetEntryDirectory(t, p, va, AddressBase(pa), true, f);
      t := WithEntry(t, p, va, AddressBase(pa), true, f);
      ghost var between := t;
      PresentIsSilent(t, p, PdptIndex(va));
      t := WithPresent(t, p, PdptIndex(va));
      SetsThenSame(old(t), between, t, p, va, f.user);
    }

    /** mm_set_page_flags_arch. A page that has a frame and is not present stays absent, and the call
        succeeds all the same. */
    method SetPageFlags(p: u32, va: u32, f: Flags) returns (st: int)
      requires Wf(t) && p in t.pdpts && va % PAGE_SIZE == 0
      modifies this
      ensures Wf(t) && t.pdpts == old(t.pdpts) && Evolves(old(t), t)
      ensures st == if old(Frame(t, p, va)) == 0 then -EINVAL else 0
      ensures st != 0 ==> t == old(t)
      ensures st == 0 ==>
                SetsDirectoryUser(old(t), t, p, va, f.user) &&
                (UserAccess(t, p, va) <==> f.user && Effective(old(t), p, va).Some?)
      ensures st == 0 ==> ChangesOnly(old(t), t, p, va, f) && Step(old(t), t, Change(p, va, f))
    {
      IndexBounds(va);
      var d := PdSlot(t, p, PdptIndex(va));
      if d == 0 {
        return -EINVAL;
      }
      var e := PtSlot(t, d, PdIndex(va));
      if e == 0 {
        return -EINVAL;
      }
      var frameBase := t.pts[e][PtIndex(va)].frameBase;
      if BaseAddress(frameBase) == 0 {
        return -EINVAL;
      }
      SetEntry(t, p, va, frameBase, false, f);
      SetEntryDirectory(t, p, va, frameBase, false, f);
      t := WithEntry(t, p, va, frameBase, false, f);
      st := 0;
    }

    /** mm_init_paging_struct_arch: an empty pointer table at the address kmalloc_aligned returns. */
    method NewSpace(address: u32) returns (st: int)
      requires Wf(t) && Allocatable(t.pdpts, address)
      modifies this
      ensures Wf(t) && Evolves(old(t), t)
      ensures st == if address == 0 then -ENOMEM else 0
      ensures if st == 0 then t.pdpts.Keys == old(t.pdpts).Keys + {address} else t == old(t)
      ensures forall p, va :: p in old(t.pdpts) ==> Frame(t, p, va) == Frame(old(t), p, va)
      ensures st == 0 ==> forall va :: Frame(t, address, va) == 0
      ensures st == 0 ==> Step(old(t), t, Create(address))
    {
      if address == 0 {
        return -ENOMEM;
      }
      AddSpace(t, address);
      t := WithSpace(t, address);
      st := 0;
    }

    /** mm_map_kernel_into_paging_struct_arch */
    method MapKernel(p: u32, kernel: u32)
      requires Wf(t) && p in t.pdpts && kernel in t.pdpts
      modifies this
      ensures Wf(t) && t.pdpts.Keys == old(t.pdpts).Keys
      ensures PdSlot(t, p, KERNEL_SLOT) == PdSlot(t, kernel, KERNEL_SLOT) == PdSlot(old(t), kernel, KERNEL_SLOT)
      ensures SharesPresent(old(t), kernel, kernel) ==> SharesPresent(t, p, kernel)
      ensures PdSlot(old(t), p, KERNEL_SLOT) == 0 ==> Evolves(old(t), t) && Step(old(t), t, Share(p, kernel))
      ensures forall q, i :: q in t.pdpts && 0 <= i < 4 && !(q == p && i == KERNEL_SLOT) ==> PdSlot(t, q, i) == PdSlot(old(t), q, i)
      ensures forall q, va :: q in t.pdpts && !(q == p && PdptIndex(va) == KERNEL_SLOT) ==> Frame(t, q, va) == Frame(old(t), q, va)
    {
      ShareKernel(t, p, kernel);
      t := WithKernelEntry(t, p, kernel);
    }
  }

  // ---------------------------------------------------------------- the tables at boot

  /** What the boot code and mm_enforce_ksections_perms leave: one page table below the last slot, with
      whatever flags in its entries. */
  function BootTables(p: u32, d: u32, e: u32, entries: seq<Pte>): Tables {
    Tables(map[p := [Pdpte(false, 0), Pdpte(false, 0), Pdpte(false, 0), Pdpte(true, AddressBase(Kva2pa(d)))]],
           map[d := EmptyPd()[0 := Pde(true, true, false, false, AddressBase(Kva2pa(e)))]],
           map[e := entries])
  }

  /** The booted kernel's tables are well-formed, absent pages that keep their frame included. */
  lemma BootIsWf(p: u32, d: u32, e: u32, entries: seq<Pte>, k: nat)
    requires TableAddress(d) && TableAddress(e) && |entries| == 512 && k < 512
    ensures var t, va := BootTables(p, d, e, entries), 3 * GIB + k * PAGE_SIZE;
            Wf(t) && SharesPresent(t, p, p) && Frame(t, p, va) == BaseAddress(entries[k].frameBase) &&
            (Granted(t, p, va).Some? <==> entries[k].present)
  {
    hide TablePointer, AddressBase, Kva2pa;
    EntryRoundTrip(d);
    EntryRoundTrip(e);
    NullEntry();
    var t, va := BootTables(p, d, e, entries), 3 * GIB + k * PAGE_SIZE;
    assert PdSlot(t, p, 0) == 0 && PdSlot(t, p, 1) == 0 && PdSlot(t, p, 2) == 0 && PdSlot(t, p, 3) == d;
    assert forall j :: 0 <= j < 512 ==> PtSlot(t, d, j) == if j == 0 then e else 0;
    assert PdptIndex(va) == 3 && PdIndex(va) == 0 && PtIndex(va) == k;
  }

  /** While the boot entries map page k to page k, the kernel's addresses stand for the first 2 MiB of
      memory, as mm_kpa2va and mm_kva2pa say. */
  lemma BootTranslates(p: u32, d: u32, e: u32, entries: seq<Pte>, pa: u32)
    requires TableAddress(d) && TableAddress(e) && |entries| == 512 && pa < 0x20_0000
    requires forall k :: 0 <= k < 512 ==> entries[k].frameBase == k
    ensures var t := BootTables(p, d, e, entries);
            Wf(t) && Va2Pa(t, p, Kpa2va(pa)) == pa && Kva2pa(Kpa2va(pa)) == pa && Kpa2va(pa) == 3 * GIB + pa
  {
    hide TablePointer, AddressBase, Frame, Va2Pa, TableAddress;
    var va, k := Kpa2va(pa), pa / PAGE_SIZE;
    var t := BootTables(p, d, e, entries);
    BootIsWf(p, d, e, entries, k);
    BootPage(p, d, e, entries, k, va);
    assert va % PAGE_SIZE == pa % PAGE_SIZE;
  }

  lemma BootPage(p: u32, d: u32, e: u32, entries: seq<Pte>, k: nat, va: u32)
    requires TableAddress(d) && TableAddress(e) && |entries| == 512 && k < 512 && entries[k].frameBase == k
    requires va / PAGE_SIZE == 3 * GIB / PAGE_SIZE + k
    ensures var t := BootTables(p, d, e, entries); Wf(t) && Va2Pa(t, p, va) == k * PAGE_SIZE + va % PAGE_SIZE
  {
    hide TablePointer, AddressBase, Kva2pa;
    var t := BootTables(p, d, e, entries);
    BootIsWf(p, d, e, entries, k);
    EntryRoundTrip(d);
    EntryRoundTrip(e);
    assert PdSlot(t, p, 3) == d && PtSlot(t, d, 0) == e;
    assert PdptIndex(va) == 3 && PdIndex(va) == 0 && PtIndex(va) == k;
  }

  /** Changing flags grants exactly what is asked for if and only if the page granted something before. */
  lemma ChangeGrantsIff(t: Tables, t': Tables, p: u32, va: u32, f: Flags)
    requires Wf(t) && Wf(t') && t'.pdpts == t.pdpts && p in t.pdpts && ChangesOnly(t, t', p, va, f)
    ensures Granted(t', p, va) == Some(f) <==> Granted(t, p, va).Some?
  {
    hide Sized, Closed, Unshared, Promoted, Frame, Granted;
    assert SamePlace(t', p, va, p, va);
  }

  /** The bootloader's page, marked absent at boot, has its frame still. Setting its flags reports success
      and leaves it absent. */
  lemma BootloaderPageStaysAbsent(p: u32, d: u32, e: u32, t': Tables, f: Flags)
    requires TableAddress(d) && TableAddress(e)
    ensures var va := 0xC010_0000; var entries := seq(512, k requires 0 <= k => Pte(k != 0x100, true, false, false, k));
            var t := BootTables(p, d, e, entries);
            Wf(t) && Frame(t, p, va) == 0x10_0000 && Granted(t, p, va) == None &&
            (Wf(t') && t'.pdpts == t.pdpts && ChangesOnly(t, t', p, va, f) ==>
               Frame(t', p, va) == 0x10_0000 && Granted(t', p, va) == None)
  {
    hide Sized, Closed, Unshared, Promoted, Frame, Granted;
    var va := 0xC010_0000;
    var entries := seq(512, k requires 0 <= k => Pte(k != 0x100, true, false, false, k));
    var t := BootTables(p, d, e, entries);
    BootIsWf(p, d, e, entries, 0x100);
    if Wf(t') && t'.pdpts == t.pdpts && ChangesOnly(t, t', p, va, f) {
      assert SamePlace(t', p, va, p, va);
    }
  }

  // ---------------------------------------------------------------- runs

  /** Mapping a page or changing its flags, a mapping that failed, a new space, a kernel entry copied, a
      space torn down. */
  datatype Op =
    | Map(p: u32, va: u32, pa: u32, f: Flags)
    | Change(p: u32, va: u32, f: Flags)
    | Fail
    | Create(space: u32)
    | Share(space: u32, kernel: u32)
    | Destroy(space: u32)

  ghost predicate Step(t: Tables, t': Tables, op: Op)
    requires Wf(t) && Wf(t')
  {
    match op
    case Map(p, va, pa, f) =>
      t'.pdpts.Keys == t.pdpts.Keys && Evolves(t, t') && p in t.pdpts && MapsOnly(t, t', p, va, pa, f) && Opens(t, t', p, va)
    case Change(p, va, f) =>
      t'.pdpts == t.pdpts && Evolves(t, t') && p in t.pdpts && ChangesOnly(t, t', p, va, f)
    case Fail => t'.pdpts.Keys == t.pdpts.Keys && Evolves(t, t') && SameTranslations(t, t')
    case Create(p) => p !in t.pdpts && t' == WithSpace(t, p)
    case Share(p, kernel) =>
      p in t.pdpts && kernel in t.pdpts && PdSlot(t, p, KERNEL_SLOT) == 0 && t' == WithKernelEntry(t, p, kernel)
    case Destroy(p) =>
      p in t.pdpts && t'.pdpts == t.pdpts - {p} &&
      forall q, va :: q in t'.pdpts ==> Frame(t', q, va) == Frame(t, q, va) && Granted(t', q, va) == Granted(t, q, va)
  }

  ghost predicate IsHistory(run: seq<Tables>, ops: seq<Op>) {
    && |run| == |ops| + 1 && (forall k :: 0 <= k < |run| ==> Wf(run[k]))
    && forall k :: 0 <= k < |ops| ==> Step(run[k], run[k + 1], ops[k])
  }

  /** A space keeps its directories until it is torn down. */
  lemma StepKeeps(t: Tables, t': Tables, op: Op, p: u32)
    requires Wf(t) && Wf(t') && Step(t, t', op) && p in t.pdpts && op != Destroy(p)
    ensures Keeps(t, t', p)
  {
    hide TablePointer, Closed, Unshared, Promoted, MapsOnly, SameTranslations, Frame, Granted;
    match op
    case Share(q, kernel) => ShareKernel(t, q, kernel);
    case Create(q) => AddSpace(t, q);
    case _ =>
  }

  // ---------------------------------------------------------------- the shared kernel quarter

  /** p and the kernel share the kernel's page directory. */
  predicate SharesKernel(t: Tables, p: u32, kernel: u32)
    requires Sized(t)
  {
    p in t.pdpts && kernel in t.pdpts && PdSlot(t, kernel, KERNEL_SLOT) != 0 &&
    PdSlot(t, p, KERNEL_SLOT) == PdSlot(t, kernel, KERNEL_SLOT)
  }

  /** Sharing spaces translate every address from 3 GiB up alike. What the processor allows is alike, too,
      exactly when both spaces' entries are present, or neither, or there is nothing to allow. */
  lemma SharedQuarter(t: Tables, p: u32, kernel: u32, va: u32)
    requires Wf(t) && SharesKernel(t, p, kernel) && va >= 3 * GIB
    ensures Va2Pa(t, p, va) == Va2Pa(t, kernel, va) && Frame(t, p, va) == Frame(t, kernel, va)
    ensures Granted(t, p, va) == Granted(t, kernel, va)
    ensures Effective(t, p, va) == Effective(t, kernel, va) <==>
            Granted(t, kernel, va) == None || (Reaches(t, p, va) <==> Reaches(t, kernel, va))
  {
    assert PdptIndex(va) == KERNEL_SLOT;
  }

  /** p and the kernel share a directory that both can walk, as they do once the entry of a running kernel
      was copied. */
  predicate SharesPresent(t: Tables, p: u32, kernel: u32)
    requires Sized(t)
  {
    SharesKernel(t, p, kernel) && t.pdpts[p][KERNEL_SLOT].present && t.pdpts[kernel][KERNEL_SLOT].present
  }

  /** ... and go on doing so until one of them is torn down, whatever either of them or anybody else maps,
      creates or tears down. */
  lemma {:induction false} SharedForever(run: seq<Tables>, ops: seq<Op>, p: u32, kernel: u32, n: nat)
    requires IsHistory(run, ops) && n < |run| && SharesKernel(run[0], p, kernel)
    requires forall j :: 0 <= j < n ==> ops[j] != Destroy(p) && ops[j] != Destroy(kernel)
    ensures SharesKernel(run[n], p, kernel)
    ensures forall va: u32 :: va >= 3 * GIB ==> Va2Pa(run[n], p, va) == Va2Pa(run[n], kernel, va)
    ensures SharesPresent(run[0], p, kernel) ==>
              SharesPresent(run[n], p, kernel) &&
              forall va: u32 :: va >= 3 * GIB ==> Effective(run[n], p, va) == Effective(run[n], kernel, va)
  {
    hide Closed, Unshared, Promoted, Step, Va2Pa, Granted;
    if n > 0 {
      SharedForever(run, ops, p, kernel, n - 1);
      StepKeeps(run[n - 1], run[n], ops[n - 1], p);
      StepKeeps(run[n - 1], run[n], ops[n - 1], kernel);
    }
    forall va: u32 | va >= 3 * GIB
      ensures Va2Pa(run[n], p, va) == Va2Pa(run[n], kernel, va)
      ensures SharesPresent(run[n], p, kernel) ==> Effective(run[n], p, va) == Effective(run[n], kernel, va)
    {
      SharedQuarter(run[n], p, kernel, va);
    }
  }

  /** Mapping a user page of one space changes no translation and no permission of any other. */
  lemma UserPagesArePrivate(t: Tables, t': Tables, p: u32, va: u32, pa: u32, f: Flags, q: u32, va': u32)
    requires Wf(t) && Wf(t') && t'.pdpts.Keys == t.pdpts.Keys && p in t.pdpts && q in t.pdpts && q != p
    requires MapsOnly(t, t', p, va, pa, f) && Opens(t, t', p, va) && va < 3 * GIB
    ensures Frame(t', q, va') == Frame(t, q, va') && Effective(t', q, va') == Effective(t, q, va')
  {
  }

  /** A mapping changes a translation of another space if and only if it is in the kernel quarter, the other
      space shares the directory, and the page was mapped elsewhere there. */
  lemma MappingIsPrivateIff(t: Tables, t': Tables, p: u32, va: u32, pa: u32, f: Flags, q: u32)
    requires Wf(t) && Wf(t') && t'.pdpts.Keys == t.pdpts.Keys && p in t.pdpts && q in t.pdpts && q != p
    requires MapsOnly(t, t', p, va, pa, f)
    ensures (forall va' :: Frame(t', q, va') == Frame(t, q, va')) <==>
            !(PdptIndex(va) == KERNEL_SLOT && PdSlot(t', q, KERNEL_SLOT) == PdSlot(t', p, KERNEL_SLOT)) || Frame(t, q, va) == pa
  {
    hide Closed, Unshared, Promoted, Frame, Granted, PdptIndex;
    forall va' ensures SamePlace(t', p, va, q, va') ==> Frame(t, q, va') == Frame(t, q, va) {
      if SamePlace(t', p, va, q, va') { SamePlaceSamePage(t, q, va, q, va'); }
    }
    assert SamePlace(t', p, va, q, va) <==>
      PdptIndex(va) == KERNEL_SLOT && PdSlot(t', q, KERNEL_SLOT) == PdSlot(t', p, KERNEL_SLOT);
  }

  // ---------------------------------------------------------------- what a page is, over runs

  /** The operation puts something at the page of va in space p. */
  predicate Touches(t: Tables, op: Op, p: u32, va: u32)
    requires Sized(t) && p in t.pdpts
  {
    (op.Map? || op.Change?) && op.p in t.pdpts && SamePlace(t, op.p, op.va, p, va)
  }

  lemma UntouchedStays(t: Tables, t': Tables, op: Op, p: u32, va: u32)
    requires Wf(t) && Wf(t') && Step(t, t', op) && p in t.pdpts && Frame(t, p, va) != 0 && op != Destroy(p)
    requires p in t'.pdpts ==> !Touches(t', op, p, va)
    ensures p in t'.pdpts && Frame(t', p, va) == Frame(t, p, va) && Granted(t', p, va) == Granted(t, p, va)
    ensures Reaches(t, p, va) ==> Reaches(t', p, va)
  {
    hide Sized, Closed, Unshared, Promoted, TablePointer, Granted, Keeps;
    match op
    case Share(q, kernel) => ShareKernel(t, q, kernel);
    case Create(q) => AddSpace(t, q);
    case _ =>
  }

  /** What the last call for a page says about it: a mapping its frame and permissions, a change of flags
      its permissions, if it granted anything before. */
  ghost predicate Decided(t: Tables, op: Op, p: u32, va: u32, frame: u32, grant: Option<Flags>)
    requires Wf(t) && p in t.pdpts && (op.Map? || op.Change?)
  {
    match op
    case Map(_, _, pa, f) => frame == pa && grant == Some(f)
    case Change(_, _, f) => frame == Frame(t, p, va) && grant == Regranted(Granted(t, p, va), f)
  }

  /** After any run, a page has the frame and the permissions that the last call for it left it with,
      whatever was mapped since, failed, was created or torn down. The processor can walk to it if that
      call mapped it in this space. */
  lemma {:induction false} LastCallDecides(run: seq<Tables>, ops: seq<Op>, k: nat, n: nat, p: u32, va: u32)
    requires IsHistory(run, ops) && k < n < |run| && p in run[k].pdpts && p in run[k + 1].pdpts
    requires Touches(run[k + 1], ops[k], p, va) && Frame(run[k + 1], p, va) != 0
    requires forall j :: k < j < n ==> ops[j] != Destroy(p) && (p in run[j + 1].pdpts ==> !Touches(run[j + 1], ops[j], p, va))
    ensures p in run[n].pdpts && Decided(run[k], ops[k], p, va, Frame(run[n], p, va), Granted(run[n], p, va))
    ensures Reaches(run[k + 1], p, va) ==> Effective(run[n], p, va) == Granted(run[n], p, va)
    ensures ops[k].Map? && ops[k].p == p ==> Reaches(run[k + 1], p, va)
    ensures Frame(run[n], p, va) != 0
  {
    hide Sized, Closed, Unshared, Promoted, Frame, Granted, Reaches, Step, Touches, Decided;
    assert Step(run[k], run[k + 1], ops[k]);
    TouchDecides(run[k], run[k + 1], ops[k], p, va);
    if n > k + 1 {
      LastCallDecides(run, ops, k, n - 1, p, va);
      assert Step(run[n - 1], run[n], ops[n - 1]);
      UntouchedStays(run[n - 1], run[n], ops[n - 1], p, va);
    }
  }

  lemma TouchDecides(t: Tables, t': Tables, op: Op, p: u32, va: u32)
    requires Wf(t) && Wf(t') && Step(t, t', op) && p in t.pdpts && p in t'.pdpts && Touches(t', op, p, va)
    ensures Decided(t, op, p, va, Frame(t', p, va), Granted(t', p, va))
    ensures op.Map? && op.p == p ==> Reaches(t', p, va)
  {
    hide Sized, Closed, Unshared, Promoted, Frame, Granted, Keeps;
    SamePageSameGib(op.va, va);
    if op.Change? { SamePlaceSamePage(t, op.p, op.va, p, va); }
  }

  /** One place is the same entry, by whichever space and address it is named. */
  lemma SamePlaceSamePage(t: Tables, p: u32, va: u32, p': u32, va': u32)
    requires Wf(t) && p in t.pdpts && p' in t.pdpts && SamePlace(t, p, va, p', va')
    ensures Frame(t, p', va') == Frame(t, p, va) && Granted(t, p', va') == Granted(t, p, va)
  {
    hide TablePointer, PdptIndex, PdIndex, PtIndex, Unshared, Promoted;
    IndexBounds(va);
    IndexBounds(va');
    IndicesAreThePage(va, va');
  }

  lemma SamePageSameGib(va: u32, va': u32)
    requires va / PAGE_SIZE == va' / PAGE_SIZE
    ensures PdptIndex(va) == PdptIndex(va')
  {
    IndicesAreThePage(va, va');
  }
}

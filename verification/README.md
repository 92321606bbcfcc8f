# dxgmx in Dafny

A model of the parts of the dxgmx kernel (i686 build) whose behaviour is easiest to get wrong, with
proofs of what they promise. Loops, fields and arrays that the C code changes in place are Dafny loops,
fields and arrays, each proved against a specification function or predicate; the specifications are
then proved to mean what the kernel relies on.

| module | models |
|---|---|
| `Machine` | 32-bit words, alignment and the arithmetic shared by all |
| `Gallocator` | a chunk pool: bitmap, in-band headers, aligned first fit, and what it means for them to represent a set of live blocks |
| `ChunkPool` | gallocator.c on one pool, on real bitmap bytes and memory |
| `HeapLayout` | gallocator_init_heap |
| `KernelHeap` | kmalloc, kfree and krealloc as functions on live blocks, and all runs of them |
| `Kmalloc` | kmalloc.c itself, on three pools |
| `Division` | the 64-bit division builtins |
| `Sha1Spec`, `Sha1` | SHA-1 of RFC 3174, sections 4, 5 and 6.1, and the streaming implementation |
| `Sha1Laws`, `Sha1Vector` | what its words and constants are, bit by bit, and the published digest of "abc" (section 7.3 of RFC 3174) |
| `PageTables` | PAE page tables: walks, mapping, flags, the shared kernel quarter, and runs |
| `Paging` | the ascending array of tracked pages |
| `Falloc` | the page frame bitmap and the user cursor |
| `UserPages` | giving pages to an address space and tearing the space down |
| `HashTable`, `FdTable` | the bucketed table and the descriptor table kept in it |
| `ProcFds`, `Vfs` | descriptor numbers, vnode counts, open, close and remove |
| `ProcTable`, `Procs` | pid slots, reaping and the ring scheduler |
| `NumberText` | printing and parsing numbers |

Conventions. `size_t`, `ptr` and `long` have 32 bits and wrap. Whatever an allocator, a driver or a hash
function may answer is a parameter of the call, so that every theorem covers every answer; a granted
`krealloc` is assumed to fit the kernel's quarter of the address space. A panic or a failed assertion ends
a run and is a result value. Branches that cannot be taken are `assert false`, which is a proof that they
cannot.

## What the code does differently from what it says

* `mm_va2pa` of an unmapped address is promised to be 0. It is, exactly when the address is page aligned or
  no page table covers it (`PageTables.Va2PaIsFrame`); otherwise the page offset comes back.
* SHA-1's length field counts bits in a `size_t`. The padding is RFC 3174's exactly when the message is
  shorter than 2^29 bytes (`Sha1.PaddingIsRfcIff`).
* `bw_clear` of a bit in the low half of the word clears the high half as well. It clears one bit exactly
  when the bit is in the high half or the high half is already clear (`Falloc.BwClearIsClearIff`). When
  mapping a new user page fails, its frame is freed that way: frames that other user pages hold keep their
  marks exactly when the freed frame is in the high half of its word or none of them is in the high half
  of that word (`Falloc.FrameAllocator.FreeOne`). Otherwise the next kernel-heap page fault can be granted
  a frame in use (`Falloc.HeldFrameGivenAway`; kernel/mem/pagefault.c:65). Two user pages never share one
  even then, because the user cursor does not go back (`UserPages.GivenForever`).
* That frees at boot, too: the kernel starts with frames free that are not available, unless every word with
  an available frame in its lower half is available in all of its upper half (`Falloc.InitIsExactIff`).
* `mm_set_page_flags` of a page that has a frame and is not present succeeds and leaves it absent
  (`PageTables.ChangeGrantsIff`). The bootloader section is such a page in every booted kernel
  (`PageTables.BootloaderPageStaysAbsent`).
* `mm_new_user_page` takes any address, and the loader passes on what the file says. At or above 3 GiB it maps
  the page into every space that shares the kernel's directory (`PageTables.MappingIsPrivateIff`), and tearing
  the space down frees tables the others still use, exactly then (`UserPages.TeardownIsSafeIff`).
* Opening a missing file with `O_CREAT` creates it and still returns `-ENOENT` (`Vfs.Vfs.OpenMissing`).
* `procm_available_pid` moves its cursor even if the table then fails to grow; the next spawn trips the
  assertion in `procm_add_proc_to_pool`, unless a process is reaped first (`Procs.ProcessManager.Spawn`).
* The enlarging body of the hash table moves no entry. It would keep the table right exactly when no key
  hashes into the new half (`HashTable.EnlargeKeepsIff`); the guard never lets it run.
* `strtol` refuses the text of `LONG_MIN` with `-ERANGE` (`NumberText.StrtolRoundTripIff`). The overflow
  check of both parsers fires exactly when some digit makes the stored number smaller than before
  (`NumberText.OverflowIff`, `NumberText.ParseMeans`), so it misses sums that wrap to something larger, such
  as ten billion (`NumberText.OverflowMissed`).
* Tearing an address space down frees frame 0 once per tracked page, and never the page's own frame
  (`UserPages.ClearEntries`).
* `krealloc` reads the alignment back through an `ssize_t`, so that 2^31 is taken for an error
  (`KernelHeap.ReallocFailsIff`). It makes no difference: the block sits on the only address that is so
  aligned, and there is nowhere to move it (`KernelHeap.ReallocFailsIffNoFit`).

## Model

| member | source | states |
|---|---|---|
| `ChunkPool.Advance` | kernel/mem/gallocator.c:73-90 | advancing the byte and bit cursor adds exactly that many chunks and leaves the bit below 8 |
| `ChunkPool.Pool.HasContiguousBits` | kernel/mem/gallocator.c:118-155 | the length of the free run at the cursor: all of it free, and ended by n, the pool's end or a set bit |
| `ChunkPool.Pool.RangeCheck` | kernel/mem/gallocator.c:157-169 | the sanity checks refuse exactly a bad bit and a run that reaches the last chunk |
| `ChunkPool.Pool.MarkBits` | kernel/mem/gallocator.c:157-259 | set and clear: exactly the run and its one metadata chunk take the new value, no other bit changes; refusals change nothing |
| `ChunkPool.Pool.MarkRun` | kernel/mem/gallocator.c:184-206 | the marking loop forces the whole run and its ASSERT_NOT_HIT cannot be reached |
| `ChunkPool.Pool.FindStartAligned` | kernel/mem/gallocator.c:261-311 | the next aligned chunk that is free with a free chunk before it; every chunk it passes over is none |
| `ChunkPool.Pool.AlignCursor` | kernel/mem/gallocator.c:264-273 | aligning in 32-bit arithmetic lands on the next aligned chunk, skipping none |
| `ChunkPool.SkipIsSafe` | kernel/mem/gallocator.c:373-385 | advancing past a free run that is too short never jumps over a fit |
| `ChunkPool.Pool.FindRun` | kernel/mem/gallocator.c:361-385 | the lowest aligned free run with a free chunk before it, with no fit below it; one that ends at the pool's last chunk is no fit and is refused by `MarkBits`; failure means there is no fit at all |
| `ChunkPool.Pool.Allocate` | kernel/mem/gallocator.c:313-407 | one pool's allocation: the block set and address of aligned first fit, zeroed payload, header and bitmap in step; failure changes nothing |
| `ChunkPool.FitsAgree` | kernel/mem/gallocator.c:118-155 | a start fits by the bitmap exactly when it fits by the live blocks |
| `ChunkPool.SearchFinds` | kernel/mem/gallocator.c:361-394 | the lowest fit is what the reference search finds |
| `ChunkPool.Pool.LiveHeader` | kernel/mem/gallocator.c:524-548 | the header before every live block decodes to that block's size, chunk size and alignment, and its payload is stored behind it |
| `ChunkPool.Pool.Free` | kernel/mem/gallocator.c:558-610 | freeing removes exactly that block, clears exactly the bits it had set, and wipes its signature |
| `ChunkPool.Pool.Store` | kernel/mem/kmalloc.c:273 | a store inside one payload changes those bytes of that block only and no header |
| `Gallocator.HeaderRoundTrip` | kernel/mem/gallocator.c:43-50 | a header read back from memory is the header written |
| `Gallocator.HeaderLayout` | kernel/mem/gallocator.c:43-50 | the header is signature, size, chunk size and alignment, each a little-endian word |
| `Gallocator.FitsIff` | kernel/mem/gallocator.c:361-394 | what fits: an aligned run, behind the first chunk and short of the last, that with the chunk before it meets no live block and no block's header chunk |
| `Gallocator.DisjointExtents` | kernel/mem/gallocator.c:392-404 | disjoint chunk runs, metadata chunk included, mean disjoint headers and payloads in memory |
| `Gallocator.NextStart` | kernel/mem/gallocator.c:261-311 | stepping by the stride visits every aligned start and no other |
| `Gallocator.AddBlock` | kernel/mem/gallocator.c:392-406 | writing bits, header and zeroes for a fitting block keeps bitmap, headers, payloads and block set in agreement |
| `Gallocator.RemoveBlock` | kernel/mem/gallocator.c:600-609 | clearing bits and bytes of a live block does the same for the block set without it |
| `Gallocator.UpdatePayload` | kernel/mem/kmalloc.c:273 | so does a store inside a live payload |
| `HeapLayout.HeapIsLaidOut` | kernel/mem/gallocator.c:414-513 | for every heap of at least one page: metadata, bitmaps and pools follow one another inside it, pools are aligned, each bitmap covers its pool |
| `HeapLayout.InitHeap` | kernel/mem/gallocator.c:414-427 | initialisation fails exactly for a heap of no pages |
| `HeapLayout.PoolsUseTheHeap` | kernel/mem/gallocator.c:414-492 | half of what metadata and bitmaps leave goes to the 128-byte chunks and a quarter to each of the others, to within two chunks, and the bitmaps take at most one byte in 512 |
| `HeapLayout.Shrunk` | kernel/mem/gallocator.c:473-492 | giving up one chunk always pays for aligning a pool |
| `KernelHeap.AllocKeeps` | kernel/mem/kmalloc.c:56-87 | an allocation gives no live block's address and changes no live block |
| `KernelHeap.AllocGives` | kernel/mem/kmalloc.c:56-87 | a successful allocation gives an aligned address that was nobody's, of the requested size, zeroed |
| `KernelHeap.NullIffNoFit` | kernel/mem/gallocator.c:361-394 | NULL exactly when the pool for that size has no aligned free run, and then nothing changed |
| `KernelHeap.PoolForSize` | kernel/mem/gallocator.c:313-359 | a request goes to the largest chunks that are no larger than it, or to the smallest |
| `KernelHeap.KmallocContract` | kernel/mem/kmalloc.c:182-196 | kmalloc_aligned, by live blocks only: panic exactly for a nonzero size with an alignment that is no power of two; NULL exactly for size 0 or when nothing fits, and then no change; otherwise the lowest fit, aligned, nobody's before, now a zeroed block of that size and alignment, and every other address as it was |
| `KernelHeap.AllocIsLowest` | kernel/mem/gallocator.c:361-394 | no fit lies below the address given |
| `KernelHeap.FreshHeapServes` | kernel/mem/gallocator.c:361-407 | on an empty heap a request its pool has room for gets the second chunk |
| `KernelHeap.KfreeContract` | kernel/mem/kmalloc.c:198-209 | kfree, by live blocks only: panic exactly on what is no live block; otherwise that block is none any more and every other address is as it was |
| `KernelHeap.NoOverlap` | kernel/mem/gallocator.c:392-406 | two live blocks never share a byte, headers included, and lie inside the heap |
| `KernelHeap.ReallocContract` | kernel/mem/kmalloc.c:211-280 | what krealloc does: the same address exactly for the same size; a move keeps the first min(old, new) bytes and the alignment and frees the old block; failure leaves it intact; other blocks never change |
| `KernelHeap.ReallocOfNoBlock` | kernel/mem/kmalloc.c:211-280 | krealloc of NULL is kmalloc with the default alignment; any other address that is no live block gives NULL and no change |
| `KernelHeap.ReallocFailsIff` | kernel/mem/kmalloc.c:211-280 | exactly when krealloc of a block gives NULL: size 0, or another size and an alignment that reads as negative or no fit |
| `KernelHeap.HugeAlignmentHasNoFit` | kernel/mem/kmalloc.c:246-257 | a live block aligned to 2^31 leaves no fit with that alignment anywhere in the heap |
| `KernelHeap.ReallocFailsIffNoFit` | kernel/mem/kmalloc.c:246-271 | so the sign of the alignment changes nothing: krealloc of another nonzero size fails exactly when nothing fits |
| `KernelHeap.HugeBlockCannotGrow` | kernel/mem/kmalloc.c:246-257 | a heap with such a block, and krealloc failing on it |
| `KernelHeap.MovedContract` | kernel/mem/kmalloc.c:265-275 | the allocate, copy, free path of krealloc |
| `KernelHeap.ReleaseDrops` | kernel/mem/kmalloc.c:198-209 | freeing takes away the block at that address and no other |
| `KernelHeap.WriteKeeps` | kernel/mem/kmalloc.c:273 | a store into one block is seen at no other address |
| `KernelHeap.AllocThenFree` | kernel/mem/kmalloc.c:182-209 | freeing what was just allocated restores the heap exactly |
| `KernelHeap.ServeOk` | kernel/mem/kmalloc.c:167-280 | every request that does not panic keeps the heap well formed |
| `KernelHeap.ServeKeeps` | kernel/mem/kmalloc.c:167-280 | every request leaves alone every live block it does not name |
| `KernelHeap.RunKeeps` | kernel/mem/kmalloc.c:167-280 | over any run of allocations, frees, krealloc calls and client stores, an unnamed live block keeps its address, alignment and every byte |
| `Kmalloc.KernelAllocator.constructor` | kernel/mem/gallocator.c:414-513 | a registered heap starts with no live block, laid out as above |
| `Kmalloc.KernelAllocator.StateOk` | kernel/mem/kmalloc.c:167-280 | whatever bitmaps and memory represent is a well-formed heap, so the theorems about `KernelHeap` apply to every state the calls reach |
| `Kmalloc.KernelAllocator.KmallocAligned` | kernel/mem/kmalloc.c:182-196 | on bitmaps and memory: the result and heap of `KernelHeap.Kmalloc`, which `KernelHeap.KmallocContract` says allocates; its sanity check never fails |
| `Kmalloc.KernelAllocator.KfreeCall` | kernel/mem/kmalloc.c:198-209 | frees a live block and panics on anything else; a freed address is no block any more, so freeing it again panics |
| `Kmalloc.KernelAllocator.KreallocCall` | kernel/mem/kmalloc.c:211-280 | on bitmaps and memory: the result and heap of `KernelHeap.Krealloc`, pinned by `KernelHeap.ReallocContract`, `KernelHeap.ReallocFailsIff` and `KernelHeap.ReallocOfNoBlock` |
| `Kmalloc.KernelAllocator.PeekLive` | kernel/mem/gallocator.c:524-548 | the driver finds pool, size and alignment of every live block in its header |
| `Division.ShiftCases` | drivers/core/builtins/udivdi3.c:20-31 | what the truncated difference of leading zeroes says about the operands, for any clz(0) in 1..64 |
| `Division.ShiftSubtract` | drivers/core/builtins/udivdi3.c:30-48 | the branch-free loop computes quotient and remainder, also for divisors from 2^63 up |
| `Division.Step` | drivers/core/builtins/udivdi3.c:36-46 | one round keeps the partial quotient and remainder without a wrapped bit being lost |
| `Division.UDivDi3` | drivers/core/builtins/udivdi3.c:18-49 | the quotient, for every dividend and nonzero divisor |
| `Division.UModDi3` | drivers/core/builtins/umoddi3.c:16-46 | the remainder, for every dividend and nonzero divisor |
| `Division.DivDi3` | drivers/core/builtins/divdi3.c:16-24 | the quotient truncated toward zero, modulo 2^64 |
| `Division.ModDi3` | drivers/core/builtins/moddi3.c:16-24 | the remainder with the dividend's sign |
| `Division.TruncationLaws` | drivers/core/builtins/divdi3.c:16-24 | a == q * b + r with \|r\| < \|b\| and the sign of a; the quotient fits unless a is -2^63 and b is -1 |
| `Sha1.FlipReads` | kernel/utils/bitwise.c:88-92 | flipping a word reads its bytes most significant first |
| `Sha1.Sha1Context.ReadBlock` | drivers/crypto/sha1/sha1.c:207-218 | the next 64 bytes of the message, or what is left |
| `Sha1.Sha1Context.PadBlock` | drivers/crypto/sha1/sha1.c:44-86 | block and extra block together are the padded tail; the extra block appears exactly from 56 bytes on |
| `Sha1.Sha1Context.Schedule` | drivers/crypto/sha1/sha1.c:162-169 | the schedule computed in place is W of RFC 3174, whose later words `Sha1Laws.ScheduleBits` gives bit by bit |
| `Sha1.Sha1Context.TwentyRounds` | drivers/crypto/sha1/sha1.c:96-150 | each of the four loops does its twenty rounds of RFC 3174 |
| `Sha1.Sha1Context.ProcessBlock` | drivers/crypto/sha1/sha1.c:152-192 | one or two blocks are absorbed |
| `Sha1.Chew` | drivers/crypto/sha1/sha1.c:220-240 | for every message, the digest of its blocks followed by the padding with the length the code stores; what a digest is, is pinned by `Sha1Laws` and `Sha1Vector.PublishedDigest` |
| `Sha1.PaddingIsRfcIff` | drivers/crypto/sha1/sha1.c:48-84 | that padding is RFC 3174's exactly below 2^29 bytes |
| `Sha1.ChewIsSha1` | drivers/crypto/sha1/sha1.c:220-240 | below 2^29 bytes the result is SHA-1, the function that `Sha1Vector.PublishedDigest` evaluates |
| `Sha1Spec.AbsorbAppend` | drivers/crypto/sha1/sha1.c:220-240 | absorbing in pieces is absorbing the whole |
| `Sha1Laws.RotationMovesBits` | kernel/utils/bitwise.c:83-86 | rotating by 1, 5 or 30 moves bit i to bit (i + n) mod 32 |
| `Sha1Laws.ScheduleBits` | drivers/crypto/sha1/sha1.c:165-169 | bit i + 1 of a later schedule word is the exclusive or of bit i of four earlier ones |
| `Sha1Laws.Choice` | drivers/crypto/sha1/sha1.c:96-108 | the first twenty rounds choose c or d by b, bit by bit |
| `Sha1Laws.Parity` | drivers/crypto/sha1/sha1.c:110-150 | rounds 20 to 39 and 60 to 79 take the parity of the three bits |
| `Sha1Laws.Majority` | drivers/crypto/sha1/sha1.c:124-136 | rounds 40 to 59 take their majority |
| `Sha1Laws.Constants` | drivers/crypto/sha1/sha1.c:96-150 | the four constants are 2^30 times the square roots of 2, 3, 5 and 10, rounded down |
| `Sha1Vector.PublishedDigest` | drivers/crypto/sha1/sha1.c:220-240 | the digest of "abc" is a9993e36 4706816a ba3e2571 7850c26c 9cd0d89d |
| `PageTables.EntryRoundTrip` | arch/x86/mem/pd.c:16-38 | a table address put into an entry comes back from it |
| `PageTables.IndicesAreThePage` | arch/x86/mem/pdpt.c:39-42 | two addresses have the same three indices exactly when they are in one page |
| `PageTables.Va2PaIsFrame` | arch/x86/mem/mm.c:106-110 | frame plus offset when mapped; when not, 0 exactly for an aligned address or a missing table |
| `PageTables.AddPd` | arch/x86/mem/mm.c:200-210 | a fresh page directory changes no translation and no permission |
| `PageTables.AddPt` | arch/x86/mem/mm.c:213-224 | nor does a fresh page table |
| `PageTables.SetEntry` | arch/x86/mem/mm.c:77-97 | setting both entries changes no other page, although directory permissions only grow; the page grants exactly the permissions asked for, its table entry's user bit included, if it was or becomes present, nothing otherwise |
| `PageTables.Mmu.MapPage` | arch/x86/mem/mm.c:193-239 | maps exactly one page, present at all three levels and with exactly its permissions, or -ENOMEM exactly when a needed table was refused, and then no translation changes; after success user code can use the page exactly when PAGE_USER was asked for, and no directory entry but the page's changes its user bit |
| `PageTables.Mmu.SetPageFlags` | arch/x86/mem/mm.c:241-265 | changes the permissions of exactly one page and no frame, -EINVAL exactly when it has no frame; a page that is absent and has a frame stays absent, and the call succeeds; user code can use the page afterwards exactly when PAGE_USER was asked for and the page could be reached before, and no other directory entry changes its user bit |
| `PageTables.ChangeGrantsIff` | arch/x86/mem/mm.c:241-265 | changing flags grants what is asked for exactly when the page granted something before |
| `PageTables.Mmu.NewSpace` | arch/x86/mem/mm.c:112-123 | an empty space; the others are as they were |
| `PageTables.Mmu.MapKernel` | arch/x86/mem/mm.c:166-182 | the space gets the kernel's directory, present if the kernel's is; nothing else changes |
| `PageTables.SharedQuarter` | arch/x86/mem/mm.c:166-182 | spaces with the kernel's directory translate every address from 3 GiB up like the kernel; the processor allows the same in both exactly when their two entries agree on being present, or nothing is granted |
| `PageTables.SharedForever` | arch/x86/mem/mm.c:166-239 | and do so for the rest of any run, teardown of other spaces included; permissions agree forever once a present entry was copied |
| `PageTables.UserPagesArePrivate` | arch/x86/mem/mm.c:193-239 | mapping below 3 GiB changes no translation and no permission of another space |
| `PageTables.LastCallDecides` | arch/x86/mem/mm.c:125-265 | after any run of mapping, flag changes, failures, creations and teardowns, a page has the frame and the write, execute and user permissions the last call for it left: those asked for exactly when that call mapped it or it granted something before |
| `PageTables.MappingIsPrivateIff` | arch/x86/mem/mm.c:193-239 | a mapping changes another space exactly when it is in the kernel quarter, the directory is shared, and the page was mapped elsewhere |
| `PageTables.BootIsWf` | arch/x86/boot/entry32.S:161-174 | the tables the kernel boots with, whatever mm_enforce_ksections_perms left in their entries, satisfy the invariant of all these results |
| `PageTables.BootTranslates` | kernel/mem/mm.c:306-309 | while page k is mapped to frame k at boot, va2pa of mm_kpa2va(pa), which is 3 GiB + pa, is pa for all of the first 2 MiB |
| `PageTables.BootloaderPageStaysAbsent` | kernel/mem/mm.c:201-206 | the bootloader section is absent with its frame kept, and setting its flags leaves it absent |
| `Paging.InsertedAscends` | kernel/mem/paging.c:55-87 | inserting keeps the array strictly ascending and adds exactly the new page |
| `Paging.PagingStruct.Enlarge` | kernel/mem/paging.c:15-30 | growth keeps the tracked pages |
| `Paging.PagingStruct.TrackPage` | kernel/mem/paging.c:55-87 | sorted insertion; -ENOMEM exactly on a failed growth, panic exactly for a page tracked twice |
| `Falloc.BwClearIsClearIff` | kernel/utils/bitwise.c:9-25 | when bw_clear clears one bit |
| `Falloc.ClearKeepsIff` | kernel/utils/bitwise.c:9-25 | other marks of the word survive exactly when the bit is in the upper half or none of them is |
| `Falloc.NeighbourLosesMark` | kernel/utils/bitwise.c:9-14 | clearing bit 10 takes bit 40 with it |
| `Falloc.FrameAllocator.OneUser` | kernel/mem/falloc.c:89-109 | the highest free frame at or below the cursor, 0 exactly when words 1 and up have none; it was free at the start and nobody holds it |
| `Falloc.FrameAllocator.OneAt` | kernel/mem/falloc.c:123-137 | takes exactly that frame, or -ENOMEM if it is marked; it is no held one as long as held frames are marked |
| `Falloc.FrameAllocator.FreeOne` | kernel/mem/falloc.c:144-155 | the exact effect of any free on the bitmap; held frames keep their marks exactly when none is the freed frame or, for a frame in the lower half of its word, in the upper half of that word; and exactly when the frames below the cursor stay as they were |
| `Falloc.ClearFrame` | kernel/mem/falloc.c:144-155 | which frames lose their mark when one is freed |
| `Falloc.Init` | kernel/mem/falloc.c:67-86 | after boot a frame is free exactly when freeing some available page takes its mark; panic exactly without available memory |
| `Falloc.AddAvailable` | kernel/mem/falloc.c:60-65 | the same for one region |
| `Falloc.FramesFromAre` | kernel/mem/falloc.c:60-65 | the frames of a region are those of every page that starts in it, cut to 32 bits |
| `Falloc.FramesOfAre` | kernel/mem/falloc.c:67-73 | the frames freed at boot are those of all regions |
| `Falloc.InitIsExactIff` | kernel/mem/falloc.c:67-86 | the kernel starts with exactly the available frames free if and only if every word with an available frame in its lower half is available in all of its upper half |
| `Falloc.HeldFrameGivenAway` | kernel/mem/mm.c:323-332 | a run after which falloc_one_at grants a frame that a user page holds |
| `UserPages.UserMemory.NewUserPage` | kernel/mem/mm.c:319-340 | one page, mapped to a frame nobody held where the processor reaches it and user code may use it with the permissions asked for, and tracked, at any address; -ENOMEM exactly without a frame or a table, and then no translation changed; when held frames stay marked |
| `UserPages.FramesAreDistinct` | kernel/mem/mm.c:319-340 | pages given out, in one space or in two, have distinct nonzero aligned frames |
| `UserPages.StepKeepsGiven` | arch/x86/mem/mm.c:112-265 | flag changes, kernel mappings, failures, new spaces, the kernel entry copy and teardown of other spaces leave every page given out where it is, reachable |
| `UserPages.EventKeeps` | kernel/mem/mm.c:319-340 | so does giving out one more page |
| `UserPages.GivenForever` | kernel/mem/mm.c:262-340 | over any run, pages given out in all spaces stay mapped and no two share a frame |
| `UserPages.NeverTwice` | kernel/mem/falloc.c:89-109 | no frame is given out twice in a run, not even after a teardown |
| `UserPages.TableIsRegion` | arch/x86/mem/mm.c:49-69 | two pages of a space have the same table exactly when they share 2 MiB, the same directory exactly when they share 1 GiB |
| `UserPages.MetBefore` | arch/x86/mem/mm.c:137-157 | in an ascending array, comparing with the previous table tells whether a table was met before |
| `UserPages.FreePts` | arch/x86/mem/mm.c:137-146 | every page table below the tracked pages is freed exactly once |
| `UserPages.FreePds` | arch/x86/mem/mm.c:148-157 | every page directory below the tracked pages is freed exactly once |
| `UserPages.ClearEntries` | arch/x86/mem/mm.c:128-135 | touches no table of another space; frame 0 is what gets freed, once per page, so no tracked page's frame is ever given back and no mark outside word 0 changes |
| `UserPages.WithoutKeeps` | arch/x86/mem/mm.c:125-164 | if no tracked page is in a shared directory, there is no dangling pointer and no other space changed |
| `UserPages.TeardownIsSafeIff` | arch/x86/mem/mm.c:125-164 | the tables left are well-formed if and only if no tracked page is in a directory that another space shares |
| `UserPages.UserMemory.DestroySpace` | arch/x86/mem/mm.c:125-164 | the whole teardown: tables below the tracked pages and the pointer table freed exactly once, no frame but 0 and 32 to 63 unmarked; the other spaces keep translations and permissions if no tracked page is in the shared kernel quarter |
| `HashTable.HashTable.Insert` | kernel/utils/hashtable.c:111-122 | the map with the pair; the hash function's error, or -ENOMEM for a new key, and no change |
| `HashTable.HashTable.Find` | kernel/utils/hashtable.c:124-136 | the map's value, or -ENOENT |
| `HashTable.HashTable.Remove` | kernel/utils/hashtable.c:138-167 | the map without the key, -ENOENT, or panic exactly when shrinking a slot of more than one pair fails |
| `HashTable.HashTable.KeyToSlot` | kernel/utils/hashtable.c:36-54 | the xor of the digest words modulo the capacity |
| `HashTable.XorOfParts` | kernel/utils/hashtable.c:48-50 | the combined hash is the exclusive or of the digest words, however they are split |
| `HashTable.SlotIsRemainder` | kernel/utils/hashtable.c:52 | the slot is what the hash leaves when divided by the capacity |
| `HashTable.HashTable.MaybeEnlarge` | kernel/utils/hashtable.c:15-34 | on a table in use it succeeds and changes nothing; if its body ran, a right table would stay right exactly when no key hashes into the new half |
| `HashTable.AddValueToSlot` | kernel/utils/hashtable.c:56-79 | overwrite or append, keeping keys distinct |
| `HashTable.ShiftDown` | kernel/utils/hashtable.c:149-151 | the shifting loop removes exactly one entry |
| `HashTable.InSlot` | kernel/utils/hashtable.c:82-91 | a key is in the map exactly when its own slot holds it, and no other slot does |
| `HashTable.SlotReplaced` | kernel/utils/hashtable.c:111-167 | replacing a key's pair in its slot replaces it in the map |
| `HashTable.EnlargeKeepsIff` | kernel/utils/hashtable.c:15-34 | when doubling without rehashing would be right |
| `FdTable.KeyInjective` | kernel/fs/vfs_fdt.c:13-16 | two (fd, pid) pairs have the same key exactly when they are the same pair |
| `FdTable.KeyParts` | kernel/fs/vfs_fdt.c:13-16 | the upper word of a key is the fd, the lower word the pid |
| `FdTable.DescriptorTable.NewSysfd` | kernel/fs/vfs_fdt.c:23-43 | a new zeroed descriptor found under its pair, or NULL and no change; the table keeps all its descriptors exactly when the pair was not open |
| `FdTable.EnteredMatches` | kernel/fs/vfs_fdt.c:23-43 | entering a descriptor under a key loses none exactly when the key was free |
| `FdTable.DescriptorTable.GetSysfd` | kernel/fs/vfs_fdt.c:45-55 | the descriptor of the pair, NULL exactly when it is not open |
| `FdTable.DescriptorTable.FreeSysfd` | kernel/fs/vfs_fdt.c:57-62 | takes away exactly that descriptor and its pair; panics exactly when a slot with other pairs cannot be shrunk |
| `ProcFds.Process.NewFd` | kernel/proc/proc.c:104-125 | the first free number from the cursor on, never one handed out before; -EOVERFLOW never |
| `ProcFds.Process.FreeFd` | kernel/proc/proc.c:127-133 | frees exactly that number; out of range does nothing |
| `ProcFds.Process.EnlargeFds` | kernel/proc/proc.c:73-89 | no number in use is gained or lost, and with memory there is room at the cursor afterwards |
| `Vfs.ReleasedCounts` | kernel/fs/vnode.c:12-23 | closing one descriptor keeps count == descriptors for every node; the node is handed to rmnode exactly when that was the last and removal is pending, and goes exactly when it was handed over and not refused; other nodes stay |
| `Vfs.CountOpened` | kernel/fs/vnode.c:6-10 | so does opening one |
| `Vfs.CountRemoved` | kernel/fs/vfs.c:371-375 | a node with count 0 can go without any descriptor dangling |
| `Vfs.EventAwaits` | kernel/fs/vnode.c:12-23 | an open, a close, an unlink or a new file does not cancel a pending removal: the node waits on, or a close leaves nobody and hands it to rmnode |
| `Vfs.PendingIsHanded` | kernel/fs/vfs.c:348-376 | over any run of those, a node whose removal is pending has been handed to rmnode or somebody has it open still |
| `Vfs.Vfs.Open` | kernel/fs/vfs.c:378-440 | exactly when it succeeds, panics, and with which error it fails; success binds a number never used before and counts it, failure leaves descriptors, counts and open numbers alone; success is an event of the runs above |
| `Vfs.Vfs.OpenMissing` | kernel/fs/vfs.c:392-409 | O_CREAT makes the file, an event of those runs, and still fails |
| `Vfs.Vfs.Close` | kernel/fs/vfs.c:550-563 | exactly one descriptor goes; rmnode is called exactly on the last close of a node pending removal; panics exactly when a slot with other pairs cannot be shrunk; success is an event of those runs |
| `Vfs.Vfs.RmFile` | kernel/fs/vfs.c:348-376 | directories are refused; an unopened file goes at once, an open one is marked; success is an event of those runs |
| `Vfs.Vfs.DecreaseRefcount` | kernel/fs/vnode.c:12-23 | its assertion holds whenever a descriptor points to the node |
| `ProcTable.YieldKeeps` | kernel/proc/procm.c:291-301 | a yield reaps only zombies and never the caller, keeps every live process, and leaves only the picked one running |
| `ProcTable.NextIsUnique` | drivers/schedulers/ringsched/ringsched.c:13-33 | the pick is determined |
| `ProcTable.RingOrder` | drivers/schedulers/ringsched/ringsched.c:13-33 | the ring runs upward: the pick is the lowest live slot above the caller, or else the lowest of all, the caller last |
| `ProcTable.EnteredOnce` | kernel/proc/proc.c:205-226 | a process that never ran is entered when it is picked, any other resumes as it yielded, and nobody becomes one that never ran |
| `ProcTable.NextExists` | drivers/schedulers/ringsched/ringsched.c:13-33 | there is a pick whenever somebody is live |
| `ProcTable.NearestFromCaller` | drivers/schedulers/ringsched/ringsched.c:13-33 | scanning on from a slot just reaped is scanning from the caller |
| `ProcTable.OnlyCallerLeft` | kernel/proc/procm.c:90-102 | coming back to a zombie caller means nobody else is left, so -EINVAL cannot happen in a yield |
| `ProcTable.ComesCloser` | kernel/proc/procm.c:291-301 | a live process that is not picked comes strictly closer |
| `ProcTable.NoStarvation` | kernel/proc/procm.c:291-301 | over any run without spawns a live process is picked within as many yields as there are live processes |
| `ProcTable.ExitKills` | kernel/proc/procm.c:224-229 | exit takes that process and no other out of the live ones, records its status, and empties no slot |
| `ProcTable.DeadForever` | kernel/proc/procm.c:303-310 | over any run of yields and exits, no yield picks a process that exited |
| `ProcTable.ZombiesAreReaped` | kernel/proc/procm.c:291-301 | and its slot is emptied by the first yield that passes it: it lasts for no more yields than there are live processes |
| `Procs.ProcessManager.AvailablePid` | kernel/proc/procm.c:38-49 | the first empty slot from the cursor on; its overflow check never fires |
| `Procs.ProcessManager.AddToPool` | kernel/proc/procm.c:51-75 | fills that slot and counts it, growing by 16; the assertion fails exactly beyond the end |
| `Procs.ProcessManager.Spawn` | kernel/proc/procm.c:183-200 | the first free pid from the cursor on; -ENOMEM exactly when all those are taken and growth fails, panic exactly after such a failure with nothing reaped since |
| `Procs.ProcessManager.Kill` | kernel/proc/procm.c:77-88 | empties exactly that slot and keeps the count right |
| `Procs.ProcessManager.TryKillProc` | kernel/proc/procm.c:90-102 | never the acting process; panics exactly when it is the only one |
| `Procs.ProcessManager.MarkDead` | kernel/proc/procm.c:224-229 | that process and no other leaves the live ones, its status is recorded, and every other slot and the filled ones are as before |
| `Procs.ProcessManager.NextProc` | drivers/schedulers/ringsched/ringsched.c:13-33 | ends, at the nearest filled slot on the ring |
| `Procs.ProcessManager.ReapUntilLive` | kernel/proc/procm.c:296-298 | ends, at the nearest live process with everything passed reaped, or in the panic exactly when nobody is live |
| `Procs.ProcessManager.SchedYield` | kernel/proc/procm.c:291-301 | always ends: a live process runs and the table is as `Yields` says, or it panics, exactly when no process is live; the -EINVAL branch and the running-process assertion are never hit |
| `NumberText.CollectDigits` | kernel/kstdlib/stdlib.c:54-65 | the digits, least significant first, never past the 21 bytes |
| `NumberText.DigitCount` | kernel/kstdlib/stdlib.c:54-65 | a number has at most k digits exactly below the k-th power of the base |
| `NumberText.BufferFits` | kernel/kstdlib/stdlib.c:54 | 21 bytes suffice for 32-bit numbers from base 3 up, base 3 needs all of them, base 2 fits exactly below 2^21 |
| `NumberText.WriteReversed` | kernel/kstdlib/stdlib.c:67-75 | the digits back to front, a terminator, and nothing else written |
| `NumberText.Lltoa` | kernel/kstdlib/stdlib.c:37-76 | the text of the number and a terminator, in place |
| `NumberText.Ulltoa` | kernel/kstdlib/stdlib.c:208-239 | the same for unsigned numbers |
| `NumberText.ValueOfDigits` | kernel/kstdlib/stdlib.c:56-65 | reading the digits gives the number |
| `NumberText.PrintedCharacters` | kernel/kstdlib/stdlib.c:56-75 | the printers write decimal digits, upper-case letters and a minus sign in front, nothing else |
| `NumberText.StrTo` | kernel/kstdlib/stdlib.c:78-196 | both parsers: status, end and value for every string and base, as `NumberText.ParseMeans` and `NumberText.ParseBadBase` spell them out |
| `NumberText.SumDigits` | kernel/kstdlib/stdlib.c:113-135 | the accumulating loop and where it stops; its digits are those of `NumberText.DigitTable` |
| `NumberText.DigitTable` | kernel/kstdlib/stdlib.c:78-126 | in every base up to 32, digit d is character 48 + d below ten, else 55 + d or 87 + d |
| `NumberText.NoOtherDigit` | kernel/kstdlib/stdlib.c:78-87 | no other character is a digit |
| `NumberText.SpaceTable` | kernel/kstdlib/stdlib.c:102-103 | the six characters that are skipped |
| `NumberText.SpacesAreSkipped` | kernel/kstdlib/stdlib.c:102-103 | a space in front moves the end and changes nothing else |
| `NumberText.ParseIgnoresCase` | kernel/kstdlib/stdlib.c:78-126 | every string parses as it does in lower case, in every base |
| `NumberText.ParseBadBase` | kernel/kstdlib/stdlib.c:91-95 | success with nothing stored exactly for a base below 0, of 1 or above 36, and a fatal error exactly for base 0 |
| `NumberText.RightIffFits` | kernel/kstdlib/stdlib.c:113-135 | the sum is the number denoted exactly when that fits |
| `NumberText.OverflowIff` | kernel/kstdlib/stdlib.c:128-132 | the overflow check fires exactly when some digit makes the stored number smaller than it was |
| `NumberText.ParseMeans` | kernel/kstdlib/stdlib.c:89-196 | for every string and every base from 2 to 36, the whole result: -EINVAL exactly without a digit, -ERANGE exactly when the check fires, with the extreme value, otherwise the end of the digits and the number denoted, wrapped |
| `NumberText.OverflowMissed` | kernel/kstdlib/stdlib.c:128-134 | an input whose overflow goes unnoticed |
| `NumberText.StrtolAfterLtoa` | kernel/kstdlib/stdlib.c:144-196 | every long but the least comes back from its text, all of it read |
| `NumberText.StrtolRefusesLeast` | kernel/kstdlib/stdlib.c:183-187 | the text of the least long gets -ERANGE, in every base |
| `NumberText.StrtolRoundTripIff` | kernel/kstdlib/stdlib.c:144-196 | the round trip of a long succeeds exactly above LONG_MIN |
| `NumberText.StrtoulAfterUltoa` | kernel/kstdlib/stdlib.c:78-142 | every unsigned long comes back whole |
| `NumberText.StrtoulOfLowerCase` | kernel/kstdlib/stdlib.c:78-142 | so does its text in lower case |
| `NumberText.SymbolAddress` | kernel/ksyms.c:76-79 | "c0100000" in base 16 is 0xC0100000 |

## Left out

- The three pools are separate arrays, not ranges of one heap; `HeapLayout.HeapIsLaidOut` is why that loses nothing.
- Heap memory is taken to be zero when a heap is registered, as the code relies on, and clients store only inside their own payloads.
- One heap is active: the heap table, statistics and driver registration are not modelled, and the default alignment is a parameter.
- `Kmalloc.KernelAllocator.KfreeCall`: the 16 bytes before an address that is no live block's do not spell an allocation header; a client that forges one is not covered. Outside the pools those bytes are a parameter.
- `Kmalloc.KernelAllocator.KreallocCall`: the same.
- `Division.ShiftCases`: clz(0) is undefined in C; every value from 1 to 64 is covered, no other.
- `Division.UModDi3`: shares its loop with `UDivDi3`, since the two source loops are the same statements; likewise setting and clearing bits share `MarkBits`, the two parsers share `StrTo` and the printers share their two loops.
- `Sha1.Chew`: only the little-endian build; the padding of messages of 2^32 bytes and more is outside a size_t.
- `PageTables.Mmu.MapPage`: the user bit of a directory entry is stated call by call; over runs, where the last call for its 2 MiB overwrites it, it has no theorem; TLB flushes and CR3 loads have no effect here, and kmalloc answers with a page-aligned address in no use or NULL.
- `PageTables.LastCallDecides`: a page mapped to physical address 0 is not told from an unmapped one, as in the code, and is left out; copying the kernel's entry over an entry in use is no step of a run.
- mm_rm_page_flags_arch assigns its flags instead of removing them and is no step of the model; it is called at boot only, and `PageTables.BootIsWf` holds whatever it leaves in the entries.
- `UserPages.UserMemory.DestroySpace`: the frames are not returned, because the code clears each entry before reading its frame; tracked pages in the kernel quarter are taken to have their page table still.
- `Falloc.FrameAllocator.FreeOne`: the free-frame counter, which falloc_one_at does not decrement, is not modelled.
- `Falloc.Init`: regions start on a page, as mregmap_align_regs leaves them; an address of 4 GiB or more is cut to 32 bits, as in the code.
- `Vfs.Vfs.Enter`: a process starts under a pid never used before; with reuse, an old descriptor under the same pair would be overwritten (`FdTable.EnteredMatches`).
- `Vfs.Vfs.Open`: path lookup and the driver's answers are parameters; read, write, lseek, ioctl and mmap change no count and are not modelled.
- Hash tables: hashtable_destroy, and the 32-bit size of a slot of 2^28 entries.
- `Procs.ProcessManager.Spawn`: loading the program, the kernel stack and saved register contexts are not modelled; processes are values in the table, told apart by pid, not heap objects.
- `NumberText.Lltoa`: the least long long has no absolute value in C and is excluded; bases below 2 and numbers that overflow the 21-byte buffer are the caller's error.
- `NumberText.StrTo`: signed overflow is undefined in C and taken to wrap.
- Memory region maps, the generic bitmap and dma_map_range: their loops do not do what their headers say (kernel/mem/mregmap.c:88-89, kernel/utils/bitmap.c:17); FAT and path canonicalisation depart from theirs; consoles and device drivers are input and output.

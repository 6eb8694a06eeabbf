# Dafny models of S2E's execution core

These modules model the parts of S2E that keep several views of the same guest state consistent,
and prove that they stay consistent: the translation block cache of libcpu and its detection of
self-modifying code, the multi-path TLB with copy-on-write between execution states, the unwind
tables, the process slots of a parallel run, and a number of smaller structures below them.

Where the C or C++ code updates structures in place, the model does too: links are followed and
rewritten one by one, loops are loops, and each method is proved against a function or a predicate
that speaks about plain sequences, maps and sets. Most methods take the old value of a structure
and return the new one; the classes `CodeCache`, `S2ETlb`, `RamList`, `Pages`, `Clock` and
`Watchpoints` hold those values as fields and update them. `ghost` parameters carry what the
structures stand for.

## Components

**Self-modifying code.** `SmcMachine` is the plain state behind the code cache: live translation
blocks (TBs), chained jumps, dirty bytes, TLB and RAM. `StepEffects` says what each of its steps changes, without guards and helpers. Its result is that in every state of every
run each live TB still equals the RAM it was translated from. `TbLinks`, `TbInsert`, `TbLookup`,
`TlbFlush` and `CodeCache` keep the real structures (hash buckets, page lists, jump lists with
tagged destinations, code bitmaps, jump cache, software TLB, large-page region) and are proved to
take exactly the steps of `SmcMachine`. `IntrusiveLists` models the singly linked lists, `PageLists` the walk over a list that changes, `CodeBitmap`
the bitmap arithmetic, `FlushRegion` and `Masks` the address masks. `SmcLimits` and
`CacheLimits` show where that stops.

**Multi-path TLB.** `StateTlb` models the reverse map from object states to TLB slots; `CopyOnWrite`
models execution states that share object states, and proves that they refine a machine in which a
fork copies the whole memory. `Detachment` shows when a TLB leads out of its address space.

**Unwinding.** `Sleb128` and `Unwind` model the compressed tables that lead from a host pc to a guest pc.

**Processes.** `ProcessSlots` is a state machine in which every statement on shared memory is a step.
`ProcessSections` shows what the statements of a critical section do together.

**Below.** `RamBlocks` (best-fit RAM blocks), `PageMap` (multi-level map of page descriptors), `SoftMmu`
(unaligned accesses), `VirtualClock`, `TailQueue` and `Watchpoints`, `Utf8`, `ConstraintHash`. `Wrappers`
and `Arith` hold an option type and facts about remainders.

## What does not hold

These expected properties are false of the code. For each there is an input, where possible a run from the
initial state, and the exact condition under which the property holds.

- The comment on `tb_invalidate_phys_page_fast` asks for a length of at most 8 and a start that is a
  multiple of it. That is not enough: `CodeBitmap.FastTestMissesByte8` gives such a store whose code
  byte is missed. `CodeBitmap.FastTestExact`: the test is right for every bitmap if and only if the
  stored bytes share one byte of the bitmap. The 1, 2 and 4 byte stores do. The 8 byte store of code translated for
  symbolic execution makes a second call that does not; `CodeCache.CodeCache.StoreEight` shows that this is harmless,
  because the first call has already dropped the TBs that the store hits.
- `tb_find_slow` compares a TB's second page with the current mapping, but takes the TB either way.
  `CacheLimits.StaleSecondPage` fetches code over two pages, remaps and flushes the second one, and gets
  the old TB again. `TbLookup.GuestCodeExact`, and through it the contract of `CodeCache.CodeCache.Fetch`,
  say that the TB is the code which the CPU maps if and only if its second page is where the CPU maps it.
- If both virtual pages of a TB lead to one physical page, the TB is twice in a row on that page's list. The loop
  of `tb_invalidate_phys_page_range` reads the next link before it invalidates, so it meets the TB again, and
  if it is hit again, `tb_remove` runs off the end of the hash bucket. `CacheLimits.InvalidatedTwice` gets
  there. `TbLinks.DropHits`: the loop fails if and only if the range hits both parts of a TB.
- `io_write` stores straight to RAM through an entry that has the MMIO flag but not the not-dirty flag.
  Protecting a code page skips MMIO entries, so such a store can overwrite code unnoticed:
  `SmcLimits.DirectStoreUnsafe` is a run that gets there. `SmcLimits.DirectStoreExact`: the direct store is
  harmless in all states if and only if its entry does not have the MMIO flag.
- `tlb_set_dirty` goes by virtual page only, so the MMU modes of a CPU must agree on where a page leads.
  `SmcLimits.ModesMustAgree` is a run in which they do not and code is overwritten unnoticed;
  `SmcLimits.SetDirtyExact` is the exact condition.
- `splitMemoryObject` reports the split of the original object after `getWriteable` may have replaced it.
  `Detachment.SplitExact`: the TLB follows the split if and only if the state owned the object or no
  entry led to it. `Detachment.SplitDetaches` is a run to a case, and `Detachment.SplitStatus` and
  `Detachment.SplitLoads` tell what comes of it: the entry no longer tells whether the page is symbolic, and after a
  fork loads through it miss what is stored.
- Process ids are 32 bits wide and one value marks a free slot. `ProcessSlots.IdsRunOut` is a run in which a process
  gets that id, and `ProcessSlots.IdsComeBack` one in which an id is handed out again. `ProcessSlots.StepExact`: that and
  nothing else breaks the invariant.
- `find_ram_offset` does not take a gap as large as its initial best size. `RamBlocks.EmptyFirst`: once an empty block
  is first in the table, nothing else can be allocated. `RamBlocks.FindRamOffset` has the exact condition.
- `tlb_flush_page` on a large page does nothing while flushing is disabled; `CodeCache.CodeCache.FlushPage`
  has that case in its contract.

Two more are limits of functions alone, which no caller in the repository runs into. `updateTlb` overwrites the reverse
map's list of the new object; its callers pass an object that is new or the same. `StateTlb.MoveExact` is the exact
condition and `StateTlb.MoveOverwrites` a case. `bindObject` over an object and `unbindObject` tell neither the TLB nor
`AddressSpaceCache`; of the pages that are in use, only `splitMemoryObject` binds and unbinds any, and it clears the
cache slot. `Detachment.AttachedExact` is the exact condition, `Detachment.BindDetaches` a run of these functions to a case,
and `Detachment.FastStoreLands` tells what is lost then. The other states are isolated all the same.

The copy constructor of `AddressSpace` gives parent and child of a fork the same key. That is harmless:
`CopyOnWrite.StepRefines` is proved with it.

## Model

| member | source | states |
|---|---|---|
| IntrusiveLists.ChainUnique | libcpu/src/exec-tb.c:144-170 | the links of a list determine its contents: no two sequences fit the same pointers |
| IntrusiveLists.Push | libcpu/src/exec-tb.c:518-523 | insertion at the head puts the node first on its list and leaves every other list of the family as it was |
| IntrusiveLists.Locate | libcpu/src/exec-tb.c:144-154 | the walk through pointers to pointers finds the first node that fits, knows the link that holds it, and never reads a null node |
| IntrusiveLists.Unlink | libcpu/src/exec-tb.c:156-170 | unlinking takes exactly that node off its list |
| IntrusiveLists.RemoveFirst | libcpu/src/exec-tb.c:143-170 | searching for a node and unlinking it takes off the first one that fits and runs off the end if and only if there is none; the links of the nodes that fit stay as they are |
| IntrusiveLists.RemoveOnly | libcpu/src/exec-tb.c:144-170 | where one node is known to fit, the search finds it and removes exactly that node |
| IntrusiveLists.MoveToFront | libcpu/src/cpu-exec.c:133-139 | moving a found node to the front keeps the set of nodes of every list |
| Masks.RangeHolds | libcpu/src/exec-bp.c:189-213 | an address lies in an aligned range of 2^k bytes if and only if masking it gives the start of the range |
| Masks.Coarser | libcpu/src/exec-tlb.c:182-199 | addresses that agree under a mask agree under every wider one |
| CodeBitmap.SetBits | libcpu/src/exec-tb.c:293-317 | exactly the bits of the given range are set and no other bit changes, for every start and length, across byte boundaries |
| CodeBitmap.MarkByteBit | libcpu/src/exec-tb.c:293-317 | each byte's mask sets exactly the bits of the range that lie in the byte |
| CodeBitmap.FastTestMeans | libcpu/src/exec-tb.c:475-479 | the shifted and masked byte is nonzero if and only if one of the addressed bits within that byte is set |
| CodeBitmap.FastTestMissesByte8 | libcpu/src/exec-tb.c:460-484 | a store that meets the documented condition and whose code byte the test misses |
| CodeBitmap.FastTestExact | libcpu/src/exec-tb.c:460-484 | the test finds the code bytes of the store for all bitmaps if and only if the store stays within one byte of the bitmap |
| FlushRegion.AddLargePage | libcpu/src/exec-tlb.c:180-199 | the widening loop ends, and the new region is the smallest that holds the large page and everything the old region held |
| FlushRegion.HashPage | libcpu/src/exec-all.h:106-110 | a page's jump cache slots lie within the cache |
| FlushRegion.HashFunc | libcpu/src/exec-all.h:112-116 | every pc hashes into the 64 slots of its page |
| FlushRegion.SlotsApart | libcpu/src/exec-all.h:106-116 | two addresses of one 64-byte line never share a jump cache slot, and two pages of one group of 64 never share slots |
| FlushRegion.OverlapStarts | libcpu/src/exec-tlb.c:33-43 | a block of at most a page that reaches into a page starts on that page or on the one before, with wrap-around |
| SmcMachine.WriteKeepsMatch | libcpu/src/exec.c:204-238 | a store that hits no source byte of a TB leaves the TB equal to RAM |
| SmcMachine.OffPageMisses | libcpu/src/exec-tb.c:351-458 | bytes on pages that a TB is not on are not source bytes of it |
| SmcMachine.LinkKeeps | libcpu/src/exec-tb.c:487-536 | linking a TB keeps the whole invariant, even one with both virtual pages on one physical page: its pages are clean of the code-dirty bit and no TLB entry lets stores reach them unnoticed |
| SmcMachine.InvalidateKeeps | libcpu/src/exec-tb.c:351-458 | invalidation restores coherence after any change to the range, and the rest of the invariant holds |
| SmcMachine.SetDirtyKeeps | libcpu/src/exec-tlb.h:23-43 | ending the tests for a page without code is safe in all MMU modes |
| SmcMachine.NotdirtyStoreKeeps | libcpu/src/exec.c:204-238 | a store through a not-dirty entry keeps the invariant |
| StepEffects.NotdirtyEffect | libcpu/src/exec.c:204-238 | such a store writes its bytes and drops exactly the TBs that it hits and the jumps from or to them; all flags of the page but the code flag are set, and if and only if no code is left on it, the page becomes fully dirty and the CPU's entries for the virtual page lose their mark, where nothing else keeps them off the fast path |
| StepEffects.PhysEffect | libcpu/src/exec.c:450-507 | a physical store writes its bytes and drops exactly the TBs that it hits, whether or not the page is found dirty; all flags of the page but the code flag are set, the TLB stays |
| StepEffects.InvalidateEffect | libcpu/src/exec-tb.c:351-458 | exactly the TBs that the range hits are gone, and the jumps from or to them; the code flag of the page is set if and only if a CPU wrote and no code is left, and nothing else changes |
| StepEffects.LinkEffect | libcpu/src/exec-tb.c:487-536 | protecting a page only for its first block is as good as protecting it always: the code flag of the pages of the TB is clear, exactly the entries that led stores straight to them are marked, and nothing else changes |
| StepEffects.ClearEffect | libcpu/src/exec.c:138-167 | exactly the flags of the mask are cleared in the pages, and exactly the entries that led stores straight to them are marked |
| Tlb.FillExact | libcpu/src/exec-tlb.c:224-316 | loads, stores and code get through for exactly the kinds of access that the protection allows, at the page that was asked for; stores are on the fast path if and only if the page is dirty RAM without watchpoint or symbolic I/O, loads whether or not it is dirty, and code whether or not it is watched; every other flag and the section are told, too |
| Tlb.ResetExact | libcpu/src/exec-tlb.h:49-57 | stores to the pages are tested from now on, and nothing else about the entry changes |
| Tlb.SetDirtyExact | libcpu/src/exec-tlb.h:23-33 | the mark is lifted if and only if the entry is for the page and has no other flag but the symbolic one; nothing else changes |
| SmcMachine.PhysStoreKeeps | libcpu/src/exec.c:450-507 | a store by physical address keeps the invariant |
| SmcMachine.DirectStoreKeeps | libcpu/src/softmmu_template.h:508-578 | a store on the fast path keeps the invariant: no TB is on the page |
| SmcMachine.TlbFillKeeps | libcpu/src/exec-tlb.c:204-316 | a new TLB entry respects the dirty state of its page |
| SmcMachine.ClearDirtyKeeps | libcpu/src/exec.c:138-167 | clearing another dirty flag of a range of pages, as the dirty log of a display does, keeps the invariant |
| SmcMachine.StepKeeps | libcpu/src/exec-tb.c:351-536 | every step keeps the invariant: link, chain, invalidate, flush, TLB fill and drop, clearing of dirty flags, and all three kinds of store; a TLB fill must agree with the other modes |
| SmcMachine.RunsAreCoherent | libcpu/src/exec-tb.c:351-536 | in every state of every run whose TLB fills agree between modes each live TB equals the RAM it was translated from, its pages have the code-dirty bit clear, and no TLB entry for them is open to fast stores |
| SmcLimits.DirectStoreExact | libcpu/src/softmmu_template.h:425-436 | through an entry that io_write stores through directly, every store leaves all TBs equal to RAM, in every state with that entry, if and only if the entry does not have the MMIO flag |
| SmcLimits.DirectStoreUnsafe | libcpu/src/softmmu_template.h:425-436 | a run from the initial state after which a direct store through an MMIO entry overwrites a live TB's source byte |
| SmcLimits.ModesMustAgree | libcpu/src/exec-tlb.h:35-43 | a run from the initial state in which two modes disagree: a store that hits the only TB of one page ends the protection of another, and the next store there leaves a TB that differs from RAM |
| SmcLimits.SetDirtyExact | libcpu/src/exec-tlb.h:23-43 | whatever code there is, tlb_set_dirty leaves stores to it noticed if and only if each entry that loses its mark leads to the page without code, or to a page that another entry exposes |
| SmcLimits.AgreeingModesSuffice | libcpu/src/exec-tlb.h:35-43 | where the modes agree, each entry that loses its mark leads to the page that was stored to |
| TbLinks.HashOf | libcpu/src/exec-all.h:118-120 | the physical hash is a bucket number |
| TbLinks.BucketsApart | libcpu/src/exec-all.h:118-120 | TBs that start in the same 128 KB of RAM share a bucket if and only if they start in the same word |
| TbLinks.RemoveFromHash | libcpu/src/exec-tb.c:143-154 | the search meets the TB if and only if it is live; then it is taken out of its bucket and every other live TB stays exactly once in its own |
| TbLinks.DropPage | libcpu/src/exec-tb.c:156-178 | the first entry of the TB is taken off the page's list, which loses its bitmap and its write count |
| TbLinks.DropPages | libcpu/src/exec-tb.c:191-201 | the TB is on no page list afterwards, even if both of its pages are one; all other entries of all lists stay, in order; exactly its pages lose their bitmap and write count |
| TbLinks.DropJump | libcpu/src/exec-tb.c:541-586 | the jump is tagged and taken off its destination's list; the search always finds it |
| TbLinks.ResetJumps | libcpu/src/exec-tb.c:596-606 | exactly the jumps on the list forget their destination, keep their tag, and lead to their own exit |
| TbLinks.UnlinkJumps | libcpu/src/exec-tb.c:596-610 | no jump leads to the TB afterwards and its list is empty |
| TbLinks.DropJumps | libcpu/src/exec-tb.c:212-217 | exactly the jumps from and to the TB are gone, and a jump is on its destination's list if and only if its destination is set and untagged |
| TbLinks.DropFromCache | libcpu/src/exec-tb.c:205-210 | exactly the jump cache slots of all CPUs that hold the TB are cleared |
| TbLinks.PhysInvalidate | libcpu/src/exec-tb.c:180-220 | fails if and only if the TB was invalidated before; else no structure leads to the TB any more, and all structures still describe all other TBs exactly |
| TbLinks.PartTest | libcpu/src/exec-tb.c:378-390 | the interval test on one page of a TB holds if and only if the range hits a source byte on that page of the TB |
| TbLinks.ClipTest | libcpu/src/exec-tb.c:378-390 | bytes of the range behind the end of the page make no difference to the interval test |
| TbLinks.HitsByPart | libcpu/src/exec-tb.c:378-390 | a range hits a TB if and only if it hits one of its parts |
| TbLinks.TwiceOnPage | libcpu/src/exec-tb.c:374-432 | a range within a page can hit both parts only of a TB whose two pages are one physical page |
| TbLinks.BuildPageBitmap | libcpu/src/exec-tb.c:319-344 | bit i of the bitmap is set if and only if byte i of the page is a source byte of a live TB |
| TbLinks.CountWrite | libcpu/src/exec-tb.c:366-372 | a page without a bitmap has its write counted, and gets a bitmap exactly when a CPU write reaches the threshold |
| TbLinks.VisitTb | libcpu/src/exec-tb.c:378-430 | one round of the walk: the TB is invalidated if and only if the range hits the part at hand, and the walk goes on at the entry that followed, even if that entry is off the list by now; fails if and only if the TB was invalidated before |
| TbLinks.DropHits | libcpu/src/exec-tb.c:374-432 | the walk over a list that it changes invalidates exactly the TBs that the range hits on the page of its start, and fails if and only if it hits both parts of one |
| TbLinks.InvalidatePhysPageRange | libcpu/src/exec-tb.c:351-458 | fails if and only if the range hits both parts of a TB; else takes exactly the step of the plain machine for what of the range lies on its first page, keeps all structures exact, with or without a page descriptor, and resets a page that is left without code |
| TbLinks.FastTestSkips | libcpu/src/exec-tb.c:473-479 | the bitmap test finds code if and only if some TB is hit by the bytes that share one byte of the bitmap with the start |
| TbLinks.InvalidatePhysPageFast | libcpu/src/exec-tb.c:461-484 | for every start and length up to 8: nothing changes if there is a bitmap and the test finds nothing, else the full scan is made; where the bytes share one byte of the bitmap, that is what the full scan does and it fails where the full scan does |
| TbInsert.ResetDirtyRange | libcpu/src/exec.c:160-166 | exactly the dirty RAM entries for the pages, on all CPUs and in all modes, become not-dirty |
| TbInsert.MaskDirty | libcpu/src/exec-ram.h:122-138 | exactly the flags of the mask are cleared, on exactly the pages of the range |
| TbInsert.LinkHash | libcpu/src/exec-tb.c:518-523 | the new TB is first in its bucket |
| TbInsert.AllocPage | libcpu/src/exec-tb.c:487-508 | the TB is on the page's list, the page has no bitmap and no writes counted, and it is protected if and only if it had no TB before |
| TbInsert.LinkPages | libcpu/src/exec-tb.c:525-530 | both pages are linked and protected exactly as the plain machine does, one page being entered twice if both are the same |
| TbInsert.NewJumps | libcpu/src/translate-all.c:243-257 | a new TB has no jumps in or out |
| TbInsert.LinkPage | libcpu/src/exec-tb.c:512-536 | takes exactly the linking step of the plain machine and keeps all structures exact |
| TbInsert.ChainJumps | libcpu/src/exec-tb.c:622-654 | the jump is patched and filed if and only if its TB is live and it has no destination yet; a tagged jump of a dead TB stays as it is |
| TbInsert.AddJump | libcpu/src/exec-tb.c:622-654 | chaining changes only the jump structures |
| TbInsert.FlushAll | libcpu/src/exec-tb.c:91-107 | no structure leads to any TB afterwards |
| TbLookup.KeyHash | libcpu/src/exec-all.h:118-120 | TBs that agree with a key are in the bucket of the key |
| TbLookup.NewTb | libcpu/src/exec-tb.c:240-257 | the new TB agrees with the key, has the size that was translated, and equals the RAM behind its one or two pages, which may be one page |
| TbLookup.GenCode | libcpu/src/exec-tb.c:222-263 | links the new TB, after a flush if the code buffer is full |
| TbLookup.ToFront | libcpu/src/cpu-exec.c:133-139 | reordering a bucket changes nothing that the structures stand for |
| TbLookup.Search | libcpu/src/cpu-exec.c:96-127 | finds the first TB of the bucket whose pc, physical page, code segment base and flags are those of the key, and which has LLVM code if the key asks for it |
| TbLookup.SearchComplete | libcpu/src/cpu-exec.c:89-127 | the bucket search fails only if no live TB agrees with the key |
| TbLookup.FindSlow | libcpu/src/cpu-exec.c:83-143 | returns a live TB with the pc, physical page, code segment base and flags of the key, and with LLVM code if the key asks for it; nothing is translated if there is such a TB; it is at the head of its bucket and cached for its pc |
| TbLookup.FindFast | libcpu/src/cpu-exec.c:145-180 | although the cached TB is used without a look at physical addresses, the result has the physical page of the key and all the rest of it; a cached TB that has them is the result and nothing changes, and nothing is translated if there is such a TB at all |
| TbLookup.SecondPageExact | libcpu/src/cpu-exec.c:109-125 | the search equals the one that demands the second page to fit if and only if the first TB that agrees with the key fits |
| TbLookup.GuestCodeExact | libcpu/src/cpu-exec.c:109-125 | a TB that lies where its pc is mapped is what the CPU would read there, for every RAM that matches the TB, if and only if its second page, too, lies where it is mapped |
| TbLookup.JumpExact | libcpu/src/cpu-exec.c:256-262 | whatever the page tables are, a chained jump leads to where the CPU maps its pc whenever its source is in place if and only if both start on the same virtual and RAM page, or, with the second page of the source in place, on that one |
| TbLookup.GotoTb | libcpu/src/target-i386/translate.c:2360-2393 | a jump that the translator lets be chained, between TBs that are in place, leads to the first or second page of its source |
| CacheLimits.StaleSecondPage | libcpu/src/cpu-exec.c:109-125 | fetching code over two pages, remapping and flushing the second page, and fetching again gives the old TB, which is not the code that the CPU maps, where a strict search finds none |
| CacheLimits.InvalidatedTwice | libcpu/src/exec-tb.c:374-432 | code over two virtual pages that lead to one physical page, and a write to that page: the walk invalidates its TB twice and fails |
| TlbFlush.EmptyTlb | libcpu/src/exec-tlb.c:88-95 | exactly the CPU's entries are emptied |
| TlbFlush.EmptyRow | libcpu/src/exec-tlb.c:130-143 | exactly the entries of the row that translate the page are emptied, in all modes |
| TlbFlush.RowEmpty | libcpu/src/exec-tlb.c:110-146 | because entries sit at the row of their page, no entry for the page is left anywhere in the CPU's TLB, and all others are as before |
| TlbFlush.FlushJmpCache | libcpu/src/exec-tlb.c:33-43 | exactly the slots for pcs on the page or the one before are cleared; no cached TB of the CPU reaches into the page, so its mapping may change without any cached TB becoming misplaced |
| TlbFlush.ClearedFits | libcpu/src/exec-tlb.c:103 | with its jump cache empty, all of a CPU's page tables may change |
| TlbFlush.NoteSize | libcpu/src/exec-tlb.c:204-217 | the region covers every large page entered since the last full flush, and is widened only as far as that takes |
| CodeCache.SetDirtyRow | libcpu/src/exec-tlb.h:35-43 | exactly the plain not-dirty entries for the virtual page lose the mark, in all modes |
| CodeCache.NotdirtyMemWrite | libcpu/src/exec.c:204-238 | stores the bytes and takes exactly the store step of the plain machine, through the bitmap test if there is a bitmap, or fails where the invalidation does |
| CodeCache.PhysMemWrite | libcpu/src/exec.c:450-507 | stores the bytes and takes exactly the physical store step of the plain machine, or fails where the invalidation does, after it has stored |
| CodeCache.TlbIsDirty | libcpu/src/exec-tlb.c:165-178 | true if and only if the entries of all modes let stores to the page pass |
| CodeCache.SeNotdirtyMemWrite | libcpu/src/exec.c:241-267 | scans the page if and only if its entries do not all let stores pass, the code flag is clear, and the fast test finds code or there is no bitmap; fails where the scan does; the flags and entries are those of the plain machine |
| CodeCache.PreparedKeeps | libcpu/src/exec.c:241-267 | afterwards the invariant holds, no TB is left that the bytes of the fast test hit, and none is gone that the range misses |
| CodeCache.PreparedEffect | libcpu/src/exec.c:241-267 | unless all of the row lets stores pass already, exactly the TBs that the scanned range hits are gone, all other flags of the page are set, and the code flag if it was set before or the scan left no code; then and only then the entries lose their mark |
| CodeCache.CodeCache.constructor | libcpu/src/exec-ram.c:228 | without TBs, with an empty TLB and all RAM dirty, the structures are exact and stand for an initial state of the plain machine |
| CodeCache.CodeCache.StoreFast | libcpu/src/softmmu_template.h:508-578 | a store through an unflagged entry only writes RAM, and the cache stays valid |
| CodeCache.CodeCache.StoreNotdirty | libcpu/src/exec.c:204-238 | fails if and only if the store hits both parts of a TB; else the bytes are stored, exactly the TBs that they hit are gone, the page is dirty and no longer tested if and only if no code is left on it, and the object stays valid |
| CodeCache.CodeCache.PrepareStore | libcpu/src/exec.c:241-267 | the object moves as the plain machine does before such a store and stays valid, and no TB is left that the bytes of the fast test hit; fails only if the range hits both parts of a TB |
| CodeCache.CodeCache.StoreRaw | libcpu/src/softmmu_template.h:478-492 | a store to bytes that no TB was translated from only writes RAM, and the cache stays valid |
| CodeCache.CodeCache.StoreEight | libcpu/src/softmmu_template.h:487-492 | although the second test is for 8 bytes at an address that is 4 modulo 8, which may lie behind the page, the 8 bytes are stored, no TB is left that they hit, and none is gone that 12 bytes miss |
| CodeCache.CodeCache.StorePhysical | libcpu/src/exec.c:450-507 | the bytes are stored; fails if and only if the store hits both parts of a TB; else exactly the TBs that the bytes hit are gone, all flags of the page but the code flag are set, and the object stays valid |
| CodeCache.CodeCache.Invalidate | libcpu/src/exec-tb.c:351-458 | fails if and only if the range hits both parts of a TB; else exactly the TBs that the range hits are gone, and the jumps from or to them, and the object stays valid |
| CodeCache.CodeCache.InvalidateBlock | libcpu/src/exec-tb.c:180-220 | fails if and only if the TB was invalidated before; else exactly the one TB and the jumps from and to it are gone |
| CodeCache.CodeCache.Flush | libcpu/src/exec-tb.c:91-107 | no TB is live; dirty bytes, TLB and RAM are as before |
| CodeCache.CodeCache.Fetch | libcpu/src/cpu-exec.c:145-180 | the TB to run is live, has the pc, physical page, code segment base and flags of the key, and LLVM code if asked for, and equals what RAM holds now; it is the code that the CPU maps if and only if its second page is where the CPU maps it, as it is for a new TB; if such a TB is live nothing is translated, else the new TB has the size that was translated |
| CodeCache.CodeCache.ChainTo | libcpu/src/cpu-exec.c:256-262 | a jump is chained only to TBs on one page, only from live TBs, and only once |
| CodeCache.CodeCache.SetPage | libcpu/src/exec-tlb.c:204-316 | the new entry lets through exactly what the protection, the dirty byte of the page, watchpoints and the two hooks allow, no other entry changes, and for a large page the region is widened to the smallest that holds it, too |
| CodeCache.CodeCache.ResetDirty | libcpu/src/exec.c:138-167 | exactly the flags of the mask are cleared in the pages, and exactly the entries that let stores to them pass are marked |
| CodeCache.CodeCache.FlushTlb | libcpu/src/exec-tlb.c:72-108 | unless flushing is disabled, exactly the entries and jump cache slots of the CPU are emptied, its large-page region is forgotten, and all of its page tables may have changed |
| CodeCache.CodeCache.FlushPage | libcpu/src/exec-tlb.c:110-146 | unless a full flush is needed and disabled, no entry translates the page, no cached TB reaches into it, and its mapping may have changed; outside the large-page region exactly the entries for the page and the slots for it and the page before are emptied; unless flushing is disabled, no entry translates any page of a large page that holds the address |
| StateTlb.RefillFits | libs2ecore/src/S2EExecutionStateTlb.cpp:302-317 | a filled entry is for the page that was asked for, its addend leads from there to the bytes of the object, and the not-ours flag is set if and only if the state does not own the object, or left alone if that is shared |
| StateTlb.RedirectFits | libs2ecore/src/S2EExecutionStateTlb.cpp:139-156 | a redirected entry leads to the new object's bytes, in wrapping arithmetic, and has the not-ours flag if and only if the state does not own it |
| StateTlb.RedirectFollows | libs2ecore/src/S2EExecutionStateTlb.cpp:145-157 | if the objects are not shared, a redirected entry is not ours if and only if it was not and the state does not own the new object, and its addend moves from one buffer to the other; if they are, flag and addend stay; the symbolic flag is that of the new object |
| StateTlb.RedirectedFits | libs2ecore/src/S2EExecutionStateTlb.cpp:131-164 | after an object was replaced all entries fit |
| StateTlb.MoveExact | libs2ecore/src/S2EExecutionStateTlb.cpp:131-164 | the reverse map stays exact if and only if no other object's list is overwritten |
| StateTlb.MoveOverwrites | libs2ecore/src/S2EExecutionStateTlb.cpp:160-163 | a case where it does not stay exact |
| StateTlb.CheckLists | libs2ecore/src/S2EExecutionStateTlb.cpp:331-343 | true if and only if every listed slot holds the object it is listed under |
| StateTlb.Audit | libs2ecore/src/S2EExecutionStateTlb.cpp:324-367 | audit succeeds, and no list is empty, if and only if the reverse map is exact |
| StateTlb.S2ETlb.Flush | libs2ecore/src/S2EExecutionStateTlb.cpp:173-178 | nothing is listed and no entry has an object |
| StateTlb.S2ETlb.UpdateTlb | libs2ecore/src/S2EExecutionStateTlb.cpp:113-169 | exactly the entries of the old object lead to the new one, with the not-ours flag cleared if and only if the state owns it; the reverse map stays exact if and only if no other object's list is overwritten |
| StateTlb.S2ETlb.FlushPage | libs2ecore/src/S2EExecutionStateTlb.cpp:180-220 | the entry loses its object, the search in its list succeeds, and the map stays exact |
| StateTlb.S2ETlb.UpdateEntry | libs2ecore/src/S2EExecutionStateTlb.cpp:268-322 | the entry translates the page it was made for to the bytes of the new object, is not ours if and only if the state does not own that, and the map stays exact |
| StateTlb.S2ETlb.ClearOwnership | libs2ecore/src/S2EExecutionStateTlb.cpp:258-266 | every entry is marked not-ours, nothing else changes |
| CopyOnWrite.CloneRefines | libs2ecore/src/S2EExecutionState.cpp:108-149 | a fork gives the child the parent's memory and keeps the invariant, although both get the same key and the child starts with an empty cache |
| CopyOnWrite.BindRefines | klee/lib/Core/AddressSpace.cpp:16-35 | a bound object appears in its state's memory alone, in the place of the one that was there |
| CopyOnWrite.UnbindRefines | klee/lib/Core/AddressSpace.cpp:37-48 | an unbound object leaves its state's memory alone |
| CopyOnWrite.WriteableRefines | klee/lib/Core/AddressSpace.cpp:81-130 | getting a writable copy changes no state's memory and makes the page the state's own |
| CopyOnWrite.WriteableOwns | klee/lib/Core/AddressSpace.cpp:118-130 | whichever branch getWriteable takes, the state owns the page afterwards |
| CopyOnWrite.FastStoreExact | libcpu/src/softmmu_template.h:508-566 | in every reachable state, translated code stores straight through an entry if and only if the state owns its object and all of it is concrete |
| CopyOnWrite.SlowStoreStatus | libs2ecore/src/S2EExecutionState.cpp:559-570 | a store that goes through the object state writes its byte, and whether it leaves the object concrete decides whether the fast path may be taken from then on |
| CopyOnWrite.LookupAfter | libs2ecore/src/AddressSpaceCache.cpp:31-46 | a child asks its address space, a copy that getWriteable made is found in place of what it copies, and stores and forks otherwise change nothing about what the next fill finds |
| CopyOnWrite.FillLeads | libs2ecore/src/S2EExecutionStateTlb.cpp:268-317 | a filled entry leads to the buffer of the object that the cache in front of the address space answers with, and may be stored through if and only if the state owns that object |
| CopyOnWrite.FillRefines | libs2ecore/src/AddressSpaceCache.cpp:31-46 | a fill changes no state's memory, whatever the cache answers |
| CopyOnWrite.EntryTarget | libs2ecore/src/S2EExecutionStateTlb.cpp:302-317 | an entry leads to the buffer of an object; without the not-ours flag the state owns that object and no other state knows it |
| CopyOnWrite.StoreHits | libcpu/src/softmmu_template.h:562-566 | the host address that a fast store computes lies in the entry's object and in no other |
| CopyOnWrite.FastStoreRefines | libcpu/src/softmmu_template.h:554-566 | a fast store changes one byte of one page of the storing state, and no other state's memory; if the entry's object is no longer bound it changes nobody's |
| CopyOnWrite.SlowStoreRefines | libs2ecore/src/S2EExecutionState.cpp:559-570 | so does a store to a writable copy, with the symbolic flags brought up to date |
| CopyOnWrite.StepRefines | libs2ecore/src/S2EExecutionState.cpp:108-149 | every step, with a cache that may be stale after binding over an object or unbinding one, is a step of the machine whose forks copy the memory |
| CopyOnWrite.Isolated | libs2ecore/src/S2EExecutionState.cpp:108-149 | over any run in which only other states act, a state's memory stays the same |
| Detachment.AttachedExact | libs2ecore/src/S2EExecutionStateTlb.cpp:51-84 | TLBs and caches keep leading into the address spaces if and only if no object with an entry or a cache slot is unbound or replaced by binding |
| Detachment.BindDetaches | klee/lib/Core/AddressSpace.cpp:16-35 | a run from the initial state in which a page is bound again while no entry leads to it, and the next fill takes the old object from the cache, so that the entry leads out of the address space |
| Detachment.FastStoreLands | libcpu/src/softmmu_template.h:562-566 | whatever is stored through an entry can be read back from its page if and only if the entry's object is still bound there |
| Detachment.SplitExact | klee/lib/Core/AddressSpace.cpp:170-216 | after a split the TLB leads into the address space if and only if the state owned the object or no entry led to it |
| Detachment.SplitStatus | libs2ecore/src/S2EExecutionState.cpp:559-578 | after a split and a store that turns the page symbolic or concrete, the entries for the page tell so if and only if the state owned the object or no entry led to it |
| Detachment.SplitLoads | klee/lib/Core/AddressSpace.cpp:118-216 | after a split, a fork, and a store to the page, loads through its entries give what was stored if and only if the state owned the object or no entry led to it |
| Detachment.SplitDetaches | klee/lib/Core/AddressSpace.cpp:170-216 | a run from the initial state after which a split leaves an entry that leads out of the address space |
| Sleb128.EncodeSleb128 | libcpu/src/precise-pc.c:31-45 | the loop emits the encoding |
| Sleb128.EncodeValue | libcpu/src/precise-pc.c:31-45 | the bytes of a number are framed and encode that number |
| Sleb128.EncodeLength | libcpu/src/precise-pc.c:31-45 | the encoding has at most k bytes if and only if the number fits 7k bits |
| Sleb128.DecodeSleb128 | libcpu/src/precise-pc.c:49-65 | the loop yields the encoded number modulo 2^bits, sign extended, and stops after its last byte |
| Sleb128.RoundTrip | libcpu/src/precise-pc.c:31-65 | every number of the register width is decoded to itself anywhere in a buffer, and takes at most one byte per 7 bits |
| Unwind.EncodeRow | libcpu/src/precise-pc.c:87-96 | a row is stored as its differences to the previous row |
| Unwind.FirstRow | libcpu/src/precise-pc.c:79-96 | the first row is stored as differences to the pc of the block, to zeros and to offset 0 |
| Unwind.EncodeSearch | libcpu/src/precise-pc.c:79-108 | yields the whole table, or fails if and only if it would end beyond the high water mark |
| Unwind.Telescopes | libcpu/src/precise-pc.c:120-122 | adding a stored difference gives back the word, modulo the word size |
| Unwind.DecodeRow | libcpu/src/precise-pc.c:153-156 | from the state of one row, decoding gives the state of the next |
| Unwind.Stored | libcpu/src/precise-pc.c:79-108 | the stored bytes are the table that the walks expect |
| Unwind.FindGuestPc | libcpu/src/precise-pc.c:139-162 | yields the guest state of the first row whose host code ends after the adjusted pc; fails if and only if there is none or the pc lies before the code |
| Unwind.InstructionSize | libcpu/src/precise-pc.c:110-137 | yields the distance from the first row that starts at the pc to the pc of the next row, or for the last row to the end of the block, as a C int; 0 outside the block or between rows |
| Unwind.SizesTile | libcpu/src/precise-pc.c:110-137 | for ascending rows, pc plus size is the pc of the next row or the end of the block: the sizes are positive and lay the instructions end to end through the block |
| ProcessSlots.ExclusiveKeeps | libs2ecore/src/Synchronization.cpp:102-135 | the lock is taken if and only if exactly one process is in a critical section |
| ProcessSlots.Asserted | libs2ecore/src/S2E.cpp:512-562 | every assertion about counts and slots in fork, failed fork, child and exit holds where it stands |
| ProcessSlots.StepExact | libs2ecore/src/S2E.cpp:512-573 | however many ids were handed out, a statement of a process breaks the invariant if and only if a child takes a slot for the id that marks a free one, which makes the count wrong, or a fork is handed an id that a process has |
| ProcessSlots.RunsAreSafe | libs2ecore/src/S2E.cpp:512-573 | under every interleaving: occupied plus promised slots equal the count, which is at most the maximum; a searching child has a free slot ahead; ids and slots of live processes differ; no two processes are in critical sections |
| ProcessSlots.RunsExclude | libs2ecore/src/Synchronization.cpp:102-135 | mutual exclusion and the state numbers need no bound on ids |
| ProcessSlots.FindsSlot | libs2ecore/src/S2E.cpp:549-561 | a searching child always finds a free slot |
| ProcessSlots.NumbersUnique | libs2ecore/src/S2E.cpp:579-585 | no state number is drawn twice, up to 2^32 of them |
| ProcessSlots.RefusedIffFull | libs2ecore/src/S2E.cpp:519-523 | a fork is refused if and only if every slot is occupied or promised |
| ProcessSections.ForkSection | libs2ecore/src/S2E.cpp:512-530 | the statements of a fork under the lock together hand out the next id and count the child, or do nothing if all slots are counted |
| ProcessSections.FailSection | libs2ecore/src/S2E.cpp:534-547 | those after a failed fork together take the child off the count |
| ProcessSections.ChildSection | libs2ecore/src/S2E.cpp:549-566 | those of a child together put its id into the first free slot |
| ProcessSections.ExitSection | libs2ecore/src/S2E.cpp:225-234 | those of an exiting process together free its slot and take it off the count |
| ProcessSections.NumberSection | libs2ecore/src/S2E.cpp:579-585 | those that draw a state number together draw the next one |
| ProcessSections.SectionsEnd | libs2ecore/src/S2E.cpp:512-585 | whenever the lock is free, a process that waits for it gets through its section in a bounded number of its own steps and leaves the lock free |
| ProcessSlots.IdsRunOut | libs2ecore/src/S2E.cpp:512-573 | a run from the initial state, of 2^32 - 2 failed forks and one that succeeds, after which a process sits in a slot that is marked free and the count is wrong |
| ProcessSlots.IdsComeBack | libs2ecore/src/S2E.cpp:525-527 | a run from the initial state, of 2^32 - 1 failed forks, after which a fork is handed the id of its own process |
| RamBlocks.FindRamOffset | libcpu/src/exec-ram.c:109-149 | yields the start of the smallest gap that fits, the lowest among equals; fails if and only if none fits, or the size is not zero and all blocks are empty and at address 0 |
| RamBlocks.EmptyFirst | libcpu/src/exec-ram.c:109-149 | allocating an empty block and then any other size fails, although the gap behind the empty block holds it |
| RamBlocks.PageAlignExact | libcpu/src/exec-ram.c:201 | sizes are rounded up to pages, and become zero exactly for zero and for sizes that wrap around |
| RamBlocks.Compare | libcpu/src/exec-ram.c:170-181 | the comparator does not abort on disjoint blocks and orders them |
| RamBlocks.Sort | libcpu/src/exec-ram.c:213 | the new block ends up in its place and the comparator never aborts |
| RamBlocks.SortUnique | libcpu/src/exec-ram.c:213 | two sorted orders of the same blocks differ at most in the order of empty blocks at one address, so any sorting algorithm gives the same |
| RamBlocks.FitsGap | libcpu/src/exec-ram.c:109-149 | a block placed in a gap that fits touches no other block |
| RamBlocks.RamPtr | libcpu/src/exec-ram.c:262-272 | the host address of a RAM address, by wrapping comparison, or none |
| RamBlocks.RamAddr | libcpu/src/exec-ram.c:334-351 | the RAM address of a host address, or none |
| RamBlocks.Inverse | libcpu/src/exec-ram.c:262-351 | with disjoint host ranges the two translations are inverse to each other |
| RamBlocks.RamList.Alloc | libcpu/src/exec-ram.c:198-231 | blocks stay sorted, aligned and disjoint; the block goes to the best gap; fails if and only if no gap fits, or the size is not zero and all blocks are empty and at address 0 |
| RamBlocks.RamList.Free | libcpu/src/exec-ram.c:233-242 | the first block at the address is closed up |
| RamBlocks.FreeUndoes | libcpu/src/exec-ram.c:198-242 | freeing the address of a new block undoes its allocation if and only if no other block at that address comes before it; such a block is empty |
| PageMap.InRange | libcpu/src/exec.h:35-52 | page numbers within the map's range are kept apart in full |
| PageMap.Injective | libcpu/src/exec-phystb.c:31-71 | two numbers get the same descriptor if and only if they agree in the bits that the map uses |
| PageMap.Descend | libcpu/src/exec-phystb.c:42-57 | the descent reaches the slot of the leaf, and new tables change no lookup |
| PageMap.FindAlloc | libcpu/src/exec-phystb.c:31-71 | lookup after allocation finds the descriptor; a new leaf is clear and serves exactly its own numbers; all other lookups and descriptors stay |
| PageMap.FlushLeaf | libcpu/src/exec-tb.c:272-277 | every descriptor of the leaf is cleared |
| PageMap.FlushBelow | libcpu/src/exec-tb.c:266-284 | every descriptor that can be found below the slot is clear, at any depth, and nothing else changes |
| PageMap.Pages.FindOrAlloc | libcpu/src/exec-phystb.c:31-75 | the map behaves like a plain map from numbers to descriptors |
| PageMap.Pages.Flush | libcpu/src/exec-tb.c:286-291 | every descriptor that can be found is clear |
| SoftMmu.LookUp | libcpu/src/softmmu_template.h:348-392 | the refill loop ends with the entry for the address |
| SoftMmu.Recombine | libcpu/src/softmmu_template.h:368-378 | two aligned words, shifted and combined, are the word that straddles them |
| SoftMmu.Straddle | libcpu/src/softmmu_template.h:366-378 | the two aligned loads lie on the pages of the access, and the access is the end of one and the start of the other |
| SoftMmu.SlowLd | libcpu/src/softmmu_template.h:335-394 | any load yields the little-endian value of the bytes at its addresses, for every size, alignment and page split; the recursion is one deep |
| SoftMmu.LocApart | libcpu/src/softmmu_template.h:612-622 | the bytes of one access never share a RAM byte, even if two virtual pages share a RAM page |
| SoftMmu.SlowSt | libcpu/src/softmmu_template.h:582-638 | any store writes exactly its bytes, in little-endian order |
| SoftMmu.LoadAfterStore | libcpu/src/softmmu_template.h:335-638 | a load after a store returns the stored value |
| VirtualClock.GetKeeps | libcpu/src/cpus.c:86-116 | a read passes its assertions, shows no less than the last read, and never runs ahead of the unscaled clock |
| VirtualClock.SwitchKeeps | libcpu/src/cpus.c:119-143 | starting and stopping never moves the clock |
| VirtualClock.ScaleKeeps | libcpu/src/cpus.c:152-161 | a change of scale keeps the invariant, in all states of the clock |
| VirtualClock.Rate | libcpu/src/cpus.c:94-101 | between reads the clock advances by host time over scale, rounded down |
| VirtualClock.Starts | libcpu/src/cpus.c:119-133 | a clock that is started advances from what it showed, by host time over scale; one that runs already is not disturbed |
| VirtualClock.Stops | libcpu/src/cpus.c:137-143 | a clock that is stopped keeps showing what it showed |
| VirtualClock.ScaleRate | libcpu/src/cpus.c:152-161 | a scale set on an unscaled clock divides the host time from now on, one that replaces another divides it from the last read on, and going back to none catches up with the time that was lost |
| VirtualClock.ShowsUptime | libcpu/src/cpus.c:86-161 | in every run, the clock shows at most the host time that passed while it was started, and exactly that if no scale was ever set |
| VirtualClock.Monotone | libcpu/src/cpus.c:86-161 | in every run of reads, starts, stops and scale changes, later reads show no less |
| VirtualClock.Clock.GetClock | libcpu/src/cpus.c:86-116 | yields the reading, which is never below an earlier one |
| VirtualClock.Clock.EnableTicks | libcpu/src/cpus.c:119-133 | from now on the clock shows what it showed plus host time over scale; a clock that runs already is left alone |
| VirtualClock.Clock.DisableTicks | libcpu/src/cpus.c:137-143 | from now on the clock shows what it showed |
| VirtualClock.Clock.EnableScaling | libcpu/src/cpus.c:152-161 | the scale is the new one, and a running clock that had none advances from now on by host time over scale |
| TailQueue.Init | libq/include/qqueue.h:380-384 | an empty queue, circular backwards |
| TailQueue.InsertHead | libq/include/qqueue.h:386-394 | the links spell the sequence with the element in front, forwards and backwards |
| TailQueue.InsertTail | libq/include/qqueue.h:396-402 | the links spell the sequence with the element at the end |
| TailQueue.InsertAfter | libq/include/qqueue.h:404-412 | the links spell the sequence with the element inserted after the given one |
| TailQueue.InsertBefore | libq/include/qqueue.h:414-420 | the links spell the sequence with the element inserted before the given one |
| TailQueue.Remove | libq/include/qqueue.h:422-430 | the links spell the sequence without the element, which is marked unused |
| TailQueue.BackOne | libq/include/qqueue.h:450-452 | two links back and one forward lead to the previous element, and to none from the first |
| TailQueue.Backward | libq/include/qqueue.h:437 | backward traversal visits element i from the end in step i |
| TailQueue.Forward | libq/include/qqueue.h:432 | forward traversal yields the sequence |
| Watchpoints.MatchExact | libcpu/src/exec-bp.c:211-213 | for aligned accesses the two-mask test holds if and only if accessed and watched bytes meet |
| Watchpoints.Log2Exact | libcpu/src/exec-bp.c:51-55 | exactly the powers of two are accepted as lengths |
| Watchpoints.CommonExact | libcpu/src/cpu-all.h:304-310 | some flag is in both if and only if the numbers have a bit in common |
| Watchpoints.KeptExact | libcpu/src/exec-bp.c:99-106 | exactly the watchpoints without a bit of the mask are kept |
| Watchpoints.KeptInOrder | libcpu/src/exec-bp.c:99-106 | those that are kept stay in order |
| Watchpoints.Find | libcpu/src/exec-bp.c:80-82 | finds the first watchpoint with the address, length and flags, whether it was hit or not |
| Watchpoints.Scan | libcpu/src/exec-bp.c:211-236 | stops at the first watchpoint that the access triggers, marks it, and clears the marks before it |
| Watchpoints.Watchpoints.Insert | libcpu/src/exec-bp.c:45-73 | accepts exactly aligned ranges of a power of two bytes up to a page; debugger watchpoints stay in front |
| Watchpoints.Watchpoints.Remove | libcpu/src/exec-bp.c:76-96 | takes out the first watchpoint with the address, length and flags, hit or not; fails if and only if there is none |
| Watchpoints.Watchpoints.RemoveAll | libcpu/src/exec-bp.c:99-106 | keeps exactly the watchpoints whose flags have no bit in common with the mask, in order |
| Watchpoints.Watchpoints.Check | libcpu/src/exec-bp.c:189-238 | the first watchpoint in the queue that the access triggers is reported and marked as hit, and those before it are not |
| Utf8.CodesExact | libq/src/unicode.c:24-46 | the code points are those of the seventeen planes without surrogates, the 32 noncharacters of the first plane and the last two of each plane |
| Utf8.LeadExact | libq/src/unicode.c:48-74 | the announced length is the number of ones that the first byte starts with, from none to six, and the bits after the next zero count |
| Utf8.DecodeStops | libq/src/unicode.c:76-128 | decoding stops after the announced bytes, or at the first of them that is missing or no continuation, and then fails |
| Utf8.ModUtf8Codepoint | libq/src/unicode.c:76-128 | the loop computes the decoding, including where it stops on malformed input |
| Utf8.ModUtf8Encode | libq/src/unicode.c:130-175 | writes the encoding and a zero for exactly the valid code points, given a buffer of five bytes, and nothing otherwise |
| Utf8.Encode | libq/src/unicode.c:130-171 | exactly the valid code points have an encoding |
| Utf8.DecodeEncode | libq/src/unicode.c:76-171 | decoding an encoding gives back the code point and stops at its end, whatever follows |
| Utf8.EncodeDecode | libq/src/unicode.c:76-171 | whatever is accepted is the encoding of its code point: overlong forms are refused |
| Utf8.LongForms | libq/src/unicode.c:63-70 | the 5 and 6 byte forms are always refused |
| Utf8.TextRoundTrip | libq/src/unicode.c:76-171 | every sequence of code points comes back from the concatenation of its encodings |
| ConstraintHash.SortedEqual | constraint_hasher/parser.py:36-37 | two lists sort to the same if and only if they hold the same elements equally often |
| ConstraintHash.EquivalentHash | constraint_hasher/parser.py:30-46 | expressions equal up to operand order, parentheses and alias labels hash alike, whatever the hash |
| ConstraintHash.SameParts | constraint_hasher/parser.py:32-37 | operator and type, although sorted in with the operands, can be told from them |
| ConstraintHash.HashEquivalent | constraint_hasher/parser.py:30-46 | without collisions, expressions that hash alike are equal up to operand order, parentheses and alias labels |

## Left out

- Precise restart of the current TB when it modifies itself (in libcpu/src/exec-tb.c:351-458): depends on host code.
- A flush in the middle of a bucket search, and the reuse of TB memory after a flush: a flush is a step of its own, and TBs have numbers that are never reused.
- 1 and 8 byte stores by physical address, `cpu_host_memory_rw` and `stl_phys_notdirty`: they go through other code or skip invalidation on purpose.
- The translator itself: how many bytes it takes from where is a parameter, and so are page table lookups, watchpoint hits on a page, symbolic hardware and tracing hooks.
- Locks of TBs (`jmp_lock`): the code cache runs on one thread.
- The cycle counter `cpu_get_ticks`: it has no scale, so only the simpler half of the clock's argument.
- Width of `cowKey`: 32-bit wrap-around after 2^32 forks is not modelled.
- Split objects share one buffer; `CopyOnWrite` has one buffer per object, so a split is not a step of its runs, and of the pieces only the first is modelled, to which the TLB leads.
- Shared concrete objects are not in `CopyOnWrite`: stores to them are visible to all states on purpose. `StateTlb` has them.
- Symbolic bytes: contents are bytes, and an object only records whether all of them are concrete.
- The dirty bitmap's reallocation in `qemu_ram_alloc_from_ptr`.
- Big-endian targets.
- What follows a watchpoint hit (debug exception, retranslation, the repeated check), breakpoints and single stepping.
- Registers, plugins, timers, KVM, tracing, configuration, the solver: easy, foreign, or input and output.
- SmcMachine.RunsAreCoherent: asks that the modes agree at each TLB fill; `SmcLimits.ModesMustAgree` shows that this is needed.
- CodeCache.CodeCache.SetPage: asks that the MMU modes of a CPU agree on where a virtual page leads; `SmcLimits.ModesMustAgree` shows that this is needed.
- ProcessSlots.RunsAreSafe: holds for the first 2^32 - 2 process ids, because the next one is the mark of a free slot.
- The cache of recent objects inside `AddressSpace` itself: it is updated with every change of the object map.
- CopyOnWrite.FastStoreRefines: objects are never freed in the model, so the store through an entry whose object is gone from all address spaces goes to memory that nobody reads.
- CodeCache.CodeCache.StoreNotdirty: says nothing of the object where it fails, because the process then reads through a null pointer. 1, 2 and 4 bytes, aligned, which is all that the I/O path passes on; other sizes abort.
- Watchpoints.Watchpoints.Check: asks for an aligned access, because the I/O path splits all others.
- VirtualClock.Clock.GetClock: each call sees a later host time than the one before, as the assertion on the increment demands.
- SoftMmu.SlowSt: the invalidation of code by a store to a flagged page is the subject of `CodeCache`, not of this module.
- ConstraintHash.HashEquivalent: takes the hash to be free of collisions.

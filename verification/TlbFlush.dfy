/** Filling and flushing the TLB, and what that does to the jump cache (libcpu/src/exec-tlb.c). */
module TlbFlush {
  import opened Wrappers
  import opened Masks
  import opened Tlb
  import opened SmcMachine
  import opened FlushRegion
  import opened TbLinks
  import opened TbInsert
  import opened TbLookup

  /** The entry lets some access to `page` through. */
  predicate Translates(e: TlbEntry, page: VPage) {
    || (e.read.At? && e.read.page == page)
    || (e.write.At? && e.write.page == page)
    || (e.code.At? && e.code.page == page)
  }

  function SlotsOf(tlb: TlbTable, cpu: nat): (r: set<Slot>)
    ensures forall s :: s in r <==> s in tlb && s.cpu == cpu
  {
    set s | s in tlb && s.cpu == cpu
  }

  function SlotsAt(tlb: TlbTable, cpu: nat, page: VPage): (r: set<Slot>)
    ensures forall s :: s in r <==> s in tlb && s.cpu == cpu && s.index == IndexOf(page) && Translates(tlb[s], page)
  {
    set s | s in tlb && s.cpu == cpu && s.index == IndexOf(page) && Translates(tlb[s], page)
  }

  /** The loops of tlb_flush. */
  method EmptyTlb(tlb: TlbTable, cpu: nat, cpus: nat, modes: nat) returns (tlb': TlbTable)
    requires TlbDomain(tlb, cpus, modes) && cpu < cpus
    ensures tlb' == DropSlots(tlb, SlotsOf(tlb, cpu)) && CpuFlushed(tlb', tlb, cpu)
  {
    tlb' := tlb;
    for mode := 0 to modes
      invariant tlb'.Keys == tlb.Keys
      invariant forall s | s in tlb :: tlb'[s] == if s.cpu == cpu && s.mode < mode then EMPTY_ENTRY else tlb[s]
    {
      for i := 0 to CPU_TLB_SIZE
        invariant tlb'.Keys == tlb.Keys
        invariant forall s | s in tlb :: tlb'[s] ==
                    if s.cpu == cpu && (s.mode < mode || (s.mode == mode && s.index < i)) then EMPTY_ENTRY else tlb[s]
      {
        tlb' := tlb'[Slot(cpu, mode, i) := EMPTY_ENTRY];
      }
    }
  }

  /** The loop of tlb_flush_page. */
  method EmptyRow(tlb: TlbTable, cpu: nat, page: VPage, cpus: nat, modes: nat) returns (tlb': TlbTable)
    requires TlbDomain(tlb, cpus, modes) && cpu < cpus
    ensures tlb' == DropSlots(tlb, SlotsAt(tlb, cpu, page))
  {
    tlb' := tlb;
    for mode := 0 to modes
      invariant tlb'.Keys == tlb.Keys
      invariant forall s | s in tlb :: tlb'[s] ==
                  if s.cpu == cpu && s.index == IndexOf(page) && s.mode < mode && Translates(tlb[s], page) then EMPTY_ENTRY else tlb[s]
    {
      var s := Slot(cpu, mode, IndexOf(page));
      if Translates(tlb'[s], page) {
        tlb' := tlb'[s := EMPTY_ENTRY];
      }
    }
  }

  /** Because entries sit at the row of their page, no entry for the page is left anywhere. */
  lemma RowEmpty(tlb: TlbTable, pages: nat, cpu: nat, page: VPage)
    requires WfTlb(tlb, pages)
    ensures NoEntryFor(DropSlots(tlb, SlotsAt(tlb, cpu, page)), cpu, page)
    ensures NoEntryFor(DropSlots(tlb, SlotsOf(tlb, cpu)), cpu, page)
    ensures RowFlushed(DropSlots(tlb, SlotsAt(tlb, cpu, page)), tlb, cpu, page)
  {
    forall s | s in tlb && s.cpu == cpu && Translates(tlb[s], page) ensures s.index == IndexOf(page) {
      assert WfEntry(tlb[s], s.index, pages);
    }
  }

  ghost predicate NoEntryFor(tlb: TlbTable, cpu: nat, page: VPage) {
    forall s | s in tlb && s.cpu == cpu :: !Translates(tlb[s], page)
  }

  /** The CPU's entries for the page are empty, the others are as they were. */
  ghost predicate RowFlushed(tlb': TlbTable, tlb: TlbTable, cpu: nat, page: VPage) {
    && tlb'.Keys == tlb.Keys
    && forall s | s in tlb :: tlb'[s] == if s.cpu == cpu && Translates(tlb[s], page) then EMPTY_ENTRY else tlb[s]
  }

  /** The CPU's entries are empty, the others are as they were. */
  ghost predicate CpuFlushed(tlb': TlbTable, tlb: TlbTable, cpu: nat) {
    && tlb'.Keys == tlb.Keys
    && forall s | s in tlb :: tlb'[s] == if s.cpu == cpu then EMPTY_ENTRY else tlb[s]
  }

  // ---- The jump cache ----

  lemma LinkedFewer(k: Links, x: Index, cpus: nat, pages: nat, cache: map<CacheSlot, Option<TbId>>)
    requires Linked(k, x, cpus, pages, {}) && Fewer(cache, k.cache)
    ensures Linked(k.(cache := cache), x, cpus, pages, {})
  {
    hide HashOk, PagesOk, JumpsOk, BitmapsOk, HashFunc;
  }

  /** memset of the 64 slots of one page */
  method ClearSlots(cache: map<CacheSlot, Option<TbId>>, cpu: nat, start: nat) returns (cache': map<CacheSlot, Option<TbId>>)
    requires forall h | start <= h < start + TB_JMP_PAGE_SIZE :: CacheSlot(cpu, h) in cache
    ensures cache'.Keys == cache.Keys
    ensures forall c | c in cache :: cache'[c] == if c.cpu == cpu && start <= c.hash < start + TB_JMP_PAGE_SIZE then None else cache[c]
  {
    cache' := cache;
    for h := start to start + TB_JMP_PAGE_SIZE
      invariant cache'.Keys == cache.Keys
      invariant forall c | c in cache :: cache'[c] == if c.cpu == cpu && start <= c.hash < h then None else cache[c]
    {
      cache' := cache'[CacheSlot(cpu, h) := None];
    }
  }

  /** No TB in the CPU's jump cache reaches into the page. */
  ghost predicate NoneReach(live: map<TbId, Tb>, cache: map<CacheSlot, Option<TbId>>, cpu: nat, page: VPage) {
    forall c | c in cache && c.cpu == cpu && cache[c].Some? && cache[c].value in live ::
      var tb := live[cache[c].value]; tb.size <= PAGE_SIZE ==> !Overlaps(tb.pc, tb.size, page)
  }

  /** The slots for pcs on the page or the one before are empty, the others are as they were. */
  ghost predicate PageUncached(cache': map<CacheSlot, Option<TbId>>, cache: map<CacheSlot, Option<TbId>>, cpu: nat, page: VPage) {
    && cache'.Keys == cache.Keys
    && forall c | c in cache :: cache'[c] ==
         if c.cpu == cpu && exists q | q == page || q == PrevPage(page) :: HashPage(q) <= c.hash < HashPage(q) + TB_JMP_PAGE_SIZE
         then None else cache[c]
  }

  /** tlb_flush_jmp_cache: no TB that reaches into the page stays cached, so the mapping of the page may change. */
  method FlushJmpCache(ghost live: map<TbId, Tb>, cache: map<CacheSlot, Option<TbId>>, cpu: nat, page: VPage,
                       ghost cpus: nat, ghost maps: Mapping, ghost maps': Mapping)
    returns (cache': map<CacheSlot, Option<TbId>>)
    requires CacheOk(live, cpus, cache) && cpu < cpus
    requires SameButPage(maps, maps', cpu, page)
    ensures Fewer(cache', cache)
    ensures PageUncached(cache', cache, cpu, page)
    ensures NoneReach(live, cache', cpu, page)
    ensures forall both | CacheFits(live, cache, maps, both) :: CacheFits(live, cache', maps', both)
  {
    hide HashFunc, HashPage, Overlaps;
    cache' := ClearSlots(cache, cpu, HashPage(PrevPage(page)));
    cache' := ClearSlots(cache', cpu, HashPage(page));
    forall c | c in cache' && c.cpu == cpu && cache'[c].Some?
      ensures var tb := live[cache'[c].value];
        PageOf(tb.pc) != page && PageOf(tb.pc) != PrevPage(page) && (tb.size <= PAGE_SIZE ==> !Overlaps(tb.pc, tb.size, page))
    {
      var tb := live[cache'[c].value];
      assert HashFunc(tb.pc) == c.hash;
      if tb.size <= PAGE_SIZE && Overlaps(tb.pc, tb.size, page) {
        OverlapStarts(tb.pc, tb.size, page);
      }
    }
    forall both | CacheFits(live, cache, maps, both) ensures CacheFits(live, cache', maps', both) {
      forall c | c in cache' && cache'[c].Some? && cache'[c].value in live
        ensures Placed(live[cache'[c].value], c.cpu, maps', both)
      {
        var tb := live[cache'[c].value];
        assert Placed(tb, c.cpu, maps, both);
        if c.cpu == cpu {
          NextOfPrev(PageOf(tb.pc), page);
        }
      }
    }
  }

  lemma NextOfPrev(q: VPage, page: VPage)
    ensures NextPage(q) == page ==> q == PrevPage(page)
  {
  }

  /** memset of the whole jump cache of one CPU */
  function ClearedOf(cache: map<CacheSlot, Option<TbId>>, cpu: nat): (r: map<CacheSlot, Option<TbId>>)
    ensures Fewer(r, cache) && forall c | c in cache :: r[c] == if c.cpu == cpu then None else cache[c]
  {
    map c | c in cache :: if c.cpu == cpu then None else cache[c]
  }

  lemma ClearedReach(live: map<TbId, Tb>, cache: map<CacheSlot, Option<TbId>>, cpu: nat, page: VPage)
    ensures NoneReach(live, ClearedOf(cache, cpu), cpu, page) && Fewer(cache, cache) && Fewer(ClearedOf(cache, cpu), cache)
  {
    hide Overlaps;
  }

  /** With its jump cache empty, everything about the CPU's page tables may change. */
  lemma ClearedFits(live: map<TbId, Tb>, cache: map<CacheSlot, Option<TbId>>, cpu: nat, maps: Mapping, maps': Mapping, both: bool)
    requires CacheFits(live, cache, maps, both) && SameButCpu(maps, maps', cpu)
    ensures CacheFits(live, ClearedOf(cache, cpu), maps', both)
  {
    forall c | c in cache && ClearedOf(cache, cpu)[c].Some? && cache[c].value in live
      ensures Placed(live[cache[c].value], c.cpu, maps', both)
    {
      assert Placed(live[cache[c].value], c.cpu, maps, both) && c.cpu != cpu;
    }
  }

  /** The mappings agree except for CPU `cpu`. */
  ghost predicate SameButCpu(maps: Mapping, maps': Mapping, cpu: nat) {
    forall c: CpuPage | c.cpu != cpu :: (c in maps <==> c in maps') && (c in maps ==> maps[c] == maps'[c])
  }

  /** The mappings agree except for one page of one CPU. */
  ghost predicate SameButPage(maps: Mapping, maps': Mapping, cpu: nat, page: VPage) {
    forall c | c != CpuPage(cpu, page) :: (c in maps <==> c in maps') && (c in maps ==> maps[c] == maps'[c])
  }

  // ---- Large pages ----

  /** The region holds every large page entered since the last full flush. */
  ghost predicate Covered(r: Region, large: set<LargePage>) {
    && WfRegion(r)
    && forall lp, a: VAddr | lp in large && InLargePage(lp, a) :: InRegion(r, a)
  }

  /** tlb_set_page remembers pages larger than the TLB's own. */
  method NoteSize(r: Region, vaddr: VAddr, k: nat, ghost large: set<LargePage>) returns (r': Region)
    requires Covered(r, large) && 12 <= k <= 64
    ensures Covered(r', if k == 12 then large else large + {LargePage(vaddr, k)})
    ensures if k == 12 then r' == r else Widened(r', r, LargePage(vaddr, k))
  {
    r' := r;
    if k != 12 {
      r' := AddLargePage(r, LargePage(vaddr, k));
    }
  }
}

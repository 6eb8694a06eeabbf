/** What each step of the machine changes, in terms of the state before it.

    `SmcMachine` defines the steps as the C code takes them: under guards, through helpers, one page
    after the other. Here they are said without any of that.
 */
module StepEffects {
  import opened Wrappers
  import opened Tlb
  import opened SmcMachine

  /** Nothing but the not-dirty mark of some entries for stores differs. */
  ghost predicate OnlyMarks(tlb': TlbTable, tlb: TlbTable) {
    && tlb'.Keys == tlb.Keys
    && forall s | s in tlb ::
         && tlb'[s].(write := tlb[s].write) == tlb[s] && (tlb'[s].write.At? <==> tlb[s].write.At?)
         && (tlb[s].write.At? ==> tlb'[s].write.page == tlb[s].write.page)
         && (tlb[s].write.At? ==> tlb'[s].write.flags.(notdirty := true) == tlb[s].write.flags.(notdirty := true))
  }

  /** Exactly the TBs that [start, end) hits are gone, and the jumps from or to them. */
  ghost predicate GoneExactly(m': Machine, m: Machine, start: nat, end: nat) {
    && (forall t | t in m'.live :: t in m.live && m'.live[t] == m.live[t])
    && (forall t | t in m.live :: t in m'.live <==> !Hits(m.live[t], start, end))
    && (forall l | l in m'.jumps :: l in m.jumps && m'.jumps[l] == m.jumps[l])
    && (forall l | l in m.jumps :: l in m'.jumps <==> l.tb in m'.live && m.jumps[l] in m'.live)
  }

  lemma {:induction false} KeepExact(m: Machine, start: nat, end: nat)
    requires Wf(m)
    ensures GoneExactly(Keep(m, Missed(m.live, start, end)), m, start, end)
  {
    hide Hits, WfTb;
  }

  /** tb_invalidate_phys_page_range: a store by a CPU sets the code flag of a page that it leaves without code. */
  lemma {:induction false} InvalidateEffect(m: Machine, start: nat, end: nat, cpuWrite: bool)
    requires Wf(m) && start / PAGE_SIZE < |m.dirty|
    ensures var r := InvalidateRange(m, start, end, cpuWrite); var p := start / PAGE_SIZE;
      && GoneExactly(r, m, start, end) && r.tlb == m.tlb && r.ram == m.ram && r.descs == m.descs
      && r.dirty == m.dirty[p := if cpuWrite && p in m.descs && !HasCode(r.live, p) then m.dirty[p] | CODE_DIRTY_FLAG else m.dirty[p]]
  {
    hide Hits, WfTb, GoneExactly, OnPage;
    KeepExact(m, start, end);
    GoneSame(Keep(m, Missed(m.live, start, end)), InvalidateRange(m, start, end, cpuWrite), m, start, end);
  }

  lemma {:induction false} GoneSame(r: Machine, r': Machine, m: Machine, start: nat, end: nat)
    requires GoneExactly(r, m, start, end) && r'.live == r.live && r'.jumps == r.jumps
    ensures GoneExactly(r', m, start, end)
  {
    hide Hits;
  }

  /** A page without code is not hit, so testing for code there would change nothing. */
  lemma {:induction false} CodelessGone(m: Machine, a: nat, len: nat)
    requires Wf(m) && OnePage(m, a, len) && !HasCode(m.live, a / PAGE_SIZE)
    ensures GoneExactly(m, m, a, a + len)
  {
    hide Hits, WfTb, OnPage;
    CodelessPage(m, a, len);
  }

  /** stl_phys, stw_phys: the bytes are stored and no TB that they hit is left, whether the page was tested or not. All
      flags of the page but the code flag are set. */
  lemma {:induction false} PhysEffect(m: Machine, a: nat, data: seq<bv8>)
    requires Inv(m) && Enabled(m, StorePhys(a, data))
    ensures var r := PhysStore(m, a, data); var p := a / PAGE_SIZE;
      && r.ram == Write(m.ram, a, data) && r.tlb == m.tlb && r.descs == m.descs
      && GoneExactly(r, m, a, a + |data|) && r.dirty == m.dirty[p := m.dirty[p] | 0xfd]
  {
    hide GoneExactly, HasCode, Hits, OnPage, WfTb;
    var p := a / PAGE_SIZE;
    var m1 := m.(ram := Write(m.ram, a, data));
    DirtyBits(m.dirty[p]);
    if m.dirty[p] == 0xff {
      DirtyHasNoCode(m, p);
      CodelessGone(m, a, |data|);
      GoneSame(m, m1, m, a, a + |data|);
    } else {
      InvalidateEffect(m1, a, a + |data|, false);
      GoneFrom(InvalidateRange(m1, a, a + |data|, false), m1, m, a, a + |data|);
      GoneSame(InvalidateRange(m1, a, a + |data|, false), PhysStore(m, a, data), m, a, a + |data|);
    }
  }

  lemma {:induction false} GoneFrom(r: Machine, m': Machine, m: Machine, start: nat, end: nat)
    requires GoneExactly(r, m', start, end) && m'.live == m.live && m'.jumps == m.jumps
    ensures GoneExactly(r, m, start, end)
  {
    hide Hits;
  }

  lemma {:induction false} TestEffect(m: Machine, a: nat, len: nat)
    requires Inv(m) && OnePage(m, a, len)
    ensures var r := TestForCode(m, a, a + len); var p := a / PAGE_SIZE;
      && r.ram == m.ram && r.tlb == m.tlb && r.descs == m.descs && GoneExactly(r, m, a, a + len)
      && r.dirty == m.dirty[p := if HasCode(r.live, p) then m.dirty[p] else m.dirty[p] | CODE_DIRTY_FLAG]
      && (r.dirty[p] & CODE_DIRTY_FLAG != 0 <==> !HasCode(r.live, p))
  {
    hide Inv, GoneExactly, Hits, OnPage, WfTb, HasCode;
    var p := a / PAGE_SIZE;
    DirtyBits(m.dirty[p]);
    CodeBit(m.dirty[p]);
    CleanHasDesc(m, p);
    if m.dirty[p] & CODE_DIRTY_FLAG == 0 {
      InvalidateEffect(m, a, a + len, true);
    } else {
      DirtyHasNoCode(m, p);
      CodelessGone(m, a, len);
    }
  }

  lemma CleanHasDesc(m: Machine, p: nat)
    requires Inv(m) && p < |m.dirty|
    ensures Wf(m) && (m.dirty[p] & CODE_DIRTY_FLAG == 0 ==> p in m.descs)
  {
  }

  lemma CodeBit(d: bv8)
    ensures d & CODE_DIRTY_FLAG != 0 ==> d | CODE_DIRTY_FLAG == d
    ensures (d | CODE_DIRTY_FLAG) | 0xfd == 0xff
  {
  }

  /** The bytes are stored and exactly the TBs that they hit are gone. If and only if that leaves no code on the page,
      the page becomes dirty and stores to it are no longer tested. */
  ghost predicate StoredTested(m': Machine, m: Machine, s: Slot, a: nat, data: seq<bv8>) {
    var p := a / PAGE_SIZE;
    && s in m.tlb && m.tlb[s].write.At? && p < |m.dirty| && a + |data| <= |m.ram|
    && m'.ram == Write(m.ram, a, data) && m'.descs == m.descs && GoneExactly(m', m, a, a + |data|)
    && m'.dirty == m.dirty[p := if HasCode(m'.live, p) then m.dirty[p] | 0xfd else 0xff]
    && if HasCode(m'.live, p) then m'.tlb == m.tlb else LiftsMarks(m'.tlb, m.tlb, s.cpu, m.tlb[s].write.page)
  }

  /** notdirty_mem_write */
  lemma {:induction false} NotdirtyEffect(m: Machine, s: Slot, a: nat, data: seq<bv8>)
    requires Inv(m) && Enabled(m, SlowStore(s, a, data))
    ensures StoredTested(NotdirtyStore(m, s, a, data), m, s, a, data)
  {
    hide GoneExactly, Hits, OnPage, WfTb, HasCode, Coherent, ModesAgree, CodePagesTested, CodePagesClean, CleanHaveDescs, LiftsMarks, SetDirty, TestForCode;
    var p := a / PAGE_SIZE;
    TestEffect(m, a, |data|);
    var m1 := TestForCode(m, a, a + |data|);
    CodeBit(m.dirty[p]);
    DirtyBits(m1.dirty[p]);
    SetDirtyMarks(m, s.cpu, m.tlb[s].write.page);
    GoneSame(m1, NotdirtyStore(m, s, a, data), m, a, a + |data|);
  }

  /** The CPU's stores to the page stay tested only where something else keeps them off the fast path. */
  ghost predicate LiftsMarks(tlb': TlbTable, tlb: TlbTable, cpu: nat, page: VPage) {
    && OnlyMarks(tlb', tlb)
    && forall z | z in tlb && tlb[z].write.At? ::
         var f := tlb[z].write.flags;
         tlb'[z].write.flags.notdirty <==> f.notdirty && (z.cpu != cpu || tlb[z].write.page != page || f.mmio || f.notOurs || f.trace)
  }

  lemma {:induction false} SetDirtyMarks(m: Machine, cpu: nat, page: VPage)
    requires Wf(m)
    ensures LiftsMarks(SetDirty(m.tlb, cpu, page), m.tlb, cpu, page)
  {
    forall z | z in m.tlb && m.tlb[z].write.At? ensures z.index == IndexOf(m.tlb[z].write.page) {
      InRow(m, z);
    }
  }

  /** Stores through the entry are tested afterwards if they were, or if they lead straight to one of the pages. */
  ghost predicate MarksPages(tlb': TlbTable, tlb: TlbTable, pages: set<nat>) {
    && OnlyMarks(tlb', tlb)
    && forall z | z in tlb && tlb[z].write.At? ::
         tlb'[z].write.flags.notdirty <==>
           tlb[z].write.flags.notdirty || (!tlb[z].write.flags.mmio && tlb[z].ram.Some? && tlb[z].ram.value in pages)
  }

  lemma {:induction false} ResetMarks(tlb: TlbTable, first: nat, count: nat, pages: set<nat>)
    requires forall p: nat :: p in pages <==> first <= p < first + count
    ensures MarksPages(ResetTlb(tlb, first, count), tlb, pages)
  {
  }

  lemma {:induction false} MarkedBoth(a: TlbTable, b: TlbTable, c: TlbTable, p: nat, pages: set<nat>)
    requires MarksPages(b, a, {p}) && MarksPages(c, b, pages)
    ensures MarksPages(c, a, {p} + pages)
  {
  }

  /** tb_alloc_page: protecting a page only for its first block is as good as protecting it always. */
  lemma {:induction false} ProtectEffect(m: Machine, p: nat)
    requires Inv(m) && p < |m.dirty|
    ensures var r := ProtectIfFirst(m, m.live, p);
      && r == m.(descs := m.descs + {p}, dirty := m.dirty[p := m.dirty[p] & 0xfd], tlb := r.tlb) && MarksPages(r.tlb, m.tlb, {p})
  {
    hide Inv, HasCode, Ready, ResetTlb, MarksPages;
    ResetMarks(m.tlb, p, 1, {p});
    if HasCode(m.live, p) {
      CodeIsReady(m, p);
      AlreadyMarked(m, p);
    }
  }

  lemma {:induction false} AlreadyMarked(m: Machine, p: nat)
    requires Ready(m, p)
    ensures MarksPages(m.tlb, m.tlb, {p}) && m.dirty[p := m.dirty[p] & 0xfd] == m.dirty && p in m.descs
  {
    DirtyBits(m.dirty[p]);
  }

  function PagesOf(tb: Tb): (r: set<nat>)
    ensures forall p :: p in r <==> OnPage(tb, p)
  {
    if tb.page1.Some? then {tb.page0} + {tb.page1.value} else {tb.page0}
  }

  /** tb_link_page: the code flag of the TB's pages is clear and stores to them are tested; nothing else changes. */
  lemma {:induction false} LinkEffect(m: Machine, t: TbId, tb: Tb)
    requires Inv(m) && WfTb(tb, |m.dirty|)
    ensures var r := LinkTb(m, t, tb); var pages := PagesOf(tb);
      && r.live == m.live[t := tb] && r.jumps == m.jumps && r.ram == m.ram && r.descs == m.descs + pages
      && |r.dirty| == |m.dirty| && (forall p | 0 <= p < |m.dirty| :: r.dirty[p] == if p in pages then m.dirty[p] & 0xfd else m.dirty[p])
      && MarksPages(r.tlb, m.tlb, pages)
  {
    hide Inv, MarksPages, ProtectIfFirst, OnPage;
    ProtectIfFirstKeeps(m, tb.page0);
    ProtectEffect(m, tb.page0);
    var m1 := ProtectIfFirst(m, m.live, tb.page0);
    if tb.page1.Some? {
      ProtectEffect(m1, tb.page1.value);
      MarkedBoth(m.tlb, m1.tlb, LinkTb(m, t, tb).tlb, tb.page0, {tb.page1.value});
      DirtyBits(m.dirty[tb.page0] & 0xfd);
      DirtyBits(m.dirty[tb.page0]);
    }
  }

  /** cpu_physical_memory_reset_dirty: the flags of `mask` are clear in the pages, and stores to them are tested. */
  lemma {:induction false} ClearEffect(m: Machine, first: nat, count: nat, mask: bv8, pages: set<nat>)
    requires Wf(m) && Enabled(m, ClearDirty(first, count, mask)) && forall p: nat :: p in pages <==> first <= p < first + count
    ensures var r := Apply(m, ClearDirty(first, count, mask));
      && r == m.(dirty := r.dirty, tlb := r.tlb) && |r.dirty| == |m.dirty|
      && (forall p | 0 <= p < |m.dirty| :: r.dirty[p] == if p in pages then m.dirty[p] & !mask else m.dirty[p])
      && MarksPages(r.tlb, m.tlb, pages)
  {
    hide MarksPages, ResetTlb;
    ResetMarks(m.tlb, first, count, pages);
  }
}

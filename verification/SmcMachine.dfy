/** Self-modifying-code detection, on plain state.

    `Machine` holds what the code caches stand for: the live translation blocks
    (TBs), the jumps chained between them, the dirty byte of each RAM page, the TLB
    and RAM itself. There are no lists, bitmaps or hash tables here; class
    `CodeCache` keeps those and is proved to take exactly these steps.

    The result is that in every reachable state the bytes each live TB was
    translated from still equal RAM.
 */
module SmcMachine {
  import opened Wrappers
  import opened Tlb

  const CODE_DIRTY_FLAG: bv8 := 0x02

  type TbId = nat

  /** One of the two outgoing jumps of a TB, or its presence on one of its two pages. */
  datatype Link = Link(tb: TbId, n: nat)

  /** `page0` and `page1` number the physical pages holding the code; `src` is the
      guest code the block was translated from. */
  datatype Tb = Tb(pc: VAddr, csBase: nat, flags: nat, llvm: bool, size: nat, page0: nat, page1: Option<nat>, src: seq<bv8>)

  datatype Machine = Machine(live: map<TbId, Tb>, jumps: map<Link, TbId>, descs: set<nat>,
                             dirty: seq<bv8>, tlb: TlbTable, ram: seq<bv8>)

  function PageOff(pc: VAddr): nat { pc % PAGE_SIZE }

  // ---- Translation blocks ----

  predicate OnPage(tb: Tb, p: nat) {
    tb.page0 == p || tb.page1 == Some(p)
  }

  /** The two virtual pages of a TB may lead to one physical page. */
  ghost predicate WfTb(tb: Tb, pages: nat) {
    && 1 <= tb.size <= PAGE_SIZE
    && (tb.page1.Some? <==> PageOff(tb.pc) + tb.size > PAGE_SIZE)
    && tb.page0 < pages
    && (tb.page1.Some? ==> tb.page1.value < pages)
    && |tb.src| == tb.size
  }

  /** RAM address of source byte `k`. */
  function SrcAddr(tb: Tb, k: nat): nat
    requires PageOff(tb.pc) + k < PAGE_SIZE || tb.page1.Some?
  {
    var x := PageOff(tb.pc) + k;
    if x < PAGE_SIZE then tb.page0 * PAGE_SIZE + x else tb.page1.value * PAGE_SIZE + (x - PAGE_SIZE)
  }

  ghost predicate Matches(tb: Tb, ram: seq<bv8>)
    requires WfTb(tb, |ram| / PAGE_SIZE)
  {
    forall k | 0 <= k < tb.size :: SrcAddr(tb, k) < |ram| && ram[SrcAddr(tb, k)] == tb.src[k]
  }

  /** Some byte in [start, end) is a source byte of `tb`. */
  ghost predicate Hits(tb: Tb, start: nat, end: nat) {
    exists k | 0 <= k < tb.size && (PageOff(tb.pc) + k < PAGE_SIZE || tb.page1.Some?) :: start <= SrcAddr(tb, k) < end
  }

  ghost predicate HasCode(live: map<TbId, Tb>, p: nat) {
    exists t | t in live :: OnPage(live[t], p)
  }

  // ---- Invariant ----

  ghost predicate WfTbs(live: map<TbId, Tb>, pages: nat) {
    forall t | t in live :: WfTb(live[t], pages)
  }

  ghost predicate WfJumps(live: map<TbId, Tb>, jumps: map<Link, TbId>) {
    forall l {:trigger l in jumps} {:trigger jumps[l]} | l in jumps :: l.n < 2 && l.tb in live && jumps[l] in live
  }

  ghost predicate WfEntry(e: TlbEntry, index: nat, pages: nat) {
    && (e.ram.Some? ==> e.ram.value < pages)
    && Sits(e.read, index) && Sits(e.write, index) && Sits(e.code, index)
  }

  ghost predicate WfTlb(tlb: TlbTable, pages: nat) {
    forall s {:trigger s in tlb} {:trigger tlb[s]} | s in tlb :: WfEntry(tlb[s], s.index, pages)
  }

  ghost predicate Wf(m: Machine) {
    && |m.ram| == PAGE_SIZE * |m.dirty|
    && WfTbs(m.live, |m.dirty|) && WfJumps(m.live, m.jumps) && WfTlb(m.tlb, |m.dirty|)
  }

  /** A page that holds code has a PageDesc and its code-dirty bit is clear. */
  ghost predicate CodePagesClean(live: map<TbId, Tb>, descs: set<nat>, dirty: seq<bv8>) {
    forall t, p | t in live && 0 <= p < |dirty| && OnPage(live[t], p) ::
      p in descs && dirty[p] & CODE_DIRTY_FLAG == 0
  }

  /** No TLB entry lets stores reach a page that holds code untested. */
  ghost predicate CodePagesTested(live: map<TbId, Tb>, tlb: TlbTable) {
    forall t, s | t in live && s in tlb && IsDirtyRam(tlb[s]) && tlb[s].ram.Some? ::
      !OnPage(live[t], tlb[s].ram.value)
  }

  /** Entries of one CPU for one writable virtual page lead to one RAM page in every MMU mode. */
  ghost predicate ModesAgree(tlb: TlbTable) {
    forall s, r {:trigger tlb[s], tlb[r]} | s in tlb && r in tlb && s.cpu == r.cpu && tlb[s].write.At? && tlb[r].write.At?
                  && tlb[s].write.page == tlb[r].write.page && tlb[s].ram.Some? && tlb[r].ram.Some? ::
      tlb[s].ram == tlb[r].ram
  }

  /** Every live TB still matches the RAM it was translated from. */
  ghost predicate Coherent(live: map<TbId, Tb>, ram: seq<bv8>) {
    forall t | t in live && WfTb(live[t], |ram| / PAGE_SIZE) :: Matches(live[t], ram)
  }

  /** The code-dirty bit is only ever cleared for a page that got a PageDesc. */
  ghost predicate CleanHaveDescs(descs: set<nat>, dirty: seq<bv8>) {
    forall p | 0 <= p < |dirty| && dirty[p] & CODE_DIRTY_FLAG == 0 :: p in descs
  }

  ghost predicate Inv(m: Machine) {
    && Wf(m) && CleanHaveDescs(m.descs, m.dirty)
    && CodePagesClean(m.live, m.descs, m.dirty) && CodePagesTested(m.live, m.tlb) && ModesAgree(m.tlb)
    && Coherent(m.live, m.ram)
  }

  ghost predicate Init(m: Machine) {
    && m.live == map[] && m.jumps == map[]
    && |m.ram| == PAGE_SIZE * |m.dirty|
    && (forall p | 0 <= p < |m.dirty| :: m.dirty[p] == 0xff)
    && (forall s | s in m.tlb :: m.tlb[s] == EMPTY_ENTRY)
  }

  // ---- Steps ----

  function Write(ram: seq<bv8>, a: nat, data: seq<bv8>): (r: seq<bv8>)
    requires a + |data| <= |ram|
    ensures |r| == |ram|
    ensures forall i | 0 <= i < |ram| :: r[i] == if a <= i < a + |data| then data[i - a] else ram[i]
  {
    ram[..a] + data + ram[a + |data|..]
  }

  /** The loop over the TLBs in cpu_physical_memory_reset_dirty, for `count` pages from `first` on. */
  function ResetTlb(tlb: TlbTable, first: nat, count: nat): TlbTable {
    map s | s in tlb :: ResetDirty(tlb[s], first, count)
  }

  /** cpu_physical_memory_mask_dirty_range */
  function Masked(dirty: seq<bv8>, first: nat, count: nat, mask: bv8): (r: seq<bv8>)
    ensures |r| == |dirty|
    ensures forall p | 0 <= p < |dirty| :: r[p] == if first <= p < first + count then dirty[p] & !mask else dirty[p]
  {
    seq(|dirty|, p requires 0 <= p < |dirty| => if first <= p < first + count then dirty[p] & !mask else dirty[p])
  }

  /** tlb_protect_code */
  function Protect(m: Machine, p: nat): Machine
    requires p < |m.dirty|
  {
    m.(dirty := m.dirty[p := m.dirty[p] & 0xfd], tlb := ResetTlb(m.tlb, p, 1))
  }

  /** The guard of tb_alloc_page: only the first block on a page needs to protect it. */
  ghost function ProtectIfFirst(m: Machine, live: map<TbId, Tb>, p: nat): Machine
    requires p < |m.dirty|
  {
    if HasCode(live, p) then m.(descs := m.descs + {p}) else Protect(m.(descs := m.descs + {p}), p)
  }

  /** tb_link_page */
  ghost function LinkTb(m: Machine, t: TbId, tb: Tb): Machine
    requires WfTb(tb, |m.dirty|)
  {
    var m1 := ProtectIfFirst(m, m.live, tb.page0);
    var m2 := if tb.page1.Some? then ProtectIfFirst(m1, m.live, tb.page1.value) else m1;
    m2.(live := m.live[t := tb])
  }

  /** The machine after every TB outside `keep` is invalidated. */
  function Keep(m: Machine, keep: set<TbId>): Machine {
    m.(live := map t | t in m.live && t in keep :: m.live[t],
       jumps := map l | l in m.jumps && l.tb in keep && m.jumps[l] in keep :: m.jumps[l])
  }

  ghost function Missed(live: map<TbId, Tb>, start: nat, end: nat): set<TbId> {
    set t | t in live && !Hits(live[t], start, end)
  }

  /** tb_invalidate_phys_page_range; [start, end) lies in one page. */
  ghost function InvalidateRange(m: Machine, start: nat, end: nat, cpuWrite: bool): Machine
    requires start / PAGE_SIZE < |m.dirty|
  {
    var p := start / PAGE_SIZE;
    var r := Keep(m, Missed(m.live, start, end));
    if cpuWrite && p in m.descs && !HasCode(r.live, p)
    then r.(dirty := r.dirty[p := r.dirty[p] | CODE_DIRTY_FLAG])
    else r
  }

  /** tlb_set_dirty */
  function SetDirty(tlb: TlbTable, cpu: nat, page: VPage): TlbTable {
    map s | s in tlb :: if s.cpu == cpu && s.index == IndexOf(page) then SetDirty1(tlb[s], page) else tlb[s]
  }

  /** tlb_flush, tlb_flush_page */
  function DropSlots(tlb: TlbTable, slots: set<Slot>): TlbTable {
    map s | s in tlb :: if s in slots then EMPTY_ENTRY else tlb[s]
  }

  /** [a, a + len) is a nonempty range of RAM bytes within one page. */
  ghost predicate OnePage(m: Machine, a: nat, len: nat) {
    0 < len && a % PAGE_SIZE + len <= PAGE_SIZE && a / PAGE_SIZE < |m.dirty|
  }

  /** The end of notdirty_mem_write: all other flags of page `p` are set, and if the code flag is, too, stores are no
      longer tested; the access came through the TLB entry in slot `s`. */
  function SetFlags(m: Machine, s: Slot, p: nat): Machine
    requires s in m.tlb && m.tlb[s].write.At? && p < |m.dirty|
  {
    var d := m.dirty[p] | 0xfd;
    m.(dirty := m.dirty[p := d], tlb := if d == 0xff then SetDirty(m.tlb, s.cpu, m.tlb[s].write.page) else m.tlb)
  }

  /** The part of notdirty_mem_write that follows the invalidation. */
  function FinishStore(m: Machine, s: Slot, a: nat, data: seq<bv8>): Machine
    requires s in m.tlb && m.tlb[s].write.At? && a / PAGE_SIZE < |m.dirty| && a + |data| <= |m.ram|
  {
    SetFlags(m.(ram := Write(m.ram, a, data)), s, a / PAGE_SIZE)
  }

  /** notdirty_mem_write first invalidates the code it is about to overwrite. */
  ghost function TestForCode(m: Machine, start: nat, end: nat): Machine
    requires start / PAGE_SIZE < |m.dirty|
  {
    if m.dirty[start / PAGE_SIZE] & CODE_DIRTY_FLAG == 0 then InvalidateRange(m, start, end, true) else m
  }

  /** notdirty_mem_write */
  ghost function NotdirtyStore(m: Machine, s: Slot, a: nat, data: seq<bv8>): Machine
    requires Wf(m) && s in m.tlb && m.tlb[s].write.At? && OnePage(m, a, |data|)
  {
    FinishStore(TestForCode(m, a, a + |data|), s, a, data)
  }

  /** stl_phys_internal, stw_phys_internal */
  ghost function PhysStore(m: Machine, a: nat, data: seq<bv8>): Machine
    requires Wf(m) && OnePage(m, a, |data|)
  {
    var p := a / PAGE_SIZE;
    var m1 := m.(ram := Write(m.ram, a, data));
    if m.dirty[p] == 0xff then m1
    else
      var m2 := InvalidateRange(m1, a, a + |data|, false);
      m2.(dirty := m2.dirty[p := m2.dirty[p] | 0xfd])
  }

  datatype Op =
    | Translate(t: TbId, tb: Tb)
    | ChainJump(src: Link, dest: TbId)
    | InvalidateTb(t: TbId)
    | InvalidateBytes(a: nat, len: nat)
    | FlushTbs
    | TlbFill(slot: Slot, page: VPage, ram: Option<nat>, prot: Prot, watched: bool, symbolicMmio: bool, traced: bool)
    | TlbDrop(slots: set<Slot>)
    | FastStore(slot: Slot, a: nat, data: seq<bv8>)
    | SlowStore(slot: Slot, a: nat, data: seq<bv8>)
    | StorePhys(a: nat, data: seq<bv8>)
    | ClearDirty(first: nat, count: nat, mask: bv8)

  ghost predicate MayFill(m: Machine, s: Slot, page: VPage, ram: Option<nat>) {
    s in m.tlb && s.index == IndexOf(page) && (ram.Some? ==> ram.value < |m.dirty|)
  }

  /** The page tables map a virtual page to the same RAM page in every mode. */
  ghost predicate FillAgrees(tlb: TlbTable, s: Slot, page: VPage, ram: Option<nat>) {
    forall r | r in tlb && r != s && r.cpu == s.cpu && tlb[r].write.At?
               && tlb[r].write.page == page && tlb[r].ram.Some? && ram.Some? :: tlb[r].ram == ram
  }

  /** The step does not make the modes of a CPU disagree. */
  ghost predicate KeepsModes(m: Machine, op: Op) {
    op.TlbFill? ==> FillAgrees(m.tlb, op.slot, op.page, op.ram)
  }

  ghost predicate Enabled(m: Machine, op: Op)
    requires Wf(m)
  {
    match op
    case Translate(t, tb) => t !in m.live && WfTb(tb, |m.dirty|) && Matches(tb, m.ram)
    case ChainJump(src, dest) => src.n < 2 && src.tb in m.live && dest in m.live && src !in m.jumps
    case InvalidateTb(t) => t in m.live
    case InvalidateBytes(a, len) => OnePage(m, a, len)
    case FlushTbs => true
    case TlbFill(s, page, ram, _, _, _, _) => MayFill(m, s, page, ram)
    case TlbDrop(slots) => true
    // helper_st: no flag but the trace flag is set
    case FastStore(s, a, data) =>
      && s in m.tlb && OnePage(m, a, |data|) && m.tlb[s].ram == Some(a / PAGE_SIZE)
      && m.tlb[s].write.At? && m.tlb[s].write.flags.(trace := false) == Flags(false, false, false, false, false)
    case SlowStore(s, a, data) =>
      s in m.tlb && OnePage(m, a, |data|) && m.tlb[s].ram == Some(a / PAGE_SIZE) && m.tlb[s].write.At?
    case StorePhys(a, data) => OnePage(m, a, |data|)
    // cpu_physical_memory_reset_dirty with a flag other than the code flag, as for the dirty log of a display
    case ClearDirty(first, count, mask) => first + count <= |m.dirty| && mask & CODE_DIRTY_FLAG == 0
  }

  ghost function Apply(m: Machine, op: Op): Machine
    requires Wf(m) && Enabled(m, op)
  {
    match op
    case Translate(t, tb) => LinkTb(m, t, tb)
    case ChainJump(src, dest) => m.(jumps := m.jumps[src := dest])
    case InvalidateTb(t) => Keep(m, m.live.Keys - {t})
    case InvalidateBytes(a, len) => InvalidateRange(m, a, a + len, false)
    case FlushTbs => m.(live := map[], jumps := map[])
    case TlbFill(s, page, ram, prot, watched, symbolicMmio, traced) =>
      m.(tlb := m.tlb[s := Fill(page, ram, prot, watched, ram.Some? && m.dirty[ram.value] == 0xff, symbolicMmio, traced)])
    case TlbDrop(slots) => m.(tlb := DropSlots(m.tlb, slots))
    case FastStore(s, a, data) => m.(ram := Write(m.ram, a, data))
    case SlowStore(s, a, data) => NotdirtyStore(m, s, a, data)
    case StorePhys(a, data) => PhysStore(m, a, data)
    case ClearDirty(first, count, mask) => m.(dirty := Masked(m.dirty, first, count, mask), tlb := ResetTlb(m.tlb, first, count))
  }

  // ---- Proofs ----

  lemma {:induction false} Monotone(a: nat, b: nat)
    ensures a <= b ==> a / PAGE_SIZE <= b / PAGE_SIZE
  {
  }

  lemma {:induction false} DirtyBits(d: bv8)
    ensures (d & 0xfd) & CODE_DIRTY_FLAG == 0
    ensures (d | 0xfd) & CODE_DIRTY_FLAG == d & CODE_DIRTY_FLAG
    ensures (d | 0xfd) == 0xff <==> d & CODE_DIRTY_FLAG != 0
    ensures (d | CODE_DIRTY_FLAG) & CODE_DIRTY_FLAG != 0
    ensures d == 0xff ==> d & CODE_DIRTY_FLAG != 0
    ensures d & CODE_DIRTY_FLAG == 0 ==> (d & 0xfd) == d
  {
  }

  lemma {:induction false} SrcOnPage(tb: Tb, pages: nat, k: nat)
    requires WfTb(tb, pages) && k < tb.size
    ensures SrcAddr(tb, k) < pages * PAGE_SIZE
    ensures OnPage(tb, SrcAddr(tb, k) / PAGE_SIZE)
  {
  }

  /** A store that hits no source byte of a TB leaves the TB matching RAM, and only such a store need. */
  lemma {:induction false} WriteKeepsMatch(tb: Tb, ram: seq<bv8>, a: nat, data: seq<bv8>)
    requires WfTb(tb, |ram| / PAGE_SIZE) && Matches(tb, ram)
    requires a + |data| <= |ram| && !Hits(tb, a, a + |data|)
    ensures Matches(tb, Write(ram, a, data))
  {
  }

  /** Bytes of a page that holds no code of a TB are not source bytes of it. */
  lemma {:induction false} OffPageMisses(tb: Tb, pages: nat, a: nat, len: nat)
    requires WfTb(tb, pages) && 0 < len && a % PAGE_SIZE + len <= PAGE_SIZE
    requires !OnPage(tb, a / PAGE_SIZE)
    ensures !Hits(tb, a, a + len)
  {
    forall k | 0 <= k < tb.size ensures !(a <= SrcAddr(tb, k) < a + len) {
      SrcOnPage(tb, pages, k);
      Monotone(a, SrcAddr(tb, k));
      Monotone(SrcAddr(tb, k), a + len - 1);
    }
  }

  lemma {:induction false} ProtectKeeps(m: Machine, p: nat)
    requires Inv(m) && p < |m.dirty| && p in m.descs
    ensures Inv(Protect(m, p))
  {
    var r := Protect(m, p);
    DirtyBits(m.dirty[p]);
    forall t, s | t in r.live && s in r.tlb && IsDirtyRam(r.tlb[s]) && r.tlb[s].ram.Some?
      ensures !OnPage(r.live[t], r.tlb[s].ram.value)
    {
      assert r.tlb[s] == m.tlb[s];
    }
  }

  /** After the first block on a page protects it, the page is ready for a block. */
  lemma {:induction false} ProtectIfFirstKeeps(m: Machine, p: nat)
    requires Inv(m) && p < |m.dirty|
    ensures var r := ProtectIfFirst(m, m.live, p);
      && Inv(r) && r.live == m.live && r.ram == m.ram && r.jumps == m.jumps && |r.dirty| == |m.dirty|
      && Ready(r, p) && (forall q | Ready(m, q) :: Ready(r, q))
  {
    hide Inv, Ready, HasCode, Protect;
    var m0 := m.(descs := m.descs + {p});
    DescKeeps(m, p);
    if HasCode(m.live, p) {
      CodeIsReady(m0, p);
    } else {
      ProtectKeeps(m0, p);
      ProtectReadies(m0, p);
    }
  }

  lemma {:induction false} DescKeeps(m: Machine, p: nat)
    requires Inv(m)
    ensures var r := m.(descs := m.descs + {p}); Inv(r) && forall q | Ready(m, q) :: Ready(r, q)
  {
  }

  lemma {:induction false} CodeIsReady(m: Machine, p: nat)
    requires Inv(m) && p < |m.dirty| && HasCode(m.live, p)
    ensures Ready(m, p)
  {
    var t :| t in m.live && OnPage(m.live[t], p);
  }

  lemma {:induction false} ProtectReadies(m: Machine, p: nat)
    requires p < |m.dirty| && p in m.descs
    ensures var r := Protect(m, p);
      && r.live == m.live && r.ram == m.ram && r.jumps == m.jumps && |r.dirty| == |m.dirty|
      && Ready(r, p) && (forall q | Ready(m, q) :: Ready(r, q))
  {
    DirtyBits(m.dirty[p]);
  }

  ghost predicate Ready(m: Machine, p: nat) {
    && p < |m.dirty| && p in m.descs && m.dirty[p] & CODE_DIRTY_FLAG == 0
    && forall s | s in m.tlb && IsDirtyRam(m.tlb[s]) :: m.tlb[s].ram != Some(p)
  }

  lemma {:induction false} AddTbKeeps(m: Machine, t: TbId, tb: Tb)
    requires Inv(m) && t !in m.live && WfTb(tb, |m.dirty|) && Matches(tb, m.ram)
    requires Ready(m, tb.page0) && (tb.page1.Some? ==> Ready(m, tb.page1.value))
    ensures Inv(m.(live := m.live[t := tb]))
  {
  }

  lemma {:induction false} LinkKeeps(m: Machine, t: TbId, tb: Tb)
    requires Inv(m) && t !in m.live && WfTb(tb, |m.dirty|) && Matches(tb, m.ram)
    ensures Inv(LinkTb(m, t, tb))
  {
    ProtectIfFirstKeeps(m, tb.page0);
    var m1 := ProtectIfFirst(m, m.live, tb.page0);
    if tb.page1.Some? {
      ProtectIfFirstKeeps(m1, tb.page1.value);
      AddTbKeeps(ProtectIfFirst(m1, m.live, tb.page1.value), t, tb);
    } else {
      AddTbKeeps(m1, t, tb);
    }
  }

  lemma {:induction false} KeepKeeps(m: Machine, keep: set<TbId>)
    requires Inv(m)
    ensures Inv(Keep(m, keep))
  {
  }

  /** Setting dirty bits of a page that holds no code, or bits other than the code bit. */
  lemma {:induction false} SetBitsKeeps(m: Machine, p: nat, d: bv8)
    requires Inv(m) && p < |m.dirty|
    requires HasCode(m.live, p) ==> d & CODE_DIRTY_FLAG == 0
    requires d & CODE_DIRTY_FLAG == 0 ==> m.dirty[p] & CODE_DIRTY_FLAG == 0
    ensures Inv(m.(dirty := m.dirty[p := d]))
  {
    var r := m.(dirty := m.dirty[p := d]);
    forall t, q | t in r.live && 0 <= q < |r.dirty| && OnPage(r.live[t], q)
      ensures q in r.descs && r.dirty[q] & CODE_DIRTY_FLAG == 0
    {
    }
  }

  /** Coherent except possibly for the TBs that [start, end) hits. */
  ghost predicate CoherentBut(live: map<TbId, Tb>, ram: seq<bv8>, start: nat, end: nat) {
    forall t | t in live && WfTb(live[t], |ram| / PAGE_SIZE) && !Hits(live[t], start, end) :: Matches(live[t], ram)
  }

  lemma {:induction false} KeepMissed(m: Machine, start: nat, end: nat, keep: set<TbId>)
    requires Wf(m) && CoherentBut(m.live, m.ram, start, end)
    requires CleanHaveDescs(m.descs, m.dirty) && CodePagesClean(m.live, m.descs, m.dirty)
    requires CodePagesTested(m.live, m.tlb) && ModesAgree(m.tlb)
    requires forall t | t in keep :: t in m.live && !Hits(m.live[t], start, end)
    ensures Inv(Keep(m, keep))
  {
    var r := Keep(m, keep);
    assert forall t | t in r.live :: t in m.live && r.live[t] == m.live[t];
  }

  /** Invalidation restores coherence after a store to the range, and leaves no TB there. */
  lemma {:induction false} InvalidateKeeps(m: Machine, a: nat, len: nat, cpuWrite: bool)
    requires Wf(m) && OnePage(m, a, len)
    requires CleanHaveDescs(m.descs, m.dirty) && CodePagesClean(m.live, m.descs, m.dirty)
    requires CodePagesTested(m.live, m.tlb) && ModesAgree(m.tlb)
    requires CoherentBut(m.live, m.ram, a, a + len)
    ensures var r := InvalidateRange(m, a, a + len, cpuWrite);
      Inv(r) && r.ram == m.ram && r.tlb == m.tlb
  {
    var p := a / PAGE_SIZE;
    var keep := Missed(m.live, a, a + len);
    var r := Keep(m, keep);
    KeepMissed(m, a, a + len, keep);
    if !HasCode(r.live, p) {
      DirtyBits(r.dirty[p]);
      SetBitsKeeps(r, p, r.dirty[p] | CODE_DIRTY_FLAG);
    }
  }

  /** Exactly the TBs that the range misses survive. */
  lemma {:induction false} InvalidateExact(m: Machine, start: nat, end: nat, cpuWrite: bool)
    requires Wf(m) && start / PAGE_SIZE < |m.dirty|
    ensures var r := InvalidateRange(m, start, end, cpuWrite);
      && (forall t | t in r.live :: t in m.live && r.live[t] == m.live[t] && !Hits(r.live[t], start, end))
      && (forall t | t in m.live && !Hits(m.live[t], start, end) :: t in r.live)
  {
    var keep := Missed(m.live, start, end);
    var r := InvalidateRange(m, start, end, cpuWrite);
    assert r.live == Keep(m, keep).live;
  }

  lemma {:induction false} WriteKeeps(m: Machine, a: nat, data: seq<bv8>)
    requires Inv(m) && a + |data| <= |m.ram|
    requires forall t | t in m.live :: !Hits(m.live[t], a, a + |data|)
    ensures Inv(m.(ram := Write(m.ram, a, data)))
  {
    forall t | t in m.live ensures Matches(m.live[t], Write(m.ram, a, data)) {
      WriteKeepsMatch(m.live[t], m.ram, a, data);
    }
  }

  /** Bytes on a page without code are nobody's source. */
  lemma {:induction false} CodelessPage(m: Machine, a: nat, len: nat)
    requires Wf(m) && OnePage(m, a, len) && !HasCode(m.live, a / PAGE_SIZE)
    ensures forall t | t in m.live :: !Hits(m.live[t], a, a + len)
  {
    forall t | t in m.live ensures !Hits(m.live[t], a, a + len) {
      OffPageMisses(m.live[t], |m.dirty|, a, len);
    }
  }

  /** A dirty code bit means no code. */
  lemma {:induction false} DirtyHasNoCode(m: Machine, p: nat)
    requires Inv(m) && p < |m.dirty| && m.dirty[p] & CODE_DIRTY_FLAG != 0
    ensures !HasCode(m.live, p)
  {
  }

  lemma {:induction false} SetDirtyKeeps(m: Machine, s: Slot)
    requires Inv(m) && s in m.tlb && m.tlb[s].ram.Some? && m.tlb[s].write.At?
    requires !HasCode(m.live, m.tlb[s].ram.value)
    ensures Inv(m.(tlb := SetDirty(m.tlb, s.cpu, m.tlb[s].write.page)))
  {
    var page, tlb := m.tlb[s].write.page, SetDirty(m.tlb, s.cpu, m.tlb[s].write.page);
    forall t, r | t in m.live && r in tlb && IsDirtyRam(tlb[r]) && tlb[r].ram.Some?
      ensures !OnPage(m.live[t], tlb[r].ram.value)
    {
      if tlb[r] != m.tlb[r] {
        assert m.tlb[r].write.page == page && m.tlb[r].ram == m.tlb[s].ram;
      }
    }
    forall r | r in tlb
      ensures tlb[r].ram == m.tlb[r].ram && tlb[r].write.At? == m.tlb[r].write.At?
      ensures tlb[r].write.At? ==> tlb[r].write.page == m.tlb[r].write.page
    {
    }
  }

  lemma {:induction false} FinishStoreKeeps(m: Machine, s: Slot, a: nat, data: seq<bv8>)
    requires Inv(m) && s in m.tlb && m.tlb[s].write.At? && OnePage(m, a, |data|) && m.tlb[s].ram == Some(a / PAGE_SIZE)
    requires forall t | t in m.live :: !Hits(m.live[t], a, a + |data|)
    ensures Inv(FinishStore(m, s, a, data))
  {
    WriteKeeps(m, a, data);
    SetFlagsKeeps(m.(ram := Write(m.ram, a, data)), s, a / PAGE_SIZE);
  }

  lemma {:induction false} SetFlagsKeeps(m: Machine, s: Slot, p: nat)
    requires Inv(m) && s in m.tlb && m.tlb[s].write.At? && p < |m.dirty| && m.tlb[s].ram == Some(p)
    ensures Inv(SetFlags(m, s, p))
  {
    hide Inv, SetDirty;
    DirtyBits(m.dirty[p]);
    if m.dirty[p] & CODE_DIRTY_FLAG != 0 { DirtyHasNoCode(m, p); }
    SetBitsKeeps(m, p, m.dirty[p] | 0xfd);
    if m.dirty[p] | 0xfd == 0xff {
      SetDirtyKeeps(m.(dirty := m.dirty[p := 0xff]), s);
    }
  }

  lemma {:induction false} TestForCodeKeeps(m: Machine, a: nat, len: nat)
    requires Inv(m) && OnePage(m, a, len)
    ensures var r := TestForCode(m, a, a + len);
      && Inv(r) && r.tlb == m.tlb && r.ram == m.ram && |r.dirty| == |m.dirty|
      && forall t | t in r.live :: !Hits(r.live[t], a, a + len)
  {
    if m.dirty[a / PAGE_SIZE] & CODE_DIRTY_FLAG == 0 {
      InvalidateKeeps(m, a, len, true);
      InvalidateExact(m, a, a + len, true);
    } else {
      DirtyHasNoCode(m, a / PAGE_SIZE);
      CodelessPage(m, a, len);
    }
  }

  lemma {:induction false} NotdirtyStoreKeeps(m: Machine, s: Slot, a: nat, data: seq<bv8>)
    requires Inv(m) && Enabled(m, SlowStore(s, a, data))
    ensures Inv(NotdirtyStore(m, s, a, data))
  {
    hide Inv, TestForCode, FinishStore, Wf, Hits;
    TestForCodeKeeps(m, a, |data|);
    FinishStoreKeeps(TestForCode(m, a, a + |data|), s, a, data);
  }

  lemma {:induction false} PhysStoreKeeps(m: Machine, a: nat, data: seq<bv8>)
    requires Inv(m) && Enabled(m, StorePhys(a, data))
    ensures Inv(PhysStore(m, a, data))
  {
    var p := a / PAGE_SIZE;
    var m1 := m.(ram := Write(m.ram, a, data));
    if m.dirty[p] == 0xff {
      DirtyHasNoCode(m, p) by { DirtyBits(m.dirty[p]); }
      CodelessPage(m, a, |data|);
      WriteKeeps(m, a, data);
    } else {
      forall t | t in m1.live && !Hits(m1.live[t], a, a + |data|) ensures Matches(m1.live[t], m1.ram) {
        WriteKeepsMatch(m.live[t], m.ram, a, data);
      }
      InvalidateKeeps(m1, a, |data|, false);
      var m2 := InvalidateRange(m1, a, a + |data|, false);
      DirtyBits(m2.dirty[p]);
      if m2.dirty[p] & CODE_DIRTY_FLAG != 0 { DirtyHasNoCode(m2, p); }
      SetBitsKeeps(m2, p, m2.dirty[p] | 0xfd);
    }
  }

  /** A store that writes RAM and tests nothing is safe through an entry of a dirty page. */
  lemma {:induction false} DirectStoreKeeps(m: Machine, s: Slot, a: nat, data: seq<bv8>)
    requires Inv(m) && s in m.tlb && OnePage(m, a, |data|) && m.tlb[s].ram == Some(a / PAGE_SIZE) && IsDirtyRam(m.tlb[s])
    ensures Inv(m.(ram := Write(m.ram, a, data)))
  {
    CodelessPage(m, a, |data|);
    WriteKeeps(m, a, data);
  }

  lemma {:induction false} TlbFillKeeps(m: Machine, op: Op)
    requires Inv(m) && op.TlbFill? && Enabled(m, op) && KeepsModes(m, op)
    ensures Inv(Apply(m, op))
  {
    var r := Apply(m, op);
    var e := r.tlb[op.slot];
    if op.ram.Some? && m.dirty[op.ram.value] == 0xff {
      DirtyBits(m.dirty[op.ram.value]);
      DirtyHasNoCode(m, op.ram.value);
    }
    assert IsDirtyRam(e) && e.ram.Some? ==> m.dirty[e.ram.value] == 0xff;
    assert WfEntry(e, op.slot.index, |m.dirty|);
    assert e.write.At? ==> e.write.page == op.page;
    FillKeeps(m, op.slot, e);
  }

  lemma {:induction false} FillKeeps(m: Machine, s: Slot, e: TlbEntry)
    requires Inv(m) && s in m.tlb && WfEntry(e, s.index, |m.dirty|)
    requires IsDirtyRam(e) && e.ram.Some? ==> !HasCode(m.live, e.ram.value)
    requires forall r | r in m.tlb && r != s && r.cpu == s.cpu && m.tlb[r].write.At? && e.write.At?
                        && m.tlb[r].write.page == e.write.page && m.tlb[r].ram.Some? && e.ram.Some? :: m.tlb[r].ram == e.ram
    ensures Inv(m.(tlb := m.tlb[s := e]))
  {
    var tlb := m.tlb[s := e];
    forall t, r | t in m.live && r in tlb && IsDirtyRam(tlb[r]) && tlb[r].ram.Some?
      ensures !OnPage(m.live[t], tlb[r].ram.value)
    {
    }
  }

  lemma {:induction false} TlbDropKeeps(m: Machine, slots: set<Slot>)
    requires Inv(m)
    ensures Inv(Apply(m, TlbDrop(slots)))
  {
  }

  lemma {:induction false} OtherBits(d: bv8, mask: bv8)
    requires mask & CODE_DIRTY_FLAG == 0
    ensures (d & !mask) & CODE_DIRTY_FLAG == d & CODE_DIRTY_FLAG
  {
  }

  lemma {:induction false} ClearDirtyKeeps(m: Machine, op: Op)
    requires Inv(m) && op.ClearDirty? && Enabled(m, op)
    ensures Inv(Apply(m, op))
  {
    hide Coherent, WfTb, Hits, OnPage;
    var r := Apply(m, op);
    forall p | 0 <= p < |m.dirty| ensures r.dirty[p] & CODE_DIRTY_FLAG == m.dirty[p] & CODE_DIRTY_FLAG {
      OtherBits(m.dirty[p], op.mask);
    }
    forall t, s | t in r.live && s in r.tlb && IsDirtyRam(r.tlb[s]) && r.tlb[s].ram.Some?
      ensures !OnPage(r.live[t], r.tlb[s].ram.value)
    {
      assert r.tlb[s] == m.tlb[s];
    }
  }

  lemma {:induction false} ChainKeeps(m: Machine, src: Link, dest: TbId)
    requires Inv(m) && src.n < 2 && src.tb in m.live && dest in m.live
    ensures Inv(m.(jumps := m.jumps[src := dest]))
  {
  }

  lemma {:induction false} InvalidateBytesKeeps(m: Machine, a: nat, len: nat, cpuWrite: bool)
    requires Inv(m) && OnePage(m, a, len)
    ensures Inv(InvalidateRange(m, a, a + len, cpuWrite))
  {
    InvalidateKeeps(m, a, len, cpuWrite);
  }

  lemma {:induction false} FlushKeeps(m: Machine)
    requires Inv(m)
    ensures Inv(m.(live := map[], jumps := map[]))
  {
  }

  /** Every step keeps the invariant, as long as the page tables map pages alike in all modes. */
  lemma {:induction false} StepKeeps(m: Machine, op: Op)
    requires Inv(m) && Enabled(m, op) && KeepsModes(m, op)
    ensures Inv(Apply(m, op))
  {
    hide Inv, Wf, WfTb, Matches, HasCode, NotdirtyStore, PhysStore, InvalidateRange, LinkTb;
    match op
    case Translate(t, tb) => LinkKeeps(m, t, tb);
    case ChainJump(src, dest) => ChainKeeps(m, src, dest);
    case InvalidateTb(t) => KeepKeeps(m, m.live.Keys - {t});
    case InvalidateBytes(a, len) => InvalidateBytesKeeps(m, a, len, false);
    case FlushTbs => FlushKeeps(m);
    case TlbFill(_, _, _, _, _, _, _) => TlbFillKeeps(m, op);
    case TlbDrop(slots) => TlbDropKeeps(m, slots);
    case FastStore(s, a, data) => DirectStoreKeeps(m, s, a, data);
    case SlowStore(s, a, data) => NotdirtyStoreKeeps(m, s, a, data);
    case StorePhys(a, data) => PhysStoreKeeps(m, a, data);
    case ClearDirty(_, _, _) => ClearDirtyKeeps(m, op);
  }

  lemma {:induction false} InRow(m: Machine, s: Slot)
    requires Wf(m) && s in m.tlb && m.tlb[s].write.At?
    ensures s.index == IndexOf(m.tlb[s].write.page)
  {
    assert WfEntry(m.tlb[s], s.index, |m.dirty|);
  }

  // ---- Runs ----

  ghost predicate IsRun(states: seq<Machine>, ops: seq<Op>) {
    && |states| == |ops| + 1 && Init(states[0])
    && forall i | 0 <= i < |ops| ::
         Wf(states[i]) ==> Enabled(states[i], ops[i]) && states[i + 1] == Apply(states[i], ops[i])
  }

  lemma {:induction false} InitKeeps(m: Machine)
    requires Init(m)
    ensures Inv(m)
  {
  }

  /** Code-cache coherence: in every state of every run, each live TB still equals the
      RAM it was translated from, its pages are clean of the code-dirty bit, and no TLB
      entry lets a store reach them untested. */
  lemma {:induction false} RunsAreCoherent(states: seq<Machine>, ops: seq<Op>, i: nat)
    requires IsRun(states, ops) && i < |states|
    requires forall j | 0 <= j < |ops| :: KeepsModes(states[j], ops[j])
    ensures Inv(states[i])
  {
    if i == 0 {
      InitKeeps(states[0]);
    } else {
      RunsAreCoherent(states, ops, i - 1);
      StepKeeps(states[i - 1], ops[i - 1]);
    }
  }
}

/** The code cache of the emulated machine, in place (libcpu/src/exec-tb.c, exec.c, exec-tlb.c, cpu-exec.c).

    `View` is the `SmcMachine` state that the object stands for. Every method moves `View`
    by the matching step of `SmcMachine`, so everything proved there about reachable states
    holds of the object between any two calls.
 */
module CodeCache {
  import opened Arith
  import opened Wrappers
  import opened IntrusiveLists
  import opened Tlb
  import opened SmcMachine
  import opened StepEffects
  import opened CodeBitmap
  import opened FlushRegion
  import opened PageLists
  import opened TbLinks
  import opened TbInsert
  import opened TbLookup
  import opened TlbFlush

  // ---- Stores ----

  /** tlb_set_dirty */
  method SetDirtyRow(tlb: TlbTable, cpu: nat, page: VPage, cpus: nat, modes: nat) returns (tlb': TlbTable)
    requires TlbDomain(tlb, cpus, modes) && cpu < cpus
    ensures tlb' == SetDirty(tlb, cpu, page)
  {
    tlb' := tlb;
    for mode := 0 to modes
      invariant tlb'.Keys == tlb.Keys
      invariant forall s | s in tlb :: tlb'[s] ==
                  if s.cpu == cpu && s.index == IndexOf(page) && s.mode < mode then SetDirty1(tlb[s], page) else tlb[s]
    {
      var s := Slot(cpu, mode, IndexOf(page));
      tlb' := tlb'[s := SetDirty1(tlb'[s], page)];
    }
  }

  /** notdirty_mem_write, for the sizes and alignments that io_write passes */
  method NotdirtyMemWrite(k: Links, dirty: seq<bv8>, tlb: TlbTable, ram: seq<bv8>, s: Slot, a: nat, data: seq<bv8>,
                          ghost x: Index, cpus: nat, modes: nat)
    returns (ok: bool, k': Links, dirty': seq<bv8>, tlb': TlbTable, ram': seq<bv8>, ghost x': Index)
    requires Linked(k, x, cpus, |dirty|, {}) && TlbDomain(tlb, cpus, modes) && Wf(ViewOf(k, x, dirty, tlb, ram))
    requires s in tlb && tlb[s].write.At? && OnePage(ViewOf(k, x, dirty, tlb, ram), a, |data|)
    requires |data| in {1, 2, 4} && a % |data| == 0
    ensures ok <==> dirty[a / PAGE_SIZE] & CODE_DIRTY_FLAG != 0 || !AnyTwice(x.live, a, a + |data|)
    ensures a + |data| <= |ram| && ram' == if ok then Write(ram, a, data) else ram
    ensures ok ==> ViewOf(k', x', dirty', tlb', ram') == NotdirtyStore(ViewOf(k, x, dirty, tlb, ram), s, a, data)
    ensures ok ==> Linked(k', x', cpus, |dirty|, {}) && k'.tbs == k.tbs && |dirty'| == |dirty| && Fewer(k'.cache, k.cache)
  {
    hide Linked, TlbDomain, Wf, SmcMachine.InvalidateRange, Write, SetDirty, Fewer, AnyTwice;
    FewerSame(k.cache);
    var p := a / PAGE_SIZE;
    ghost var m := ViewOf(k, x, dirty, tlb, ram);
    InRam(m, a, |data|);
    ok, k', dirty', tlb', ram', x' := true, k, dirty, tlb, ram, x;
    if dirty[p] & CODE_DIRTY_FLAG == 0 {
      AlignedFits(a, |data|);
      ok, k', dirty', x' := InvalidatePhysPageFast(k, dirty, a, |data|, x, cpus, tlb, ram);
      if !ok {
        return;
      }
    }
    assert ViewOf(k', x', dirty', tlb, ram) == TestForCode(m, a, a + |data|);
    ram' := Write(ram, a, data);
    var d := dirty'[p] | 0xfd;
    dirty' := dirty'[p := d];
    if d == 0xff {
      assert s.cpu < cpus by { InDomain(tlb, cpus, modes, s); }
      tlb' := SetDirtyRow(tlb, s.cpu, tlb[s].write.page, cpus, modes);
    }
  }

  lemma InRam(m: Machine, a: nat, len: nat)
    requires Wf(m) && OnePage(m, a, len)
    ensures a + len <= |m.ram|
  {
  }

  lemma InDomain(tlb: TlbTable, cpus: nat, modes: nat, s: Slot)
    requires TlbDomain(tlb, cpus, modes) && s in tlb
    ensures s.cpu < cpus
  {
  }

  lemma AlignedFits(a: nat, len: nat)
    requires len in {1, 2, 4} && a % len == 0
    ensures a % PAGE_SIZE % 8 + len <= 8
  {
    ModMod(a, 8, 512);
    assert 8 * 512 == PAGE_SIZE;
    AlignedPowerFits(a, len);
  }

  // ---- Stores of code that was translated for symbolic execution ----

  /** The entry lets stores to `page` pass, to concrete or symbolic bytes. */
  predicate Passes(e: TlbEntry, page: VPage) {
    e.write.At? && e.write.page == page && e.write.flags.(symb := false) == Flags(false, false, false, false, false)
  }

  ghost predicate RowPasses(tlb: TlbTable, cpu: nat, page: VPage) {
    forall s | s in tlb && s.cpu == cpu && s.index == IndexOf(page) :: Passes(tlb[s], page)
  }

  /** tlb_is_dirty */
  method TlbIsDirty(tlb: TlbTable, cpu: nat, page: VPage, cpus: nat, modes: nat) returns (ok: bool)
    requires TlbDomain(tlb, cpus, modes) && cpu < cpus
    ensures ok <==> RowPasses(tlb, cpu, page)
    ensures ok <==> forall s | s in tlb && s.cpu == cpu && s.index == IndexOf(page) ::
              var w := tlb[s].write;
              w.At? && w.page == page && !w.flags.notdirty && !w.flags.mmio && !w.flags.notOurs && !w.flags.trace
  {
    ok := true;
    for mode := 0 to modes
      invariant ok <==> forall s | s in tlb && s.cpu == cpu && s.index == IndexOf(page) && s.mode < mode :: Passes(tlb[s], page)
    {
      ok := ok && Passes(tlb[Slot(cpu, mode, IndexOf(page))], page);
    }
  }

  /** What se_notdirty_mem_write does before the store; `scanned` tells that the list of the page's TBs was walked. */
  ghost function Prepared(m: Machine, s: Slot, a: nat, size: nat, scanned: bool): Machine
    requires s in m.tlb && m.tlb[s].write.At? && a / PAGE_SIZE < |m.dirty|
  {
    if RowPasses(m.tlb, s.cpu, m.tlb[s].write.page) then m
    else SetFlags(if scanned then SmcMachine.InvalidateRange(m, a, a + Clip(a, size), true) else m, s, a / PAGE_SIZE)
  }

  /** There is nothing to invalidate, or the fast test finds nothing. */
  ghost predicate NoScan(k: Links, m: Machine, s: Slot, a: nat, size: nat)
    requires s in m.tlb && m.tlb[s].write.At? && a / PAGE_SIZE < |m.dirty|
  {
    || RowPasses(m.tlb, s.cpu, m.tlb[s].write.page) || m.dirty[a / PAGE_SIZE] & CODE_DIRTY_FLAG != 0
    || Skips(k, m.live, a, size)
  }

  /** se_notdirty_mem_write; the caller stores to the address that it returns. */
  method SeNotdirtyMemWrite(k: Links, dirty: seq<bv8>, tlb: TlbTable, s: Slot, a: nat, size: nat,
                            ghost x: Index, cpus: nat, modes: nat, ghost ram: seq<bv8>)
    returns (ok: bool, k': Links, dirty': seq<bv8>, tlb': TlbTable, ghost x': Index, ghost scanned: bool)
    requires Linked(k, x, cpus, |dirty|, {}) && TlbDomain(tlb, cpus, modes)
    requires s in tlb && tlb[s].write.At? && a / PAGE_SIZE < |dirty| && 0 < size <= 8
    ensures scanned <==> !NoScan(k, ViewOf(k, x, dirty, tlb, ram), s, a, size)
    ensures scanned <==> !RowPasses(tlb, s.cpu, tlb[s].write.page) && dirty[a / PAGE_SIZE] & CODE_DIRTY_FLAG == 0 && !Skips(k, x.live, a, size)
    ensures ok <==> scanned ==> !AnyTwice(x.live, a, a + Clip(a, size))
    ensures ok ==> ViewOf(k', x', dirty', tlb', ram) == Prepared(ViewOf(k, x, dirty, tlb, ram), s, a, size, scanned)
    ensures ok ==> Linked(k', x', cpus, |dirty|, {}) && k'.tbs == k.tbs && |dirty'| == |dirty| && Fewer(k'.cache, k.cache)
  {
    hide Linked, TlbDomain, SmcMachine.InvalidateRange, SetDirty, Fewer, AnyTwice, Clip, RowPasses, Skips;
    FewerSame(k.cache);
    InDomain(tlb, cpus, modes, s);
    var p := a / PAGE_SIZE;
    ok, k', dirty', tlb', x', scanned := true, k, dirty, tlb, x, false;
    var passes := TlbIsDirty(tlb, s.cpu, tlb[s].write.page, cpus, modes);
    if passes {
      return;
    }
    if dirty[p] & CODE_DIRTY_FLAG == 0 {
      scanned := !Skips(k, x.live, a, size);
      ok, k', dirty', x' := InvalidatePhysPageFast(k, dirty, a, size, x, cpus, tlb, ram);
      if !ok {
        return;
      }
    }
    var d := dirty'[p] | 0xfd;
    dirty' := dirty'[p := d];
    if d == 0xff {
      tlb' := SetDirtyRow(tlb, s.cpu, tlb[s].write.page, cpus, modes);
    }
  }

  /** `live'` is `live` without TBs that [start, end) hits. */
  ghost predicate Dropped(live': map<TbId, Tb>, live: map<TbId, Tb>, start: nat, end: nat) {
    && Submap(live', live)
    && forall t | t in live && !Hits(live[t], start, end) :: t in live'
  }

  ghost predicate NoneHit(live: map<TbId, Tb>, start: nat, end: nat) {
    forall t | t in live :: !Hits(live[t], start, end)
  }

  /** Before the store no TB is left that the bytes of the fast test hit, and none is gone that the range misses. */
  lemma PreparedKeeps(k: Links, m: Machine, s: Slot, a: nat, size: nat, scanned: bool)
    requires Inv(m) && s in m.tlb && m.tlb[s].write.At? && m.tlb[s].ram == Some(a / PAGE_SIZE) && a / PAGE_SIZE < |m.dirty| && 0 < size <= 8
    requires scanned <==> !NoScan(k, m, s, a, size)
    ensures var r := Prepared(m, s, a, size, scanned);
      && Inv(r) && r.ram == m.ram && |r.dirty| == |m.dirty| && r.tlb.Keys == m.tlb.Keys && Shrunk(r, m)
      && r.tlb[s].ram == m.tlb[s].ram && r.tlb[s].write.At?
      && NoneHit(r.live, a, a + Tested(a, size)) && Dropped(r.live, m.live, a, a + Clip(a, size))
  {
    hide Inv, SmcMachine.InvalidateRange, Tested, Clip, RowPasses, Skips, Hits, SetDirty;
    var p, n := a / PAGE_SIZE, Clip(a, size);
    TestedClip(a, size);
    if scanned {
      var r := SmcMachine.InvalidateRange(m, a, a + n, true);
      Scanned(m, a, n);
      HitsLess(r.live, a, Tested(a, size), n);
      SetFlagsKeeps(r, s, p);
      FlagsOnly(r, s, p);
    } else {
      NothingThere(k, m, s, a, size);
      SetFlagsKeeps(m, s, p);
      FlagsOnly(m, s, p);
    }
  }

  /** Unless all of the row already lets stores pass, the page's flags are set, and the code flag with them if it was set
      before or if the scan left no code; in that case, stores to the page are no longer tested. */
  lemma PreparedEffect(m: Machine, s: Slot, a: nat, size: nat, scanned: bool)
    requires Wf(m) && s in m.tlb && m.tlb[s].write.At? && a / PAGE_SIZE < |m.dirty|
    ensures var r := Prepared(m, s, a, size, scanned); var p := a / PAGE_SIZE;
      if RowPasses(m.tlb, s.cpu, m.tlb[s].write.page) then r == m
      else
        var clear := m.dirty[p] & CODE_DIRTY_FLAG != 0 || (scanned && p in m.descs && !HasCode(r.live, p));
        && r.ram == m.ram && r.descs == m.descs
        && (if scanned then GoneExactly(r, m, a, a + Clip(a, size)) else r.live == m.live && r.jumps == m.jumps)
        && r.dirty == m.dirty[p := if clear then 0xff else m.dirty[p] | 0xfd]
        && if clear then LiftsMarks(r.tlb, m.tlb, s.cpu, m.tlb[s].write.page) else r.tlb == m.tlb
  {
    hide Wf, GoneExactly, LiftsMarks, SetDirty, HasCode, RowPasses, Clip, SmcMachine.InvalidateRange;
    var p, n := a / PAGE_SIZE, Clip(a, size);
    InvalidateEffect(m, a, a + n, true);
    SetDirtyMarks(m, s.cpu, m.tlb[s].write.page);
    if !RowPasses(m.tlb, s.cpu, m.tlb[s].write.page) {
      GoneSame(SmcMachine.InvalidateRange(m, a, a + n, true), Prepared(m, s, a, size, true), m, a, a + n);
    }
    DirtyBits(m.dirty[p]);
    CodeBit(m.dirty[p]);
  }

  lemma TestedClip(a: nat, size: nat)
    ensures Tested(a, size) <= Clip(a, size)
  {
    assert PAGE_SIZE == 8 * 512;
  }

  lemma FlagsOnly(m: Machine, s: Slot, p: nat)
    requires s in m.tlb && m.tlb[s].write.At? && p < |m.dirty|
    ensures var r := SetFlags(m, s, p);
      && r.live == m.live && r.jumps == m.jumps && r.ram == m.ram && |r.dirty| == |m.dirty| && r.tlb.Keys == m.tlb.Keys
      && r.tlb[s].ram == m.tlb[s].ram && r.tlb[s].write.At?
  {
  }

  lemma Scanned(m: Machine, a: nat, len: nat)
    requires Inv(m) && OnePage(m, a, len)
    ensures var r := SmcMachine.InvalidateRange(m, a, a + len, true);
      && Inv(r) && r.ram == m.ram && |r.dirty| == |m.dirty| && r.tlb == m.tlb && Shrunk(r, m)
      && NoneHit(r.live, a, a + len) && Dropped(r.live, m.live, a, a + len)
  {
    hide Hits, HasCode;
    InvalidateBytesKeeps(m, a, len, true);
    InvalidateExact(m, a, a + len, true);
  }

  lemma HitsLess(live: map<TbId, Tb>, a: nat, n: nat, len: nat)
    requires n <= len && NoneHit(live, a, a + len)
    ensures NoneHit(live, a, a + n)
  {
  }

  /** Where nothing is scanned, the bytes of the fast test are no code. */
  lemma NothingThere(k: Links, m: Machine, s: Slot, a: nat, size: nat)
    requires Inv(m) && s in m.tlb && m.tlb[s].write.At? && m.tlb[s].ram == Some(a / PAGE_SIZE) && a / PAGE_SIZE < |m.dirty| && 0 < size <= 8
    requires NoScan(k, m, s, a, size)
    ensures NoneHit(m.live, a, a + Tested(a, size)) && Shrunk(m, m) && Dropped(m.live, m.live, a, a + Clip(a, size))
    ensures Skips(k, m.live, a, size) || !HasCode(m.live, a / PAGE_SIZE)
  {
    hide Hits, Tested, Clip;
    TestedClip(a, size);
    if !Skips(k, m.live, a, size) {
      if RowPasses(m.tlb, s.cpu, m.tlb[s].write.page) {
        InRow(m, s);
        assert IsDirtyRam(m.tlb[s]);
      } else {
        DirtyHasNoCode(m, a / PAGE_SIZE);
      }
      CodelessPage(m, a, Tested(a, size));
    }
  }

  /** A TB that is hit in both parts is not overlooked where the test sees the whole range. */
  lemma TwiceScanned(k: Links, m: Machine, s: Slot, a: nat, size: nat)
    requires Inv(m) && s in m.tlb && m.tlb[s].write.At? && m.tlb[s].ram == Some(a / PAGE_SIZE) && a / PAGE_SIZE < |m.dirty| && 0 < size <= 8
    ensures Tested(a, size) == size && AnyTwice(m.live, a, a + size) ==> !NoScan(k, m, s, a, size) && Clip(a, size) == size
  {
    hide Hits, Inv, PartHit, NoScan, Clip, Tested;
    OneByte(a, size);
    if NoScan(k, m, s, a, size) && Tested(a, size) == size {
      NothingThere(k, m, s, a, size);
      NeverTwice(m.live, a, a + size);
    }
  }

  lemma Halves(a: nat)
    requires a % 8 == 0 && a % PAGE_SIZE + 8 <= PAGE_SIZE
    ensures Tested(a, 8) == 8 && Clip(a, 8) == 8 && Tested(a + 4, 8) == 4 && a + 4 + Clip(a + 4, 8) == a + Clip(a, 12) && 8 <= Clip(a, 12)
    ensures (a + 4) / PAGE_SIZE == a / PAGE_SIZE && (a + 4) % PAGE_SIZE == a % PAGE_SIZE + 4
  {
    ModMod(a, 8, 512);
    assert 8 * 512 == PAGE_SIZE;
    assert a == a / PAGE_SIZE * PAGE_SIZE + a % PAGE_SIZE;
    ModUnique(a + 4, a / PAGE_SIZE, a % PAGE_SIZE + 4, PAGE_SIZE);
    assert (a % PAGE_SIZE + 4) % 8 == 4;
  }

  lemma HitsIn(live: map<TbId, Tb>, a: nat, len: nat, b: nat, n: nat)
    requires NoneHit(live, a, a + len) && a <= b && b + n <= a + len
    ensures NoneHit(live, b, b + n)
  {
  }

  lemma MoreTwice(live': map<TbId, Tb>, live: map<TbId, Tb>, b: nat, n: nat, a: nat, len: nat)
    requires Submap(live', live) && a <= b && b + n <= a + len
    ensures AnyTwice(live', b, b + n) ==> AnyTwice(live, a, a + len)
  {
    if t :| t in live' && TwiceHit(live'[t], b, b + n) {
      assert TwiceHit(live[t], a, a + len);
    }
  }

  lemma DroppedTwice(live'': map<TbId, Tb>, live': map<TbId, Tb>, live: map<TbId, Tb>, a: nat)
    requires Dropped(live', live, a, a + Clip(a, 8)) && NoneHit(live', a, a + 8) && Clip(a, 8) == 8 <= Clip(a, 12)
    requires a + 4 + Clip(a + 4, 8) == a + Clip(a, 12)
    ensures Submap(live', live)
    ensures Dropped(live'', live', a + 4, a + 4 + Clip(a + 4, 8)) ==> Dropped(live'', live, a, a + Clip(a, 12)) && NoneHit(live'', a, a + 8)
  {
    hide Clip;
    if Dropped(live'', live', a + 4, a + 4 + Clip(a + 4, 8)) {
      forall t | t in live && !Hits(live[t], a, a + Clip(a, 12)) ensures t in live'' {}
    }
  }

  lemma TwoWrites(ram: seq<bv8>, a: nat, data: seq<bv8>)
    requires |data| == 8 && a + 8 <= |ram|
    ensures Write(Write(ram, a, data[..4]), a + 4, data[4..]) == Write(ram, a, data)
  {
    var two, one := Write(Write(ram, a, data[..4]), a + 4, data[4..]), Write(ram, a, data);
    forall i | 0 <= i < |ram| ensures two[i] == one[i] {}
  }

  /** stl_phys and stw_phys: a store by the machine itself, not through a TLB */
  method PhysMemWrite(k: Links, dirty: seq<bv8>, ram: seq<bv8>, a: nat, data: seq<bv8>, ghost x: Index, cpus: nat, ghost tlb: TlbTable)
    returns (ok: bool, k': Links, dirty': seq<bv8>, ram': seq<bv8>, ghost x': Index)
    requires Linked(k, x, cpus, |dirty|, {}) && Wf(ViewOf(k, x, dirty, tlb, ram))
    requires OnePage(ViewOf(k, x, dirty, tlb, ram), a, |data|)
    ensures ok <==> dirty[a / PAGE_SIZE] == 0xff || !AnyTwice(x.live, a, a + |data|)
    ensures a + |data| <= |ram| && ram' == Write(ram, a, data)
    ensures ok ==> ViewOf(k', x', dirty', tlb, ram') == PhysStore(ViewOf(k, x, dirty, tlb, ram), a, data)
    ensures ok ==> Linked(k', x', cpus, |dirty|, {}) && k'.tbs == k.tbs && |dirty'| == |dirty| && Fewer(k'.cache, k.cache)
  {
    hide Linked, Wf, SmcMachine.InvalidateRange, Write, Fewer, AnyTwice;
    FewerSame(k.cache);
    var p := a / PAGE_SIZE;
    InRam(ViewOf(k, x, dirty, tlb, ram), a, |data|);
    ok, k', dirty', x' := true, k, dirty, x;
    ram' := Write(ram, a, data);
    if dirty[p] != 0xff {
      ok, k', dirty', x' := InvalidatePhysPageRange(k, dirty, a, |data|, false, x, cpus, tlb, ram');
      if !ok {
        return;
      }
      dirty' := dirty'[p := dirty'[p] | 0xfd];
    }
  }

  /** Where the code bit is set there is no TB, so none to be hit twice. */
  lemma DirtyNeverTwice(m: Machine, a: nat, len: nat)
    requires Inv(m) && OnePage(m, a, len)
    ensures m.dirty[a / PAGE_SIZE] & CODE_DIRTY_FLAG != 0 ==> !AnyTwice(m.live, a, a + len)
    ensures m.dirty[a / PAGE_SIZE] == 0xff ==> !AnyTwice(m.live, a, a + len)
  {
    hide AnyTwice, Hits;
    DirtyBits(m.dirty[a / PAGE_SIZE]);
    if m.dirty[a / PAGE_SIZE] & CODE_DIRTY_FLAG != 0 {
      DirtyHasNoCode(m, a / PAGE_SIZE);
      CodelessPage(m, a, len);
      NeverTwice(m.live, a, a + len);
    }
  }

  // ---- What the steps leave alone ----

  /** Some TBs and jumps are gone, the others are the same. */
  ghost predicate Shrunk(m': Machine, m: Machine) {
    Submap(m'.live, m.live) && Submap(m'.jumps, m.jumps)
  }

  /** A jump that is chained skips the search, so it only leads to TBs on one page (cpu-exec.c: fetch_and_run_tb). */
  ghost predicate JumpsFit(m: Machine) {
    forall l | l in m.jumps && m.jumps[l] in m.live :: m.live[m.jumps[l]].page1.None?
  }

  lemma StillFits(m': Machine, m: Machine, cache': map<CacheSlot, Option<TbId>>, cache: map<CacheSlot, Option<TbId>>, maps: Mapping)
    requires CacheFits(m.live, cache, maps, false) && JumpsFit(m) && Shrunk(m', m) && Fewer(cache', cache)
    ensures CacheFits(m'.live, cache', maps, false) && JumpsFit(m')
  {
    hide Placed;
    forall c | c in cache' && cache'[c].Some? && cache'[c].value in m'.live
      ensures Placed(m'.live[cache'[c].value], c.cpu, maps, false)
    {
      assert cache'[c] == cache[c];
    }
  }

  lemma StoreShrinks(m: Machine, s: Slot, a: nat, data: seq<bv8>)
    requires Wf(m) && OnePage(m, a, |data|)
    ensures s in m.tlb && m.tlb[s].write.At? ==>
              var r := NotdirtyStore(m, s, a, data); Shrunk(r, m) && r.tlb.Keys == m.tlb.Keys && |r.dirty| == |m.dirty|
    ensures var r := PhysStore(m, a, data); Shrunk(r, m) && r.tlb == m.tlb && |r.dirty| == |m.dirty|
    ensures var r := SmcMachine.InvalidateRange(m, a, a + |data|, false); Shrunk(r, m) && r.tlb == m.tlb && |r.dirty| == |m.dirty|
  {
    hide Hits, HasCode, SetDirty1;
  }

  lemma TestedStore(m: Machine, s: Slot, a: nat, data: seq<bv8>)
    requires Inv(m) && OnePage(m, a, |data|) && s in m.tlb && m.tlb[s].ram == Some(a / PAGE_SIZE) && m.tlb[s].write.At?
    ensures Wf(m) && a + |data| <= |m.ram|
    ensures var r := NotdirtyStore(m, s, a, data);
      Inv(r) && Shrunk(r, m) && r.tlb.Keys == m.tlb.Keys && |r.dirty| == |m.dirty| && StoredTested(r, m, s, a, data)
  {
    hide Inv, Wf, Shrunk, NotdirtyStore, StoredTested, PhysStore, SmcMachine.InvalidateRange;
    Enough(m);
    InRam(m, a, |data|);
    NotdirtyStoreKeeps(m, s, a, data);
    NotdirtyEffect(m, s, a, data);
    StoreShrinks(m, s, a, data);
  }

  lemma KeepIs(m: Machine, t: TbId, live: map<TbId, Tb>, chained: map<Link, TbId>)
    requires WfJumps(m.live, m.jumps) && live == m.live - {t} && Submap(chained, m.jumps)
    requires forall l :: l in chained <==> l in m.jumps && l.tb != t && m.jumps[l] != t
    ensures Keep(m, m.live.Keys - {t}) == m.(live := live, jumps := chained) && Shrunk(m.(live := live, jumps := chained), m)
  {
    var r := Keep(m, m.live.Keys - {t});
    assert r.live == live;
    assert r.jumps == chained;
  }

  lemma SameDomain(tlb: TlbTable, tlb': TlbTable, cpus: nat, modes: nat)
    requires TlbDomain(tlb, cpus, modes) && tlb'.Keys == tlb.Keys
    ensures TlbDomain(tlb', cpus, modes)
  {
    forall s ensures s in tlb' <==> s in tlb { assert s in tlb'.Keys <==> s in tlb.Keys; }
  }

  lemma Enough(m: Machine)
    requires Inv(m)
    ensures Wf(m) && |m.ram| == PAGE_SIZE * |m.dirty|
  {
  }

  lemma StillFitsSame(m: Machine, m': Machine, cache: map<CacheSlot, Option<TbId>>, maps: Mapping)
    requires CacheFits(m.live, cache, maps, false) && JumpsFit(m) && m'.live == m.live && m'.jumps == m.jumps
    ensures CacheFits(m'.live, cache, maps, false) && JumpsFit(m')
  {
  }

  /** Translating keeps the invariant, after a flush if there is one. */
  lemma TranslateKeeps(m: Machine, full: bool, t: TbId, tb: Tb, k: Links, x: Index, cpus: nat)
    requires Inv(m) && Linked(k, x, cpus, |m.dirty|, {}) && x.live == m.live && x.chained == m.jumps && JumpsFit(m)
    requires t !in k.tbs && WfTb(tb, |m.dirty|) && |m.ram| / PAGE_SIZE == |m.dirty| && Matches(tb, m.ram)
    ensures var r := LinkTb(AfterFlush(m, full), t, tb); Inv(r) && JumpsFit(r) && |r.dirty| == |m.dirty| && r.ram == m.ram
  {
    hide WfTb, Matches, PagesOk, JumpsOk, BitmapsOk, CacheOk, HashOk, Inv, LinkTb, Wf;
    LinkedPages(k, x, cpus, |m.dirty|, {});
    Enough(m);
    StepKeeps(m, SmcMachine.FlushTbs);
    Enough(AfterFlush(m, full));
    StepKeeps(AfterFlush(m, full), Translate(t, tb));
    LinkFits(AfterFlush(m, full), t, tb);
  }

  lemma LinkFits(m: Machine, t: TbId, tb: Tb)
    requires WfTb(tb, |m.dirty|) && t !in m.live && JumpsFit(m) && WfJumps(m.live, m.jumps)
    ensures var r := LinkTb(m, t, tb); JumpsFit(r) && |r.dirty| == |m.dirty| && r.ram == m.ram
  {
  }

  lemma DropDomain(tlb: TlbTable, slots: set<Slot>, cpus: nat, modes: nat)
    requires TlbDomain(tlb, cpus, modes)
    ensures TlbDomain(DropSlots(tlb, slots), cpus, modes)
  {
  }

  lemma NoneLeft(m: Machine, cpu: nat, page: VPage)
    requires Inv(m)
    ensures NoEntryFor(DropSlots(m.tlb, SlotsAt(m.tlb, cpu, page)), cpu, page)
    ensures NoEntryFor(DropSlots(m.tlb, SlotsOf(m.tlb, cpu)), cpu, page)
    ensures RowFlushed(DropSlots(m.tlb, SlotsAt(m.tlb, cpu, page)), m.tlb, cpu, page)
  {
    RowEmpty(m.tlb, |m.dirty|, cpu, page);
  }

  lemma NoLargePages()
    ensures Covered(NoRegion, {})
  {
  }

  lemma SameJumps(m: Machine, m': Machine)
    requires JumpsFit(m) && m'.live == m.live && m'.jumps == m.jumps
    ensures JumpsFit(m')
  {
  }

  lemma WidenChange(maps: Mapping, maps': Mapping, cpu: nat, page: VPage)
    ensures SameButPage(maps, maps', cpu, page) ==> SameButCpu(maps, maps', cpu)
  {
  }

  /** Flushing one page is enough outside the region: no large page holds the address. */
  lemma NotInLarge(r: Region, large: set<LargePage>, a: VAddr)
    requires Covered(r, large) && !InRegion(r, a)
    ensures forall lp | lp in large :: !InLargePage(lp, a)
  {
  }

  /** No page of a large page that holds the address has an entry. */
  ghost predicate NoLargeLeft(large: set<LargePage>, addr: VAddr, tlb: TlbTable, cpu: nat) {
    forall lp, b: VAddr | lp in large && InLargePage(lp, addr) && InLargePage(lp, b) :: NoEntryFor(tlb, cpu, PageOf(b))
  }

  lemma AllGone(m: Machine, large: set<LargePage>, addr: VAddr, cpu: nat)
    requires Inv(m)
    ensures NoLargeLeft(large, addr, DropSlots(m.tlb, SlotsOf(m.tlb, cpu)), cpu)
  {
    hide Inv, DropSlots, SlotsOf, NoEntryFor;
    forall b: VAddr ensures NoEntryFor(DropSlots(m.tlb, SlotsOf(m.tlb, cpu)), cpu, PageOf(b)) { NoneLeft(m, cpu, PageOf(b)); }
  }

  lemma NoneHolds(large: set<LargePage>, addr: VAddr, cpu: nat)
    requires forall lp | lp in large :: !InLargePage(lp, addr)
    ensures forall tlb: TlbTable :: NoLargeLeft(large, addr, tlb, cpu)
  {
  }

  lemma LinkedCache(k: Links, x: Index, cpus: nat, pages: nat)
    requires Linked(k, x, cpus, pages, {})
    ensures CacheOk(x.live, cpus, k.cache)
  {
    hide HashOk, PagesOk, JumpsOk, CacheOk, BitmapsOk;
  }

  /** What the translator makes of the code at the key's pc. */
  ghost predicate Translated(tb: Tb, m: Machine, key: Key, size: nat, page1: nat) {
    && |m.ram| % PAGE_SIZE == 0 && 1 <= size <= PAGE_SIZE
    && key.page0 < |m.ram| / PAGE_SIZE && (PageOff(key.pc) + size > PAGE_SIZE ==> page1 < |m.ram| / PAGE_SIZE)
    && tb == NewTb(key, size, page1, m.ram) && WfTb(tb, |m.dirty|)
  }

  /** Nothing changes if a live TB agrees with the key; else the new TB `t` does. */
  ghost predicate FetchStep(m: Machine, m': Machine, key: Key, size: nat, page1: nat, full: bool, t: TbId) {
    if exists u | u in m.live :: Matching(m.live[u], key) then m' == m
    else exists tb | Translated(tb, m, key, size, page1) :: m' == LinkTb(AfterFlush(m, full), t, tb)
  }

  ghost predicate NoMatch(live: map<TbId, Tb>, key: Key) {
    forall u | u in live :: !Matching(live[u], key)
  }

  /** TB `t` is live, agrees with the key, and was translated from the bytes that RAM holds. */
  ghost predicate RunsAt(m: Machine, t: TbId, key: Key) {
    t in m.live && Matching(m.live[t], key) && WfTb(m.live[t], |m.ram| / PAGE_SIZE) && Matches(m.live[t], m.ram)
  }

  /** TB `r` is the code that the CPU maps if and only if its second page is where the CPU maps it. */
  ghost predicate CodeIfPlaced(m: Machine, r: TbId, cpu: nat, maps: Mapping) {
    && r in m.live && WfTb(m.live[r], |m.dirty|)
    && (AlwaysGuestCode(m.live[r], |m.dirty|, cpu, maps) <==> Placed(m.live[r], cpu, maps, true))
  }

  /** What is known of the TB that was fetched, which is on the page that its pc leads to. */
  lemma Fetched(m: Machine, m': Machine, key: Key, size: nat, page1: nat, full: bool, t: TbId, tb: Tb, r: TbId, cpu: nat, maps: Mapping)
    requires Translated(tb, m, key, size, page1) && Inv(m') && |m'.dirty| == |m.dirty|
    requires m' == if exists u | u in m.live :: Matching(m.live[u], key) then m else LinkTb(AfterFlush(m, full), t, tb)
    requires r in m'.live && Matching(m'.live[r], key)
    requires MapsTo(maps, cpu, PageOf(key.pc), key.page0)
    requires PageOff(key.pc) + size > PAGE_SIZE ==> MapsTo(maps, cpu, NextPage(PageOf(key.pc)), page1)
    ensures FetchStep(m, m', key, size, page1, full, t) && RunsAt(m', r, key) && CodeIfPlaced(m', r, cpu, maps)
    ensures NoMatch(m.live, key) ==> Placed(m'.live[r], cpu, maps, true)
    ensures var tb := m'.live[r]; tb.pc == key.pc && tb.page0 == key.page0 && tb.csBase == key.csBase && tb.flags == key.flags && (key.llvm ==> tb.llvm)
    ensures forall u | u in m.live && var tb := m.live[u]; tb.pc == key.pc && tb.page0 == key.page0 && tb.csBase == key.csBase && tb.flags == key.flags && (key.llvm ==> tb.llvm) :: m' == m
    ensures r !in m.live ==> r == t && m'.live[r].size == size
  {
    hide AlwaysGuestCode, LinkTb, WfTb, Matches;
    assert Wf(m') && |m'.ram| / PAGE_SIZE == |m'.dirty|;
    GuestCodeExact(m'.live[r], |m'.dirty|, cpu, maps);
    if NoMatch(m.live, key) {
      Linking(AfterFlush(m, full), t, tb);
    }
  }

  // ---- The empty cache ----

  /** A table of `n` equal elements. */
  function Table<V>(n: nat, v: V): (m: map<nat, V>)
    ensures forall i :: i in m <==> 0 <= i < n
    ensures forall i | i in m :: m[i] == v
  {
    if n == 0 then map[] else Table(n - 1, v)[n - 1 := v]
  }

  function NoLinks(cpus: nat): Links {
    Links(map[], ListTable(Table(CODE_GEN_PHYS_HASH_SIZE, None), map[]),
          PageDescs(ListTable(map[], map[]), map[], map[]), JumpState(ListTable(map[], map[]), map[], map[]),
          map cpu, h | 0 <= cpu < cpus && 0 <= h < TB_JMP_CACHE_SIZE :: CacheSlot(cpu, h) := None)
  }

  function NoIndex(): Index {
    Index(map[], map[], Table(CODE_GEN_PHYS_HASH_SIZE, []), map[], map[], map[], map[])
  }

  function NoEntries(cpus: nat, modes: nat): TlbTable {
    map cpu, mode, i | 0 <= cpu < cpus && 0 <= mode < modes && 0 <= i < CPU_TLB_SIZE :: Slot(cpu, mode, i) := EMPTY_ENTRY
  }

  lemma EmptyLinked(cpus: nat, modes: nat, pages: nat)
    ensures Linked(NoLinks(cpus), NoIndex(), cpus, pages, {}) && TlbDomain(NoEntries(cpus, modes), cpus, modes)
  {
    hide Table, JumpsOk;
    NoJumps(NoLinks(cpus).jumps);
  }

  lemma NothingYet(cpus: nat, modes: nat)
    ensures NoLinks(cpus).tbs == map[]
    ensures forall s | s in NoEntries(cpus, modes) :: NoEntries(cpus, modes)[s] == EMPTY_ENTRY
  {
  }

  ghost predicate IdsBelow(tbs: map<TbId, Tb>, next: TbId) {
    forall t | t in tbs :: t < next
  }

  ghost predicate AllCovered(regions: map<nat, Region>, large: map<nat, set<LargePage>>, cpus: nat) {
    forall cpu | 0 <= cpu < cpus :: cpu in regions && cpu in large && Covered(regions[cpu], large[cpu])
  }

  lemma CoveredAt(regions: map<nat, Region>, large: map<nat, set<LargePage>>, cpus: nat, cpu: nat, r: Region, s: set<LargePage>)
    requires AllCovered(regions, large, cpus) && cpu < cpus
    ensures cpu in regions && cpu in large && Covered(regions[cpu], large[cpu])
    ensures Covered(r, s) ==> AllCovered(regions[cpu := r], large[cpu := s], cpus)
  {
    hide Covered;
  }

  lemma NoIds(next: TbId)
    ensures IdsBelow(map[], next)
  {
  }

  lemma NewId(tbs: map<TbId, Tb>, next: TbId, tb: Tb)
    requires IdsBelow(tbs, next)
    ensures next !in tbs && IdsBelow(tbs, next + 1) && IdsBelow(tbs[next := tb], next + 1) && IdsBelow(map[], next) && IdsBelow(map[next := tb], next + 1)
  {
  }

  class CodeCache {
    const cpus: nat
    const modes: nat
    var links: Links
    var dirty: seq<bv8>
    var tlb: TlbTable
    var ram: seq<bv8>
    /** tlb_flush_addr and tlb_flush_mask of each CPU */
    var regions: map<nat, Region>
    /** g_se_disable_tlb_flush */
    var flushDisabled: bool
    var nextId: TbId

    ghost var index: Index
    /** The guest's page tables, for code. */
    ghost var maps: Mapping
    /** The large pages entered into each CPU's TLB since its last full flush. */
    ghost var large: map<nat, set<LargePage>>

    ghost function View(): Machine
      reads this
    {
      ViewOf(links, index, dirty, tlb, ram)
    }

    ghost predicate Valid()
      reads this
    {
      && Linked(links, index, cpus, |dirty|, {}) && TlbDomain(tlb, cpus, modes) && Inv(View())
      && IdsBelow(links.tbs, nextId)
      && CacheFits(index.live, links.cache, maps, false) && JumpsFit(View())
      && AllCovered(regions, large, cpus)
    }

    constructor (cpus: nat, modes: nat, ram: seq<bv8>)
      requires |ram| % PAGE_SIZE == 0
      ensures Valid() && Init(View()) && this.ram == ram && |dirty| == |ram| / PAGE_SIZE
      ensures this.cpus == cpus && this.modes == modes && !flushDisabled && maps == map[]
    {
      hide Linked, TlbDomain, NoLinks, NoEntries;
      this.cpus, this.modes, this.ram := cpus, modes, ram;
      dirty := seq(|ram| / PAGE_SIZE, _ => 0xff);
      links, index, tlb, nextId := NoLinks(cpus), NoIndex(), NoEntries(cpus, modes), 0;
      regions, large := Table(cpus, NoRegion), Table(cpus, {});
      flushDisabled, maps := false, map[];
      new;
      EmptyLinked(cpus, modes, |dirty|);
      NothingYet(cpus, modes);
      InitKeeps(View());
    }

    // ---- Stores ----

    /** The inline store of translated code, taken when no flag but the trace flag is set. */
    method StoreFast(s: Slot, a: nat, data: seq<bv8>)
      requires Valid()
      requires OnePage(View(), a, |data|) && s in tlb && tlb[s].ram == Some(a / PAGE_SIZE) && tlb[s].write.At?
      requires tlb[s].write.flags.(trace := false) == Flags(false, false, false, false, false)
      modifies `ram
      ensures Valid() && a + |data| <= |old(ram)| && View() == old(View()).(ram := Write(old(ram), a, data))
    {
      hide Linked, TlbDomain, Inv, CacheFits, IdsBelow, AllCovered, Wf, JumpsFit, Write;
      ghost var m := View();
      Enough(m);
      InRam(m, a, |data|);
      StepKeeps(m, FastStore(s, a, data));
      ram := Write(ram, a, data);
      StillFitsSame(m, View(), links.cache, maps);
    }

    /** notdirty_mem_write. `ok` is false where invalidation fails, as for all methods below. */
    method StoreNotdirty(s: Slot, a: nat, data: seq<bv8>) returns (ok: bool)
      requires Valid()
      requires OnePage(View(), a, |data|) && s in tlb && tlb[s].ram == Some(a / PAGE_SIZE) && tlb[s].write.At?
      requires |data| in {1, 2, 4} && a % |data| == 0
      modifies `links, `dirty, `tlb, `ram, `index
      ensures ok <==> !AnyTwice(old(index).live, a, a + |data|)
      ensures Wf(old(View()))
      ensures ok ==> Valid() && View() == NotdirtyStore(old(View()), s, a, data)
      ensures a + |data| <= |old(ram)| && (ok ==> ram == Write(old(ram), a, data) && StoredTested(View(), old(View()), s, a, data))
    {
      hide StoredTested, Write, Linked, TlbDomain, Inv, CacheFits, IdsBelow, AllCovered, Fewer, NotdirtyStore, Wf, OnePage, Shrunk, JumpsFit, AnyTwice;
      ghost var m, cache := View(), links.cache;
      DirtyNeverTwice(m, a, |data|);
      TestedStore(m, s, a, data);
      ok, links, dirty, tlb, ram, index := NotdirtyMemWrite(links, dirty, tlb, ram, s, a, data, index, cpus, modes);
      if ok {
        SameDomain(m.tlb, tlb, cpus, modes);
        StillFits(View(), m, links.cache, cache, maps);
      }
    }

    /** se_notdirty_mem_write, before the caller stores: no TB is left that the bytes of the fast test hit. It fails only if
        the range hits both parts of a TB, and where the fast test sees the whole range, it fails if it does. */
    method PrepareStore(s: Slot, a: nat, size: nat) returns (ok: bool)
      requires Valid() && s in tlb && tlb[s].ram == Some(a / PAGE_SIZE) && tlb[s].write.At? && a / PAGE_SIZE < |dirty| && 0 < size <= 8
      modifies `links, `dirty, `tlb, `index
      ensures !AnyTwice(old(index).live, a, a + Clip(a, size)) ==> ok
      ensures Tested(a, size) == size && AnyTwice(old(index).live, a, a + size) ==> !ok
      ensures ok ==> Valid() && |dirty| == |old(dirty)| && s in tlb && tlb[s].ram == old(tlb)[s].ram && tlb[s].write.At?
      ensures ok ==> NoneHit(index.live, a, a + Tested(a, size)) && Dropped(index.live, old(index).live, a, a + Clip(a, size))
      ensures ok ==> View() == Prepared(old(View()), s, a, size, !NoScan(old(links), old(View()), s, a, size))
    {
      hide Linked, TlbDomain, Inv, CacheFits, IdsBelow, AllCovered, Fewer, Wf, Shrunk, JumpsFit, AnyTwice, Prepared, NoScan, Tested, Clip, NoneHit, Dropped;
      ghost var m, cache, k, scanned := View(), links.cache, links, false;
      ok, links, dirty, tlb, index, scanned := SeNotdirtyMemWrite(links, dirty, tlb, s, a, size, index, cpus, modes, ram);
      PreparedKeeps(k, m, s, a, size, scanned);
      TwiceScanned(k, m, s, a, size);
      if ok {
        SameDomain(m.tlb, tlb, cpus, modes);
        StillFits(View(), m, links.cache, cache, maps);
      }
    }

    /** A store to bytes that are no code. */
    method StoreRaw(a: nat, data: seq<bv8>)
      requires Valid() && OnePage(View(), a, |data|) && NoneHit(index.live, a, a + |data|)
      modifies `ram
      ensures Valid() && a + |data| <= |old(ram)| && ram == Write(old(ram), a, data)
    {
      hide Linked, TlbDomain, Inv, CacheFits, IdsBelow, AllCovered, Wf, JumpsFit, Write;
      ghost var m := View();
      Enough(m);
      InRam(m, a, |data|);
      WriteKeeps(m, a, data);
      ram := Write(ram, a, data);
      StillFitsSame(m, View(), links.cache, maps);
    }

    /** The 8 byte store of code that was translated for symbolic execution: each half is stored after a test for 8 bytes.
        The second test looks at 4 bytes of code or at 12 bytes from `a` on, so it may miss code behind the store or drop TBs
        there, but the first one has already dropped those that the store hits. */
    method StoreEight(s: Slot, a: nat, data: seq<bv8>) returns (ok: bool)
      requires Valid() && |data| == 8 && a % 8 == 0 && OnePage(View(), a, 8)
      requires s in tlb && tlb[s].ram == Some(a / PAGE_SIZE) && tlb[s].write.At?
      modifies `links, `dirty, `tlb, `ram, `index
      ensures !AnyTwice(old(index).live, a, a + Clip(a, 12)) ==> ok
      ensures AnyTwice(old(index).live, a, a + 8) ==> !ok
      ensures a + 8 <= |old(ram)|
      ensures ok ==> Valid() && ram == Write(old(ram), a, data)
      ensures ok ==> NoneHit(index.live, a, a + 8) && Dropped(index.live, old(index).live, a, a + Clip(a, 12))
    {
      hide Linked, TlbDomain, Inv, CacheFits, IdsBelow, AllCovered, Wf, JumpsFit, Write, AnyTwice, NoneHit, Dropped, Tested, Clip, Prepared, NoScan;
      ghost var m := View();
      Enough(m);
      InRam(m, a, 8);
      Halves(a);
      ok := PrepareStore(s, a, 8);
      MoreTwice(m.live, m.live, a, 8, a, Clip(a, 12));
      if !ok {
        return;
      }
      ghost var live := index.live;
      HitsIn(live, a, 8, a, 4);
      StoreRaw(a, data[..4]);
      ok := PrepareStore(s, a + 4, 8);
      DroppedTwice(index.live, live, m.live, a);
      MoreTwice(live, m.live, a + 4, Clip(a + 4, 8), a, Clip(a, 12));
      if !ok {
        return;
      }
      HitsIn(index.live, a, 8, a + 4, 4);
      StoreRaw(a + 4, data[4..]);
      TwoWrites(m.ram, a, data);
    }

    /** stl_phys, stw_phys */
    method StorePhysical(a: nat, data: seq<bv8>) returns (ok: bool)
      requires Valid() && OnePage(View(), a, |data|)
      modifies `links, `dirty, `ram, `index
      ensures ok <==> !AnyTwice(old(index).live, a, a + |data|)
      ensures Wf(old(View()))
      ensures ok ==> Valid() && View() == PhysStore(old(View()), a, data)
      ensures a + |data| <= |old(ram)| && ram == Write(old(ram), a, data)
      ensures ok ==> GoneExactly(View(), old(View()), a, a + |data|)
      ensures ok ==> var p := a / PAGE_SIZE; dirty == old(dirty)[p := old(dirty)[p] | 0xfd]
    {
      hide GoneExactly, Write, Linked, TlbDomain, Inv, CacheFits, IdsBelow, AllCovered, Fewer, PhysStore, Wf, OnePage, Shrunk, JumpsFit, AnyTwice;
      ghost var m, cache := View(), links.cache;
      Enough(m);
      DirtyNeverTwice(m, a, |data|);
      StepKeeps(m, StorePhys(a, data));
      PhysEffect(m, a, data);
      StoreShrinks(m, Slot(0, 0, 0), a, data);
      ok, links, dirty, ram, index := PhysMemWrite(links, dirty, ram, a, data, index, cpus, tlb);
      if ok {
        StillFits(View(), m, links.cache, cache, maps);
      }
    }

    // ---- Translation blocks ----

    /** tb_invalidate_phys_page_range, as called when the guest's RAM changes from outside */
    method Invalidate(a: nat, len: nat) returns (ok: bool)
      requires Valid() && OnePage(View(), a, len)
      modifies `links, `dirty, `index
      ensures ok <==> !AnyTwice(old(index).live, a, a + len)
      ensures ok ==> Valid() && View() == SmcMachine.InvalidateRange(old(View()), a, a + len, false)
      ensures ok ==> GoneExactly(View(), old(View()), a, a + len) && dirty == old(dirty)
    {
      hide GoneExactly, HasCode, Linked, TlbDomain, Inv, CacheFits, IdsBelow, AllCovered, Fewer, Wf, Shrunk, JumpsFit, SmcMachine.InvalidateRange, AnyTwice;
      ghost var m, cache := View(), links.cache;
      Enough(m);
      StepKeeps(m, InvalidateBytes(a, len));
      InvalidateEffect(m, a, a + len, false);
      StoreShrinks(m, Slot(0, 0, 0), a, seq(len, _ => 0));
      ok, links, dirty, index := InvalidatePhysPageRange(links, dirty, a, len, false, index, cpus, tlb, ram);
      if ok {
        StillFits(View(), m, links.cache, cache, maps);
      }
    }

    /** tb_phys_invalidate(tb, -1) */
    method InvalidateBlock(t: TbId) returns (ok: bool)
      requires Valid() && t in links.tbs
      modifies `links, `index
      ensures ok <==> t in old(index).live
      ensures ok ==> Valid() && View() == Keep(old(View()), old(index).live.Keys - {t})
      ensures ok ==> index.live == old(index).live - {t} && Submap(index.chained, old(index).chained)
      ensures ok ==> forall l :: l in index.chained <==> l in old(index).chained && l.tb != t && old(index).chained[l] != t
    {
      hide Linked, TlbDomain, Inv, CacheFits, IdsBelow, AllCovered, Fewer, Wf, Shrunk, JumpsFit, Keep, Spared, SameNext, Submap;
      ghost var m, cache := View(), links.cache;
      Enough(m);
      LinkedPages(links, index, cpus, |dirty|, {});
      ok, links, index := PhysInvalidate(links, t, index, cpus, |dirty|, {});
      if ok {
        StepKeeps(m, InvalidateTb(t));
        KeepIs(m, t, index.live, index.chained);
        StillFits(View(), m, links.cache, cache, maps);
      }
    }

    /** tb_flush */
    method Flush()
      requires Valid()
      modifies `links, `index
      ensures Valid() && View() == old(View()).(live := map[], jumps := map[])
    {
      hide Linked, TlbDomain, Inv, IdsBelow, AllCovered, Wf;
      ghost var m := View();
      Enough(m);
      StepKeeps(m, FlushTbs);
      NoIds(nextId);
      links, index := FlushAll(links, index, cpus, |dirty|);
    }

    /** tb_find_fast, with tb_find_slow and tb_gen_code behind it. `page1` is where the page after pc's
        page leads, `size` is how far the translator got, `full` tells that the code buffer is full.
        The TB to run agrees with the key and with the code that RAM holds now. It is the code that the CPU maps
        if and only if its second page is mapped where it was when the TB was made. */
    method Fetch(cpu: nat, key: Key, page1: nat, size: nat, full: bool) returns (r: TbId)
      requires Valid() && cpu < cpus && 1 <= size <= PAGE_SIZE
      requires MapsTo(maps, cpu, PageOf(key.pc), key.page0) && key.page0 < |dirty|
      requires PageOff(key.pc) + size > PAGE_SIZE ==> MapsTo(maps, cpu, NextPage(PageOf(key.pc)), page1) && page1 < |dirty|
      modifies `links, `dirty, `tlb, `index, `nextId
      ensures Valid() && RunsAt(View(), r, key) && |dirty| == |old(dirty)|
      ensures CodeIfPlaced(View(), r, cpu, maps)
      ensures NoMatch(old(View()).live, key) ==> Placed(View().live[r], cpu, maps, true)
      ensures FetchStep(old(View()), View(), key, size, page1, full, old(nextId))
      ensures var tb := View().live[r]; tb.pc == key.pc && tb.page0 == key.page0 && tb.csBase == key.csBase && tb.flags == key.flags && (key.llvm ==> tb.llvm)
      ensures forall u | u in old(index).live && var tb := old(index).live[u]; tb.pc == key.pc && tb.page0 == key.page0 && tb.csBase == key.csBase && tb.flags == key.flags && (key.llvm ==> tb.llvm) ::
                r in old(index).live && View() == old(View())
      ensures r !in old(index).live ==> r == old(nextId) && View().live[r].size == size
    {
      hide Linked, TlbDomain, Inv, CacheFits, IdsBelow, AllCovered, Wf, LinkTb, JumpsFit, WfTb, Matches, FetchStep, CodeIfPlaced, NoMatch, Placed, RunsAt, Matching, MapsTo, AfterFlush, HashFunc, HashPage;
      ghost var m := View();
      Enough(m);
      var tb := NewTb(key, size, page1, ram);
      assert Translated(tb, m, key, size, page1);
      NewId(links.tbs, nextId, tb);
      assert map[][nextId := tb] == map[nextId := tb];
      TranslateKeeps(m, full, nextId, tb, links, index, cpus);
      r, links, dirty, tlb, index := FindFast(links, dirty, tlb, cpu, key, nextId, tb, full, index, cpus, modes, ram, maps);
      Fetched(m, View(), key, size, page1, full, nextId, tb, r, cpu, maps);
      nextId := nextId + 1;
    }

    /** The end of fetch_and_run_tb: the previous TB's jump is chained to a TB on one page. */
    method ChainTo(l: Link, dest: TbId)
      requires Valid() && l.n < 2 && l.tb in links.tbs && dest in index.live
      modifies `links, `index
      ensures Valid()
      ensures View() == if old(l.tb in index.live && l !in index.chained && index.live[dest].page1.None?)
                        then old(View()).(jumps := old(index.chained)[l := dest]) else old(View())
    {
      hide Linked, TlbDomain, Inv, CacheFits, IdsBelow, AllCovered, Wf, WfTb;
      ghost var m := View();
      Enough(m);
      LinkedPages(links, index, cpus, |dirty|, {});
      if links.tbs[dest].page1.None? {
        ghost var x := index;
        links, index := AddJump(links, l, dest, index, cpus, |dirty|);
        if l.tb in x.live && l !in x.chained {
          StepKeeps(m, ChainJump(l, dest));
        }
      }
    }

    // ---- The TLB ----

    /** tlb_set_page, for a page of 2^k bytes */
    method SetPage(cpu: nat, mode: nat, vaddr: VAddr, k: nat, target: Option<nat>, prot: Prot,
                   watched: bool, symbolicMmio: bool, traced: bool)
      requires Valid() && cpu < cpus && mode < modes && 12 <= k <= 64
      requires MayFill(View(), Slot(cpu, mode, IndexOf(PageOf(vaddr))), PageOf(vaddr), target)
      requires FillAgrees(tlb, Slot(cpu, mode, IndexOf(PageOf(vaddr))), PageOf(vaddr), target)
      modifies `tlb, `regions, `large
      ensures Valid()
      ensures var s := Slot(cpu, mode, IndexOf(PageOf(vaddr)));
              var isDirty := target.Some? && dirty[target.value] == 0xff;
              View() == old(View()).(tlb := old(tlb)[s := Fill(PageOf(vaddr), target, prot, watched, isDirty, symbolicMmio, traced)])
      ensures var e := tlb[Slot(cpu, mode, IndexOf(PageOf(vaddr)))];
              Admits(e, PageOf(vaddr), target, prot, watched, target.Some? && dirty[target.value] == 0xff, symbolicMmio, traced)
      ensures cpu in old(large) && cpu in old(regions) && regions == old(regions)[cpu := regions[cpu]]
      ensures if k == 12 then regions == old(regions) else Widened(regions[cpu], old(regions)[cpu], LargePage(vaddr, k))
      ensures large == if k == 12 then old(large) else old(large)[cpu := old(large)[cpu] + {LargePage(vaddr, k)}]
    {
      hide Linked, TlbDomain, Inv, CacheFits, IdsBelow, AllCovered, Wf, JumpsFit, Fill, Admits;
      ghost var m := View();
      Enough(m);
      StepKeeps(m, TlbFill(Slot(cpu, mode, IndexOf(PageOf(vaddr))), PageOf(vaddr), target, prot, watched, symbolicMmio, traced));
      CoveredAt(regions, large, cpus, cpu, NoRegion, {});
      var region := NoteSize(regions[cpu], vaddr, k, large[cpu]);
      ghost var pages := if k == 12 then large[cpu] else large[cpu] + {LargePage(vaddr, k)};
      CoveredAt(regions, large, cpus, cpu, region, pages);
      assert large[cpu := large[cpu]] == large;
      regions, large := regions[cpu := region], large[cpu := pages];
      var s := Slot(cpu, mode, IndexOf(PageOf(vaddr)));
      var isDirty := target.Some? && dirty[target.value] == 0xff;
      tlb := tlb[s := Fill(PageOf(vaddr), target, prot, watched, isDirty, symbolicMmio, traced)];
      FillExact(PageOf(vaddr), target, prot, watched, isDirty, symbolicMmio, traced);
      SameDomain(m.tlb, tlb, cpus, modes);
      StillFitsSame(m, View(), links.cache, maps);
    }

    /** cpu_physical_memory_reset_dirty, for another flag than the code flag: stores to the pages are noticed again. */
    method ResetDirty(first: nat, count: nat, mask: bv8)
      requires Valid() && first + count <= |dirty| && mask & CODE_DIRTY_FLAG == 0
      modifies `dirty, `tlb
      ensures Valid() && View() == old(View()).(dirty := Masked(old(dirty), first, count, mask), tlb := ResetTlb(old(tlb), first, count))
      ensures forall s | s in tlb && IsDirtyRam(tlb[s]) && tlb[s].ram.Some? :: !(first <= tlb[s].ram.value < first + count)
      ensures forall pages: set<nat> | (forall p: nat :: p in pages <==> first <= p < first + count) :: MarksPages(tlb, old(tlb), pages)
    {
      hide Linked, TlbDomain, Inv, CacheFits, IdsBelow, AllCovered, Wf, JumpsFit, Masked;
      ghost var m := View();
      Enough(m);
      StepKeeps(m, ClearDirty(first, count, mask));
      dirty := MaskDirty(dirty, first, count, mask);
      tlb := ResetDirtyRange(tlb, cpus, modes, first, count);
      SameDomain(m.tlb, tlb, cpus, modes);
      SameJumps(m, View());
    }

    /** tlb_flush: unless flushing is disabled, the CPU's TLB and jump cache are empty afterwards, so
        that all of its page tables may have changed to `maps'`. */
    method FlushTlb(cpu: nat, ghost maps': Mapping)
      requires Valid() && cpu < cpus && SameButCpu(maps, maps', cpu)
      modifies `tlb, `links, `regions, `maps, `large
      ensures Valid()
      ensures if flushDisabled then View() == old(View()) && maps == old(maps)
              else View() == old(View()).(tlb := DropSlots(old(tlb), SlotsOf(old(tlb), cpu))) && maps == maps'
      ensures links == if flushDisabled then old(links) else old(links).(cache := ClearedOf(old(links).cache, cpu))
      ensures regions == if flushDisabled then old(regions) else old(regions)[cpu := NoRegion]
      ensures if flushDisabled then tlb == old(tlb) else CpuFlushed(tlb, old(tlb), cpu)
    {
      hide Linked, TlbDomain, Inv, CacheFits, IdsBelow, AllCovered, Wf, JumpsFit, DropSlots, SlotsOf, Fewer, ClearedOf, CpuFlushed;
      if flushDisabled {
        return;
      }
      ghost var m := View();
      Enough(m);
      StepKeeps(m, TlbDrop(SlotsOf(tlb, cpu)));
      tlb := EmptyTlb(tlb, cpu, cpus, modes);
      DropDomain(m.tlb, SlotsOf(m.tlb, cpu), cpus, modes);
      LinkedFewer(links, index, cpus, |dirty|, ClearedOf(links.cache, cpu));
      ClearedFits(index.live, links.cache, cpu, maps, maps', false);
      links := links.(cache := ClearedOf(links.cache, cpu));
      NoLargePages();
      CoveredAt(regions, large, cpus, cpu, NoRegion, {});
      regions, large, maps := regions[cpu := NoRegion], large[cpu := {}], maps';
      SameJumps(m, View());
    }

    /** tlb_flush_page: no entry translates the page of `addr` any more, nor any page of a large page that
        holds `addr`, and no cached TB reaches into it; so the page tables may have changed there to `maps'`.
        Only a disabled full flush stands in the way. */
    method FlushPage(cpu: nat, addr: VAddr, ghost maps': Mapping)
      requires Valid() && cpu < cpus
      requires SameButPage(maps, maps', cpu, PageOf(addr))
            || (SameButCpu(maps, maps', cpu) && exists lp :: cpu in large && lp in large[cpu] && InLargePage(lp, addr))
      modifies `tlb, `links, `regions, `maps, `large
      ensures Valid() && cpu in old(regions)
      ensures var wide := InRegion(old(regions)[cpu], addr);
              var slots := if wide then SlotsOf(old(tlb), cpu) else SlotsAt(old(tlb), cpu, PageOf(addr));
              if wide && flushDisabled then View() == old(View()) && maps == old(maps)
              else View() == old(View()).(tlb := DropSlots(old(tlb), slots)) && maps == maps' && NoEntryFor(tlb, cpu, PageOf(addr))
      ensures !flushDisabled && cpu in old(large) ==> NoLargeLeft(old(large)[cpu], addr, tlb, cpu)
      ensures !(InRegion(old(regions)[cpu], addr) && flushDisabled) ==> NoneReach(index.live, links.cache, cpu, PageOf(addr))
      ensures !InRegion(old(regions)[cpu], addr) ==> PageUncached(links.cache, old(links).cache, cpu, PageOf(addr))
      ensures Fewer(links.cache, old(links).cache) && links == old(links).(cache := links.cache)
      ensures if !InRegion(old(regions)[cpu], addr) then RowFlushed(tlb, old(tlb), cpu, PageOf(addr))
              else if flushDisabled then tlb == old(tlb) else CpuFlushed(tlb, old(tlb), cpu)
    {
      hide Linked, TlbDomain, Inv, CacheFits, IdsBelow, AllCovered, Wf, JumpsFit, DropSlots, SlotsOf, SlotsAt, NoEntryFor, Fewer, SameButCpu, SameButPage, Overlaps, InRegion, ClearedOf, NoneReach, NoLargeLeft, CpuFlushed, RowFlushed, PageUncached;
      var page := PageOf(addr);
      NoneLeft(View(), cpu, page);
      CoveredAt(regions, large, cpus, cpu, NoRegion, {});
      if InRegion(regions[cpu], addr) {
        WidenChange(maps, maps', cpu, page);
        AllGone(View(), large[cpu], addr, cpu);
        ClearedReach(index.live, links.cache, cpu, page);
        FlushTlb(cpu, maps');
        return;
      }
      NotInLarge(regions[cpu], large[cpu], addr);
      NoneHolds(large[cpu], addr, cpu);
      ghost var m := View();
      Enough(m);
      StepKeeps(m, TlbDrop(SlotsAt(tlb, cpu, page)));
      tlb := EmptyRow(tlb, cpu, page, cpus, modes);
      DropDomain(m.tlb, SlotsAt(m.tlb, cpu, page), cpus, modes);
      LinkedCache(links, index, cpus, |dirty|);
      var cache := FlushJmpCache(index.live, links.cache, cpu, page, cpus, maps, maps');
      LinkedFewer(links, index, cpus, |dirty|, cache);
      links := links.(cache := cache);
      maps := maps';
      SameJumps(m, View());
    }
  }
}

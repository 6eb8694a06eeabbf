/** Where the detection of self-modifying code stops (libcpu/src/softmmu_template.h, exec-tlb.h). */
module SmcLimits {
  import opened Wrappers
  import opened Tlb
  import opened SmcMachine

  // ---- The direct store of the I/O path ----

  /** io_write stores straight to RAM through an entry that is neither marked not-dirty nor not-ours. */
  predicate StoresDirectly(e: TlbEntry) {
    e.ram.Some? && e.section == RamSection && e.write.At? && !e.write.flags.notOurs && !e.write.flags.notdirty
  }

  /** Such a store is harmless, for every state that the entry can be in, every byte of its page and every value, if
      and only if the entry does not have the MMIO flag. */
  lemma DirectStoreExact(e: TlbEntry, index: nat, pages: nat)
    requires StoresDirectly(e) && WfEntry(e, index, pages)
    ensures (forall m, s, a, d | Inv(m) && HasEntry(m, s, e) && OnRamPage(m, a, e.ram.value) :: StaysCoherent(m, a, d)) <==>
            !e.write.flags.mmio
  {
    if e.write.flags.mmio {
      var m, s, a := Overwritable(e, index, pages);
      assert HasEntry(m, s, e) && OnRamPage(m, a, e.ram.value) && !StaysCoherent(m, a, 1);
    } else {
      forall m, s, a, d | Inv(m) && HasEntry(m, s, e) && OnRamPage(m, a, e.ram.value) ensures StaysCoherent(m, a, d) {
        DirectStoreKeeps(m, s, a, [d]);
      }
    }
  }

  ghost predicate HasEntry(m: Machine, s: Slot, e: TlbEntry) {
    s in m.tlb && m.tlb[s] == e
  }

  ghost predicate OnRamPage(m: Machine, a: nat, p: nat) {
    a < |m.ram| && a / PAGE_SIZE == p && OnePage(m, a, 1)
  }

  /** Every TB matches RAM after byte `d` is stored at `a`. */
  ghost predicate StaysCoherent(m: Machine, a: nat, d: bv8) {
    a < |m.ram| && Coherent(m.live, Write(m.ram, a, [d]))
  }

  /** A page that holds code and has an MMIO entry, which protecting the page skipped. */
  lemma Overwritable(e: TlbEntry, index: nat, pages: nat) returns (m: Machine, s: Slot, a: nat)
    requires StoresDirectly(e) && WfEntry(e, index, pages) && e.write.flags.mmio
    ensures Inv(m) && HasEntry(m, s, e) && OnRamPage(m, a, e.ram.value) && !StaysCoherent(m, a, 1)
  {
    var p := e.ram.value;
    var tb := Tb(0, 0, 0, false, 1, p, None, [0]);
    s, a := Slot(0, 0, index), p * PAGE_SIZE;
    m := Machine(map[0 := tb], map[], {p}, seq(pages, _ => 0xff)[p := 0xfd], map[s := e], seq(PAGE_SIZE * pages, _ => 0));
    assert SrcAddr(tb, 0) == a;
    assert Matches(tb, m.ram) && !Matches(tb, Write(m.ram, a, [1]));
    assert m.live[0] == tb;
  }

  /** A run that gets there: the entry of a dirty page that symbolic hardware watches keeps storing directly after
      the page gets code. */
  lemma DirectStoreUnsafe() returns (states: seq<Machine>, ops: seq<Op>, s: Slot)
    ensures IsRun(states, ops) && |states| == 3 && forall i | 0 <= i < 2 :: KeepsModes(states[i], ops[i])
    ensures var m := states[2];
              && Inv(m) && s in m.tlb && StoresDirectly(m.tlb[s]) && m.tlb[s].ram == Some(0) && !StaysCoherent(m, 0, 1)
  {
    hide CleanHaveDescs, CodePagesClean, CodePagesTested, ModesAgree, HasCode, WfJumps, Coherent;
    s := Slot(0, 0, 0);
    var m0 := Machine(map[], map[], {}, [0xff], map[s := EMPTY_ENTRY], seq(PAGE_SIZE, _ => 0));
    var fill := TlbFill(s, 0, Some(0), Prot(true, true, true), false, true, false);
    var tb := Tb(0, 0, 0, false, 1, 0, None, [0]);
    InitKeeps(m0);
    StepKeeps(m0, fill);
    var m1 := Apply(m0, fill);
    assert SrcAddr(tb, 0) == 0;
    assert Enabled(m1, Translate(0, tb));
    StepKeeps(m1, Translate(0, tb));
    var m2 := Apply(m1, Translate(0, tb));
    assert m2.tlb[s] == m1.tlb[s] by { assert ResetDirty(m1.tlb[s], 0, 1) == m1.tlb[s]; }
    states, ops := [m0, m1, m2], [fill, Translate(0, tb)];
    Overwrites(m2, 0, 0);
  }

  lemma Overwrites(m: Machine, t: TbId, a: nat)
    requires Wf(m) && t in m.live && a < |m.ram| && m.live[t].pc == 0 && m.live[t].page0 * PAGE_SIZE == a && m.live[t].src[0] == 0
    ensures !StaysCoherent(m, a, 1)
  {
    assert SrcAddr(m.live[t], 0) == a && Write(m.ram, a, [1])[a] == 1;
    assert WfTb(m.live[t], |m.ram| / PAGE_SIZE) && !Matches(m.live[t], Write(m.ram, a, [1]));
  }

  // ---- The modes of a CPU ----

  /** What tlb_set_dirty may do. It goes by virtual page alone, after a store left no code on RAM page `p`. Whatever
      code there is elsewhere, stores to it are still noticed if and only if each entry that loses its mark leads to
      `p`, or to a page that another entry exposes anyway. Modes that agree make sure of that. */
  lemma SetDirtyExact(tlb: TlbTable, pages: nat, cpu: nat, page: VPage, p: nat)
    requires WfTlb(tlb, pages)
    ensures (forall live | WfTbs(live, pages) && CodePagesTested(live, tlb) && !HasCode(live, p) ::
               CodePagesTested(live, SetDirty(tlb, cpu, page))) <==>
            forall s | s in tlb && Unmarks(tlb, s, cpu, page) && tlb[s].ram.Some? :: tlb[s].ram == Some(p) || Exposed(tlb, tlb[s].ram.value)
  {
    var tlb' := SetDirty(tlb, cpu, page);
    if s :| s in tlb && Unmarks(tlb, s, cpu, page) && tlb[s].ram.Some? && tlb[s].ram != Some(p) && !Exposed(tlb, tlb[s].ram.value) {
      var q := tlb[s].ram.value;
      var tb := Tb(0, 0, 0, false, 1, q, None, [0]);
      var live: map<TbId, Tb> := map[0 := tb];
      assert WfEntry(tlb[s], s.index, pages) && WfTb(tb, pages);
      assert IsDirtyRam(tlb'[s]) && tlb'[s].ram == Some(q) && OnPage(live[0], q);
      assert CodePagesTested(live, tlb) && !CodePagesTested(live, tlb');
    } else {
      forall live | WfTbs(live, pages) && CodePagesTested(live, tlb) && !HasCode(live, p) ensures CodePagesTested(live, tlb') {
        forall t, s | t in live && s in tlb' && IsDirtyRam(tlb'[s]) && tlb'[s].ram.Some? ensures !OnPage(live[t], tlb'[s].ram.value) {
          assert tlb'[s] == tlb[s] || Unmarks(tlb, s, cpu, page);
        }
      }
    }
  }

  /** tlb_set_dirty takes the mark off the entry. */
  predicate Unmarks(tlb: TlbTable, s: Slot, cpu: nat, page: VPage)
    requires s in tlb
  {
    s.cpu == cpu && s.index == IndexOf(page) && SetDirty1(tlb[s], page) != tlb[s]
  }

  ghost predicate Exposed(tlb: TlbTable, p: nat) {
    exists s | s in tlb :: IsDirtyRam(tlb[s]) && tlb[s].ram == Some(p)
  }

  lemma AgreeingModesSuffice(tlb: TlbTable, s: Slot)
    requires ModesAgree(tlb) && s in tlb && tlb[s].write.At? && tlb[s].ram.Some?
    ensures forall r | r in tlb && Unmarks(tlb, r, s.cpu, tlb[s].write.page) && tlb[r].ram.Some? :: tlb[r].ram == tlb[s].ram
  {
    forall r | r in tlb && Unmarks(tlb, r, s.cpu, tlb[s].write.page) && tlb[r].ram.Some? ensures tlb[r].ram == tlb[s].ram {
      assert tlb[r].write.page == tlb[s].write.page;
    }
  }

  function Unmarked(p: nat): TlbEntry {
    var at := At(0, Flags(false, false, false, false, false));
    TlbEntry(at, at, at, Some(p), RamSection)
  }

  function Marked(p: nat): TlbEntry {
    Unmarked(p).(write := At(0, Flags(true, false, false, false, false)))
  }

  function CodeOn(p: nat): Tb { Tb(0, 0, 0, false, 1, p, None, [0]) }

  const USER := Slot(0, 0, 0)
  const KERNEL := Slot(0, 1, 0)

  function Two(live: map<TbId, Tb>, descs: set<nat>, dirty: seq<bv8>, user: TlbEntry, kernel: TlbEntry, ram: seq<bv8>): Machine {
    Machine(live, map[], descs, dirty, map[USER := user, KERNEL := kernel], ram)
  }

  lemma TwoWf(m: Machine)
    requires |m.dirty| == 2 && |m.ram| == 2 * PAGE_SIZE && m.jumps == map[] && m.tlb.Keys == {USER, KERNEL}
    requires forall t | t in m.live :: m.live[t] == CodeOn(0) || m.live[t] == CodeOn(1)
    requires forall s | s in m.tlb :: m.tlb[s] in {EMPTY_ENTRY, Unmarked(0), Unmarked(1), Marked(0), Marked(1)}
    ensures Wf(m)
  {
  }

  /** A run in which the modes disagree: one virtual page leads to RAM page 0 in one mode and to RAM page 1 in the
      other, and both pages hold code. A store to page 0 that hits its only TB ends the protection of page 1, and the
      next store overwrites the code there unnoticed. */
  lemma ModesMustAgree() returns (states: seq<Machine>, ops: seq<Op>)
    ensures IsRun(states, ops) && |ops| == 6
    ensures var m := states[6]; Wf(m) && !CodePagesTested(states[5].live, states[5].tlb) && !Coherent(m.live, m.ram)
  {
    hide Apply, Enabled, Wf, Init, Coherent;
    var ram := seq(2 * PAGE_SIZE, _ => 0 as bv8);
    var prot := Prot(true, true, true);
    var m0 := Two(map[], {}, [0xff, 0xff], EMPTY_ENTRY, EMPTY_ENTRY, ram);
    var m1 := m0.(tlb := map[USER := Unmarked(0), KERNEL := EMPTY_ENTRY]);
    var m2 := m0.(tlb := map[USER := Unmarked(0), KERNEL := Unmarked(1)]);
    var m3 := Two(map[0 := CodeOn(0)], {0}, [0xfd, 0xff], Marked(0), Unmarked(1), ram);
    var m4 := Two(map[0 := CodeOn(0), 1 := CodeOn(1)], {0, 1}, [0xfd, 0xfd], Marked(0), Marked(1), ram);
    var m5 := Two(map[1 := CodeOn(1)], {0, 1}, [0xff, 0xfd], Unmarked(0), Unmarked(1), Write(ram, 0, [1]));
    var m6 := m5.(ram := Write(m5.ram, PAGE_SIZE, [1]));
    var fill0 := TlbFill(USER, 0, Some(0), prot, false, false, false);
    var fill1 := TlbFill(KERNEL, 0, Some(1), prot, false, false, false);
    Fills(m0, m1, m2, fill0, fill1, ram);
    LinkFirst(m2, m3, ram);
    LinkSecond(m3, m4, ram);
    EndsProtection(m4, m5, ram);
    GoesUnnoticed(m5, m6, ram);
    states := [m0, m1, m2, m3, m4, m5, m6];
    ops := [fill0, fill1, Translate(0, CodeOn(0)), Translate(1, CodeOn(1)), SlowStore(USER, 0, [1]), FastStore(KERNEL, PAGE_SIZE, [1])];
  }

  lemma Fills(m0: Machine, m1: Machine, m2: Machine, fill0: Op, fill1: Op, ram: seq<bv8>)
    requires |ram| == 2 * PAGE_SIZE && m0 == Two(map[], {}, [0xff, 0xff], EMPTY_ENTRY, EMPTY_ENTRY, ram)
    requires m1 == m0.(tlb := map[USER := Unmarked(0), KERNEL := EMPTY_ENTRY]) && m2 == m0.(tlb := map[USER := Unmarked(0), KERNEL := Unmarked(1)])
    requires fill0 == TlbFill(USER, 0, Some(0), Prot(true, true, true), false, false, false)
    requires fill1 == TlbFill(KERNEL, 0, Some(1), Prot(true, true, true), false, false, false)
    ensures Init(m0) && Wf(m0) && Wf(m1) && Wf(m2)
    ensures Enabled(m0, fill0) && m1 == Apply(m0, fill0) && Enabled(m1, fill1) && m2 == Apply(m1, fill1)
  {
    assert m0.tlb[USER := Unmarked(0)] == m1.tlb;
    assert m1.tlb[KERNEL := Unmarked(1)] == m2.tlb;
    TwoWf(m0);
    TwoWf(m1);
    TwoWf(m2);
  }

  /** A new TB on a page without code. */
  lemma LinkNew(m: Machine, t: TbId, p: nat)
    requires Wf(m) && t !in m.live && p < |m.dirty| && !HasCode(m.live, p) && forall i | 0 <= i < |m.ram| :: m.ram[i] == 0
    ensures Enabled(m, Translate(t, CodeOn(p)))
    ensures Apply(m, Translate(t, CodeOn(p))) ==
      m.(live := m.live[t := CodeOn(p)], descs := m.descs + {p}, dirty := m.dirty[p := m.dirty[p] & 0xfd], tlb := ResetTlb(m.tlb, p, 1))
  {
    hide HasCode, ResetTlb;
    assert SrcAddr(CodeOn(p), 0) == p * PAGE_SIZE;
  }

  lemma LinkFirst(m2: Machine, m3: Machine, ram: seq<bv8>)
    requires |ram| == 2 * PAGE_SIZE && (forall i | 0 <= i < |ram| :: ram[i] == 0) && Wf(m2)
    requires m2 == Two(map[], {}, [0xff, 0xff], Unmarked(0), Unmarked(1), ram)
    requires m3 == Two(map[0 := CodeOn(0)], {0}, [0xfd, 0xff], Marked(0), Unmarked(1), ram)
    ensures Wf(m3) && Enabled(m2, Translate(0, CodeOn(0))) && m3 == Apply(m2, Translate(0, CodeOn(0)))
  {
    hide Wf, Enabled, Apply;
    TwoWf(m3);
    LinkNew(m2, 0, 0);
    assert ResetTlb(m2.tlb, 0, 1) == m3.tlb;
    assert m2.dirty[0 := m2.dirty[0] & 0xfd] == m3.dirty;
  }

  lemma LinkSecond(m3: Machine, m4: Machine, ram: seq<bv8>)
    requires |ram| == 2 * PAGE_SIZE && (forall i | 0 <= i < |ram| :: ram[i] == 0) && Wf(m3)
    requires m3 == Two(map[0 := CodeOn(0)], {0}, [0xfd, 0xff], Marked(0), Unmarked(1), ram)
    requires m4 == Two(map[0 := CodeOn(0), 1 := CodeOn(1)], {0, 1}, [0xfd, 0xfd], Marked(0), Marked(1), ram)
    ensures Wf(m4) && Enabled(m3, Translate(1, CodeOn(1))) && m4 == Apply(m3, Translate(1, CodeOn(1)))
  {
    hide Wf, Enabled, Apply;
    TwoWf(m4);
    LinkNew(m3, 1, 1);
    assert ResetTlb(m3.tlb, 1, 1) == m4.tlb;
    assert m3.dirty[1 := m3.dirty[1] & 0xfd] == m4.dirty;
    assert m3.live[1 := CodeOn(1)] == m4.live;
  }

  lemma EndsProtection(m4: Machine, m5: Machine, ram: seq<bv8>)
    requires |ram| == 2 * PAGE_SIZE && Wf(m4)
    requires m4 == Two(map[0 := CodeOn(0), 1 := CodeOn(1)], {0, 1}, [0xfd, 0xfd], Marked(0), Marked(1), ram)
    requires m5 == Two(map[1 := CodeOn(1)], {0, 1}, [0xff, 0xfd], Unmarked(0), Unmarked(1), Write(ram, 0, [1]))
    ensures Enabled(m4, SlowStore(USER, 0, [1])) && m5 == Apply(m4, SlowStore(USER, 0, [1])) && Wf(m5)
    ensures !CodePagesTested(m5.live, m5.tlb)
  {
    hide TestForCode, Write;
    TwoWf(m5);
    OneGone(m4, ram);
    var t := TestForCode(m4, 0, 1);
    assert SetDirty(t.tlb, 0, 0) == m5.tlb;
    assert t.dirty[0] | 0xfd == 0xff && t.dirty[0 := 0xff] == m5.dirty;
    assert IsDirtyRam(m5.tlb[KERNEL]) && OnPage(m5.live[1], 1);
  }

  lemma OneGone(m4: Machine, ram: seq<bv8>)
    requires |ram| == 2 * PAGE_SIZE
    requires m4 == Two(map[0 := CodeOn(0), 1 := CodeOn(1)], {0, 1}, [0xfd, 0xfd], Marked(0), Marked(1), ram)
    ensures TestForCode(m4, 0, 1) == Two(map[1 := CodeOn(1)], {0, 1}, [0xff, 0xfd], Marked(0), Marked(1), ram)
  {
    hide Unmarked, Marked;
    assert SrcAddr(CodeOn(0), 0) == 0 && SrcAddr(CodeOn(1), 0) == PAGE_SIZE;
    assert Hits(CodeOn(0), 0, 1) && !Hits(CodeOn(1), 0, 1);
    assert Missed(m4.live, 0, 1) == {1};
    var r := Keep(m4, {1});
    assert r.live == map[1 := CodeOn(1)] && r.jumps == map[] && !HasCode(r.live, 0);
    assert r.dirty[0 := r.dirty[0] | CODE_DIRTY_FLAG] == [0xff, 0xfd];
  }

  lemma GoesUnnoticed(m5: Machine, m6: Machine, ram: seq<bv8>)
    requires |ram| == 2 * PAGE_SIZE && Wf(m5)
    requires m5 == Two(map[1 := CodeOn(1)], {0, 1}, [0xff, 0xfd], Unmarked(0), Unmarked(1), Write(ram, 0, [1]))
    requires m6 == m5.(ram := Write(m5.ram, PAGE_SIZE, [1]))
    ensures Enabled(m5, FastStore(KERNEL, PAGE_SIZE, [1])) && m6 == Apply(m5, FastStore(KERNEL, PAGE_SIZE, [1]))
    ensures Wf(m6) && !Coherent(m6.live, m6.ram)
  {
    TwoWf(m6);
    assert SrcAddr(CodeOn(1), 0) == PAGE_SIZE && m6.ram[PAGE_SIZE] == 1;
    assert !Matches(m6.live[1], m6.ram);
  }
}

/** Software TLB entries (libcpu/include/cpu/tlb.h, libcpu/src/exec-tlb.h).

    The C code keeps a page address and flag bits in one word. The flag bits are
    distinct and below the page size, so the word is modelled as the page number
    and one boolean per flag; the word -1 is `Invalid`.
 */
module Tlb {
  import opened Wrappers

  const PAGE_SIZE: nat := 4096
  const CPU_TLB_SIZE: nat := 1024
  /** Addresses are 64 bits wide, page numbers 52. */
  const ADDRESSES: nat := 0x1_0000_0000_0000_0000
  const PAGES: nat := 0x10_0000_0000_0000

  type VAddr = a: nat | a < ADDRESSES
  type VPage = p: nat | p < PAGES

  datatype Flags = Flags(notdirty: bool, mmio: bool, symb: bool, notOurs: bool, trace: bool)

  datatype TlbAddr = Invalid | At(page: VPage, flags: Flags)

  /** Where accesses that leave the fast path go. */
  datatype Section = RamSection | WatchSection | DeviceSection

  /** `ram` is the RAM page that the entry's addend leads to. */
  datatype TlbEntry = TlbEntry(read: TlbAddr, write: TlbAddr, code: TlbAddr, ram: Option<nat>, section: Section)

  datatype Slot = Slot(cpu: nat, mode: nat, index: nat)

  type TlbTable = map<Slot, TlbEntry>

  const EMPTY_ENTRY := TlbEntry(Invalid, Invalid, Invalid, None, DeviceSection)

  /** Addresses wrap around. */
  function Plus(a: VAddr, i: nat): VAddr { (a + i) % ADDRESSES }

  function Minus(a: VAddr, b: VAddr): VAddr { if a >= b then a - b else a + ADDRESSES - b }

  function PageOf(vaddr: VAddr): VPage { vaddr / PAGE_SIZE }

  function IndexOf(page: VPage): nat { page % CPU_TLB_SIZE }

  /** The address belongs in TLB row `index`. */
  predicate Sits(a: TlbAddr, index: nat) {
    a.At? ==> IndexOf(a.page) == index
  }

  /** tlb_is_dirty_ram: stores through the entry are not tested for self-modifying code. */
  predicate IsDirtyRam(e: TlbEntry) {
    e.write.At? && !e.write.flags.mmio && !e.write.flags.notdirty
  }

  /** tlb_set_dirty1 */
  function SetDirty1(e: TlbEntry, page: VPage): TlbEntry {
    if e.write.At? && e.write.page == page
       && e.write.flags.(symb := false) == Flags(true, false, false, false, false)
    then e.(write := At(page, e.write.flags.(notdirty := false)))
    else e
  }

  /** tlb_reset_dirty_range, for `count` RAM pages from `first` on */
  function ResetDirty(e: TlbEntry, first: nat, count: nat): TlbEntry {
    if IsDirtyRam(e) && e.ram.Some? && first <= e.ram.value < first + count
    then e.(write := At(e.write.page, e.write.flags.(notdirty := true)))
    else e
  }

  datatype Prot = Prot(read: bool, write: bool, exec: bool)

  /** What tlb_set_page stores for virtual page `page`, given the lookups it makes:
      the RAM page behind the physical address, whether a watchpoint lies on the
      page, whether the RAM page is dirty, and the two symbolic execution hooks. */
  function Fill(page: VPage, ram: Option<nat>, prot: Prot, watched: bool, dirty: bool,
                symbolicMmio: bool, traced: bool): TlbEntry
  {
    var none := Flags(false, false, false, false, false);
    var code := none.(mmio := ram.None?);
    var address := code.(mmio := code.mmio || watched);
    var read := address.(notdirty := symbolicMmio, trace := traced);
    var write := address.(notdirty := ram.Some? && !dirty,
                          mmio := address.mmio || ram.None? || symbolicMmio, trace := traced);
    TlbEntry(if prot.read then At(page, read) else Invalid,
             if prot.write then At(page, write) else Invalid,
             if prot.exec then At(page, code) else Invalid,
             ram, if watched then WatchSection else if ram.Some? then RamSection else DeviceSection)
  }

  // ---- What the entries let through ----

  /** Each kind of access to `page` gets through as far as the protection lets it. Loads and stores leave the fast path for
      a device, a watchpoint or symbolic I/O, stores also for a page that is not dirty; code is read past watchpoints. */
  predicate Admits(e: TlbEntry, page: VPage, ram: Option<nat>, prot: Prot, watched: bool, dirty: bool, symbolicMmio: bool, traced: bool) {
    && (e.read.At? <==> prot.read) && (e.write.At? <==> prot.write) && (e.code.At? <==> prot.exec) && e.ram == ram
    && (prot.read ==> e.read == At(page, Flags(symbolicMmio, ram.None? || watched, false, false, traced)))
    && (prot.exec ==> e.code == At(page, Flags(false, ram.None?, false, false, false)))
    && (prot.write ==> e.write.page == page && (e.write.flags.trace <==> traced) && !e.write.flags.symb && !e.write.flags.notOurs)
    && (prot.write ==> (e.write.flags.mmio <==> ram.None? || watched || symbolicMmio))
    && (prot.write ==> (e.write.flags.notdirty <==> ram.Some? && !dirty))
    && (prot.write ==> (IsDirtyRam(e) <==> ram.Some? && dirty && !watched && !symbolicMmio))
    && (e.section == WatchSection <==> watched) && (e.section == RamSection <==> ram.Some? && !watched)
  }

  lemma FillExact(page: VPage, ram: Option<nat>, prot: Prot, watched: bool, dirty: bool, symbolicMmio: bool, traced: bool)
    ensures Admits(Fill(page, ram, prot, watched, dirty, symbolicMmio, traced), page, ram, prot, watched, dirty, symbolicMmio, traced)
  {
  }

  /** Stores to the pages of the range are tested from now on, and nothing else about the entry changes. */
  lemma ResetExact(e: TlbEntry, first: nat, count: nat)
    ensures var r := ResetDirty(e, first, count);
      && r.(write := e.write) == e && (!IsDirtyRam(e) ==> r == e)
      && (IsDirtyRam(r) <==> IsDirtyRam(e) && !(e.ram.Some? && first <= e.ram.value < first + count))
      && (IsDirtyRam(e) ==> r.write.At? && r.write.page == e.write.page && r.write.flags.(notdirty := false) == e.write.flags)
  {
  }

  /** Stores to `page` are no longer tested, unless something else keeps them off the fast path. */
  lemma SetDirtyExact(e: TlbEntry, page: VPage)
    ensures var r := SetDirty1(e, page);
      && r.(write := e.write) == e
      && (r != e <==> e.write.At? && e.write.page == page && e.write.flags.notdirty
                      && !e.write.flags.mmio && !e.write.flags.notOurs && !e.write.flags.trace)
      && (r != e ==> IsDirtyRam(r) && r.write.page == page && r.write.flags.(notdirty := true) == e.write.flags)
  {
  }
}

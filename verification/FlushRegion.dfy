/** The region that stands for all large pages in the TLB (libcpu/src/exec-tlb.c:
    tlb_add_large_page) and the jump cache hash (libcpu/src/exec-all.h). */
module FlushRegion {
  import opened Masks
  import opened Tlb

  /** tlb_flush_addr and tlb_flush_mask = ~(2^k - 1); `NoRegion` is the address -1. */
  datatype Region = NoRegion | Region(addr: VAddr, k: nat)

  /** A large page, by any address in it and its size 2^k. */
  datatype LargePage = LargePage(vaddr: VAddr, k: nat)

  predicate InLargePage(lp: LargePage, a: VAddr) {
    ClearLow(a, lp.k) == ClearLow(lp.vaddr, lp.k)
  }

  /** The test that makes tlb_flush_page flush everything. */
  predicate InRegion(r: Region, a: VAddr) {
    r.Region? && ClearLow(a, r.k) == r.addr
  }

  ghost predicate WfRegion(r: Region) {
    r.Region? ==> r.k <= 64 && Aligned(r.addr, r.k)
  }

  /** Region `r'` is the smallest that holds the large page and what `r` holds. */
  ghost predicate Widened(r': Region, r: Region, lp: LargePage) {
    && r'.Region? && (forall a: VAddr | InLargePage(lp, a) || InRegion(r, a) :: InRegion(r', a))
    && (r.NoRegion? ==> r'.k == lp.k)
    && (r.Region? ==> r.k <= r'.k && lp.k <= r'.k)
    && (r.Region? ==> forall j | r.k <= j < r'.k && lp.k <= j :: ClearLow(r.addr, j) != ClearLow(lp.vaddr, j))
  }

  /** tlb_add_large_page: the new region is the smallest that holds the page and everything the old region
      held. The widening loop stops at the latest when the mask is zero. */
  method AddLargePage(r: Region, lp: LargePage) returns (r': Region)
    requires WfRegion(r) && lp.k <= 64
    ensures WfRegion(r') && r'.Region?
    ensures Widened(r', r, lp)
  {
    if r.NoRegion? {
      r' := Region(Clear(lp.vaddr, lp.k), lp.k);
      ClearTwice(lp.vaddr, lp.k, lp.k);
      return;
    }
    var k := if lp.k < r.k then r.k else lp.k;
    while ClearLow(r.addr, k) != ClearLow(lp.vaddr, k)
      invariant r.k <= k <= 64 && lp.k <= k
      invariant forall j | r.k <= j < k && lp.k <= j :: ClearLow(r.addr, j) != ClearLow(lp.vaddr, j)
      decreases 64 - k
    {
      if k == 64 {
        Pow2Values();
        ClearAll(r.addr, 64);
        ClearAll(lp.vaddr, 64);
      }
      k := k + 1;
    }
    r' := Region(Clear(r.addr, k), k);
    ClearTwice(r.addr, k, k);
    forall a: VAddr | InLargePage(lp, a) || InRegion(r, a) ensures InRegion(r', a) {
      if InLargePage(lp, a) {
        Coarser(a, lp.vaddr, lp.k, k);
      } else {
        Coarser(a, r.addr, r.k, k);
      }
    }
  }

  function Clear(a: VAddr, k: nat): (r: VAddr)
    ensures r == ClearLow(a, k)
  {
    ClearLowBounds(a, k);
    ClearLow(a, k)
  }

  // ---- The jump cache ----

  const TB_JMP_CACHE_SIZE: nat := 4096
  const TB_JMP_PAGE_SIZE: nat := 64

  function Xor6(a: nat, b: nat): (r: nat)
    requires a < 64 && b < 64
    ensures r < 64
  {
    ((a as bv6) ^ (b as bv6)) as nat
  }

  /** tb_jmp_cache_hash_page: bits 12..17 of the address xor bits 18..23, times 64. */
  function HashPage(page: VPage): (h: nat)
    ensures h + TB_JMP_PAGE_SIZE <= TB_JMP_CACHE_SIZE
  {
    TB_JMP_PAGE_SIZE * Xor6(page % 64, page / 64 % 64)
  }

  /** tb_jmp_cache_hash_func: that, plus bits 0..5 of the address xor bits 6..11. All
      addresses of a page hash to the 64 slots that start at the hash of the page. */
  function HashFunc(pc: VAddr): (h: nat)
    ensures HashPage(PageOf(pc)) <= h < HashPage(PageOf(pc)) + TB_JMP_PAGE_SIZE
  {
    HashPage(PageOf(pc)) + Xor6(pc % 64, pc / 64 % 64)
  }

  lemma XorInjective(x: bv6, y: bv6, z: bv6)
    ensures x ^ z == y ^ z <==> x == y
  {
  }

  lemma ToBits(a: nat, b: nat)
    requires a < 64 && b < 64
    ensures a as bv6 == b as bv6 <==> a == b
  {
    assert (a as bv6) as nat == a;
  }

  lemma FromBits(x: bv6, y: bv6)
    ensures x as nat == y as nat <==> x == y
  {
  }

  lemma Xor6Injective(a: nat, b: nat, c: nat)
    requires a < 64 && b < 64 && c < 64
    ensures Xor6(a, c) == Xor6(b, c) <==> a == b
  {
    XorInjective(a as bv6, b as bv6, c as bv6);
    FromBits(a as bv6 ^ c as bv6, b as bv6 ^ c as bv6);
    ToBits(a, b);
  }

  /** Addresses of one 64-byte line never compete for a slot of the jump cache, and pages of one group of 64 never
      compete for its slots. */
  lemma SlotsApart(a: VAddr, b: VAddr, p: VPage, q: VPage)
    ensures a / 64 == b / 64 ==> (HashFunc(a) == HashFunc(b) <==> a == b)
    ensures p / 64 == q / 64 ==> (HashPage(p) == HashPage(q) <==> p == q)
  {
    hide Xor6;
    Xor6Injective(a % 64, b % 64, a / 64 % 64);
    Xor6Injective(p % 64, q % 64, p / 64 % 64);
    if a / 64 == b / 64 { assert PageOf(a) == PageOf(b) by { SameLine(a, b); } }
  }

  lemma SameLine(a: VAddr, b: VAddr)
    requires a / 64 == b / 64
    ensures PageOf(a) == PageOf(b)
  {
    assert a / 64 / 64 == a / PAGE_SIZE && b / 64 / 64 == b / PAGE_SIZE;
  }

  function PrevPage(page: VPage): VPage { (page + PAGES - 1) % PAGES }

  /** Some byte of the `size` bytes at `pc` is on `page`. */
  ghost predicate Overlaps(pc: VAddr, size: nat, page: VPage) {
    exists i | 0 <= i < size :: PageOf(Plus(pc, i)) == page
  }

  /** A block of at most a page that reaches into a page starts in it or in the one before. */
  lemma OverlapStarts(pc: VAddr, size: nat, page: VPage)
    requires size <= PAGE_SIZE && Overlaps(pc, size, page)
    ensures PageOf(pc) == page || PageOf(pc) == PrevPage(page)
  {
    var i :| 0 <= i < size && PageOf(Plus(pc, i)) == page;
    assert Plus(pc, i) == if pc + i < ADDRESSES then pc + i else pc + i - ADDRESSES;
    NextOrSame(pc, i);
  }

  lemma NextOrSame(pc: VAddr, i: nat)
    requires i < PAGE_SIZE
    ensures (pc + i) / PAGE_SIZE == pc / PAGE_SIZE || (pc + i) / PAGE_SIZE == pc / PAGE_SIZE + 1
    ensures pc + i >= ADDRESSES ==> pc / PAGE_SIZE == PAGES - 1 && pc + i - ADDRESSES < PAGE_SIZE
  {
  }
}

/** The table of RAM blocks (libcpu/src/exec-ram.c).

    Guest RAM is a set of host memory blocks, each at a fictive RAM address. Blocks are kept
    in an array sorted by address; a new block goes to the smallest gap that holds it. */
module RamBlocks {
  import opened Wrappers
  import opened Tlb

  const RAM_ADDR_MAX: nat := 0xffff_ffff_ffff_ffff

  datatype Block = Block(host: nat, offset: nat, length: nat)

  function EndOf(b: Block): nat { b.offset + b.length }

  /** A page-aligned block, possibly empty, that ends within the address space, on both sides. */
  ghost predicate BlockOk(b: Block) {
    && b.offset % PAGE_SIZE == 0 && b.length % PAGE_SIZE == 0 && EndOf(b) <= RAM_ADDR_MAX
    && 0 < b.host < ADDRESSES && b.host + b.length <= ADDRESSES
  }

  ghost predicate Sorted(s: seq<Block>) {
    forall i, j | 0 <= i < j < |s| :: EndOf(s[i]) <= s[j].offset
  }

  ghost predicate Ok(s: seq<Block>) {
    Sorted(s) && forall i | 0 <= i < |s| :: BlockOk(s[i])
  }

  // ---- Gaps ----

  /** Gap 0 lies before the first block, gap i after block i - 1. */
  function GapStart(s: seq<Block>, i: nat): nat
    requires i <= |s|
  {
    if i == 0 then 0 else EndOf(s[i - 1])
  }

  function GapEnd(s: seq<Block>, i: nat): nat
    requires i <= |s|
  {
    if i == |s| then RAM_ADDR_MAX else s[i].offset
  }

  function GapSize(s: seq<Block>, i: nat): int
    requires i <= |s|
  {
    GapEnd(s, i) - GapStart(s, i)
  }

  /** Among gaps 0 to n, gap k is the smallest that holds `size` bytes, the lowest among equals. */
  ghost predicate BestUpto(s: seq<Block>, size: nat, k: nat, n: nat) {
    && k <= n <= |s| && GapSize(s, k) >= size
    && forall j | 0 <= j <= n && GapSize(s, j) >= size :: if j < k then GapSize(s, k) < GapSize(s, j) else GapSize(s, k) <= GapSize(s, j)
  }

  ghost predicate NoneUpto(s: seq<Block>, size: nat, n: nat) {
    n <= |s| && forall j | 0 <= j <= n :: GapSize(s, j) < size
  }

  ghost predicate BestGap(s: seq<Block>, size: nat, k: nat)
    ensures BestGap(s, size, k) ==> k <= |s|
  {
    BestUpto(s, size, k, |s|)
  }

  lemma BestStep(s: seq<Block>, size: nat, k: nat, n: nat)
    requires n < |s|
    ensures BestUpto(s, size, k, n) ==>
              if size <= GapSize(s, n + 1) < GapSize(s, k) then BestUpto(s, size, n + 1, n + 1) else BestUpto(s, size, k, n + 1)
    ensures NoneUpto(s, size, n) ==> if size <= GapSize(s, n + 1) then BestUpto(s, size, n + 1, n + 1) else NoneUpto(s, size, n + 1)
  {
  }

  lemma GapZero(s: seq<Block>, size: nat)
    ensures if GapSize(s, 0) >= size then BestUpto(s, size, 0, 0) else NoneUpto(s, size, 0)
  {
  }

  /** There are blocks, but all of them are empty and at address 0. */
  predicate Void(s: seq<Block>) {
    |s| > 0 && EndOf(s[|s| - 1]) == 0
  }

  lemma GapsOk(s: seq<Block>, i: nat)
    requires Ok(s) && i < |s|
    ensures GapSize(s, 0) == s[0].offset < RAM_ADDR_MAX && BlockOk(s[i])
    ensures GapStart(s, i + 1) == s[i].offset + s[i].length < RAM_ADDR_MAX
    ensures 0 <= GapSize(s, i + 1) == (if i == |s| - 1 then RAM_ADDR_MAX else s[i + 1].offset) - GapStart(s, i + 1) <= RAM_ADDR_MAX
    ensures GapSize(s, i + 1) == RAM_ADDR_MAX <==> i == |s| - 1 && Void(s)
  {
    assert BlockOk(s[i]) && BlockOk(s[0]);
    Ragged(s[0]);
    if i < |s| - 1 { assert BlockOk(s[i + 1]); Ragged(s[i + 1]); }
    Ragged(s[i]);
  }

  lemma VoidGaps(s: seq<Block>, k: nat)
    requires Ok(s) && Void(s) && k <= |s|
    ensures GapSize(s, k) == if k == |s| then RAM_ADDR_MAX else 0
  {
    if k > 0 && k < |s| { assert EndOf(s[k - 1]) <= s[k].offset; }
    if k < |s| - 1 { assert EndOf(s[k]) <= s[|s| - 1].offset; }
  }

  /** An aligned end is not the odd RAM_ADDR_MAX. */
  lemma Ragged(b: Block)
    requires BlockOk(b)
    ensures EndOf(b) < RAM_ADDR_MAX && b.offset < RAM_ADDR_MAX
  {
  }

  /** find_ram_offset: None is the exit when nothing is found. That is so if no gap holds the size, and also if all
      blocks are empty at address 0: the gap behind them is as large as the initial best size, and not taken. */
  method FindRamOffset(s: seq<Block>, size: nat) returns (r: Option<nat>)
    requires Ok(s) && size <= RAM_ADDR_MAX
    ensures r.None? <==> NoneUpto(s, size, |s|) || (size > 0 && Void(s))
    ensures r.Some? ==> exists k | BestGap(s, size, k) :: r.value == GapStart(s, k)
  {
    hide Ok, BestUpto, NoneUpto, GapSize, GapStart, BlockOk, Void;
    ghost var k := 0;
    GapZero(s, size);
    if |s| == 0 {
      Whole(s, size);
      SomeFits(s, size, 0);
      Empty(s);
      return Some(0);
    }
    var bestOffset, bestSize := RAM_ADDR_MAX, RAM_ADDR_MAX;
    for i := 0 to |s|
      invariant i == 0 ==> bestOffset == bestSize == RAM_ADDR_MAX
      invariant i > 0 && bestOffset == RAM_ADDR_MAX ==>
                  bestSize == RAM_ADDR_MAX && size > 0 && (NoneUpto(s, size, i) || (i == |s| && Void(s)))
      invariant i > 0 && bestOffset != RAM_ADDR_MAX ==>
                  BestUpto(s, size, k, i) && k <= |s| && bestOffset == GapStart(s, k) && bestSize == GapSize(s, k) < RAM_ADDR_MAX
    {
      GapsOk(s, i);
      First(s);
      if i == 0 && s[i].offset >= size && size <= bestSize {
        bestOffset, bestSize, k := 0, s[i].offset, 0;
      }
      BestStep(s, size, k, i);
      var nextGap := s[i].offset + s[i].length;
      var nextSize := if i == |s| - 1 then RAM_ADDR_MAX - nextGap else s[i + 1].offset - nextGap;
      if nextSize >= size && nextSize < bestSize {
        bestOffset, bestSize, k := nextGap, nextSize, i + 1;
      }
    }
    if bestOffset == RAM_ADDR_MAX {
      return None;
    }
    SomeFits(s, size, k);
    NotVoid(s, size, k);
    r := Some(bestOffset);
  }

  lemma SomeFits(s: seq<Block>, size: nat, k: nat)
    requires BestGap(s, size, k)
    ensures !NoneUpto(s, size, |s|)
  {
  }

  lemma NotVoid(s: seq<Block>, size: nat, k: nat)
    requires Ok(s) && BestGap(s, size, k) && GapSize(s, k) < RAM_ADDR_MAX
    ensures !(size > 0 && Void(s))
  {
    if Void(s) { VoidGaps(s, k); }
  }

  lemma Empty(s: seq<Block>)
    requires |s| == 0
    ensures !Void(s)
  {
  }

  lemma First(s: seq<Block>)
    ensures GapStart(s, 0) == 0
  {
  }

  lemma Whole(s: seq<Block>, size: nat)
    requires |s| == 0 && size <= RAM_ADDR_MAX
    ensures BestGap(s, size, 0) && GapStart(s, 0) == 0
  {
  }

  // ---- Allocation ----

  /** TARGET_PAGE_ALIGN on 64-bit numbers */
  function PageAlign(size: nat): nat {
    (size + PAGE_SIZE - 1) % ADDRESSES / PAGE_SIZE * PAGE_SIZE
  }

  /** A size is rounded up to pages, unless it is so large that it wraps around to nothing. */
  lemma {:induction false} PageAlignExact(size: nat)
    requires size < ADDRESSES
    ensures PageAlign(size) % PAGE_SIZE == 0
    ensures 0 < size <= ADDRESSES - PAGE_SIZE <==> PageAlign(size) > 0
    ensures 0 < size <= ADDRESSES - PAGE_SIZE ==> size <= PageAlign(size) < size + PAGE_SIZE && PageAlign(size) <= RAM_ADDR_MAX
  {
  }

  /** ramblock_cmp; the third case is the abort. */
  method Compare(a: Block, b: Block) returns (r: int)
    requires EndOf(a) <= b.offset || EndOf(b) <= a.offset
    ensures r == if EndOf(a) <= b.offset then -1 else 1
  {
    if a.offset + a.length <= b.offset {
      r := -1;
    } else if a.offset >= b.offset + b.length {
      r := 1;
    } else {
      assert false;
    }
  }

  /** All blocks lie on one side or the other of `b`. */
  ghost predicate Beside(s: seq<Block>, b: Block) {
    forall i | 0 <= i < |s| :: EndOf(s[i]) <= b.offset || EndOf(b) <= s[i].offset
  }

  /** What qsort makes of a sorted array with one more block at its end: the comparator is only ever
      applied to disjoint blocks. */
  method Sort(s: seq<Block>, b: Block) returns (r: seq<Block>, ghost i: nat)
    requires Sorted(s) && Beside(s, b)
    ensures Sorted(r) && i <= |s| && r == s[..i] + [b] + s[i..]
  {
    hide Sorted;
    var n := |s|;
    while n > 0
      invariant 0 <= n <= |s| && forall j | n <= j < |s| :: EndOf(b) <= s[j].offset
    {
      var c := Compare(s[n - 1], b);
      if c < 0 {
        break;
      }
      n := n - 1;
    }
    r := s[..n] + [b] + s[n..];
    i := n;
    Inserted(s, b, i);
  }

  lemma Inserted(s: seq<Block>, b: Block, i: nat)
    requires Sorted(s) && i <= |s| && (forall j | i <= j < |s| :: EndOf(b) <= s[j].offset) && (i > 0 ==> EndOf(s[i - 1]) <= b.offset)
    ensures Sorted(s[..i] + [b] + s[i..])
  {
    var r := s[..i] + [b] + s[i..];
    forall x, y | 0 <= x < y < |r| ensures EndOf(r[x]) <= r[y].offset {
      if y == i && x < i - 1 { assert EndOf(s[x]) <= s[i - 1].offset; }
    }
  }

  /** Where the blocks are, whatever host memory they stand for. */
  function Layout(s: seq<Block>): (r: seq<Block>)
    ensures |r| == |s| && forall i | 0 <= i < |s| :: r[i] == s[i].(host := 0)
  {
    if s == [] then [] else [s[0].(host := 0)] + Layout(s[1..])
  }

  /** Two sorted orders of the same blocks differ at most in the order of empty blocks at the same address, so any
      sort gives the same. */
  lemma SortUnique(a: seq<Block>, b: seq<Block>)
    requires Sorted(a) && Sorted(b) && multiset(a) == multiset(b)
    ensures Layout(a) == Layout(b) && forall i | 0 <= i < |a| && a[i].length > 0 :: a[i] == b[i]
  {
    hide Layout, Sorted;
    LayoutSame(a, b);
    LayoutSorted(a);
    LayoutSorted(b);
    LayoutUnique(Layout(a), Layout(b));
    forall i | 0 <= i < |a| && a[i].length > 0 ensures a[i] == b[i] {
      var j := Find(b, multiset(b), a[i]);
      assert Layout(b)[i] == Layout(a)[i];
      NotEmpty(b, i, j);
    }
  }

  lemma Find(b: seq<Block>, m: multiset<Block>, x: Block) returns (i: nat)
    requires m == multiset(b) && x in m
    ensures i < |b| && b[i] == x
  {
    i :| 0 <= i < |b| && b[i] == x;
  }

  /** No two blocks that are not empty start at the same address. */
  lemma NotEmpty(b: seq<Block>, i: nat, j: nat)
    requires Sorted(b) && i < |b| && j < |b| && b[i].offset == b[j].offset && b[i].length > 0 && b[j].length > 0
    ensures i == j
  {
  }

  lemma TakeOut(b: seq<Block>, i: nat)
    requires i < |b|
    ensures multiset(b) == multiset(b[..i] + b[i + 1..]) + multiset{b[i]}
  {
    assert b == b[..i] + ([b[i]] + b[i + 1..]);
  }

  lemma LayoutSorted(a: seq<Block>)
    requires Sorted(a)
    ensures Sorted(Layout(a))
  {
    hide Layout;
  }

  lemma {:induction false} LayoutSame(a: seq<Block>, b: seq<Block>)
    requires multiset(a) == multiset(b)
    ensures |a| == |b| && multiset(Layout(a)) == multiset(Layout(b))
    decreases |a|
  {
    hide Layout;
    SameLength(a, b);
    if a == [] {
      assert Layout(a) == Layout(b);
    } else {
      TakeFirst(a);
      var i := Find(b, multiset(b), a[0]);
      var rest := b[..i] + b[i + 1..];
      TakeOut(b, i);
      Cancel(multiset(a[1..]), multiset(rest), a[0]);
      LayoutSame(a[1..], rest);
      LayoutFirst(a);
      LayoutWithout(b, i);
    }
  }

  lemma SameLength(a: seq<Block>, b: seq<Block>)
    requires multiset(a) == multiset(b)
    ensures |a| == |b|
  {
    assert |a| == |multiset(a)| == |multiset(b)| == |b|;
  }

  lemma TakeFirst(a: seq<Block>)
    requires a != []
    ensures multiset(a) == multiset(a[1..]) + multiset{a[0]} && a[0] in multiset(a)
  {
    NoneBefore(a);
    TakeOut(a, 0);
  }

  lemma LayoutFirst(a: seq<Block>)
    requires a != []
    ensures multiset(Layout(a)) == multiset(Layout(a[1..])) + multiset{a[0].(host := 0)}
  {
    hide Layout;
    NoneBefore(a);
    LayoutWithout(a, 0);
  }

  lemma NoneBefore(a: seq<Block>)
    requires a != []
    ensures a[..0] + a[1..] == a[1..]
  {
  }

  lemma Cancel(m: multiset<Block>, n: multiset<Block>, x: Block)
    requires m + multiset{x} == n + multiset{x}
    ensures m == n
  {
    assert m == (m + multiset{x}) - multiset{x};
    assert n == (n + multiset{x}) - multiset{x};
  }

  lemma LayoutWithout(b: seq<Block>, i: nat)
    requires i < |b|
    ensures multiset(Layout(b)) == multiset(Layout(b[..i] + b[i + 1..])) + multiset{b[i].(host := 0)}
  {
    hide Layout;
    LayoutParts(b, i);
    TakeOut(Layout(b), i);
  }

  lemma LayoutParts(b: seq<Block>, i: nat)
    requires i < |b|
    ensures Layout(b)[..i] + Layout(b)[i + 1..] == Layout(b[..i] + b[i + 1..])
  {
    hide Layout;
    var l, r := Layout(b)[..i] + Layout(b)[i + 1..], b[..i] + b[i + 1..];
    forall k | 0 <= k < |l| ensures l[k] == Layout(r)[k] {
      assert r[k] == if k < i then b[k] else b[k + 1];
    }
  }

  lemma {:induction false} LayoutUnique(a: seq<Block>, b: seq<Block>)
    requires Sorted(a) && Sorted(b) && multiset(a) == multiset(b) && forall x | x in multiset(a) :: x.host == 0
    ensures a == b
    decreases |a|
  {
    hide Sorted;
    assert |a| == |multiset(a)| == |multiset(b)| == |b|;
    if a == [] {
    } else {
      SameFirst(a, b);
      assert a == [a[0]] + a[1..] && b == [b[0]] + b[1..];
      assert multiset(a[1..]) == multiset(a) - multiset{a[0]};
      assert multiset(b[1..]) == multiset(b) - multiset{b[0]};
      Tail(a);
      Tail(b);
      LayoutUnique(a[1..], b[1..]);
    }
  }

  lemma Tail(a: seq<Block>)
    requires Sorted(a) && a != []
    ensures Sorted(a[1..])
  {
  }

  lemma OneFirst(a: seq<Block>, b: seq<Block>, i: nat, j: nat)
    requires Sorted(a) && Sorted(b) && i < |b| && j < |a| && b[i] == a[0] && a[j] == b[0] && a[0].host == b[0].host
    ensures a[0] == b[0]
  {
  }

  lemma SameFirst(a: seq<Block>, b: seq<Block>)
    requires Sorted(a) && Sorted(b) && multiset(a) == multiset(b) && a != [] && b != [] && forall x | x in multiset(a) :: x.host == 0
    ensures a[0] == b[0]
  {
    assert a[0] in multiset(b) && b[0] in multiset(a);
    var i :| 0 <= i < |b| && b[i] == a[0];
    var j :| 0 <= j < |a| && a[j] == b[0];
    OneFirst(a, b, i, j);
  }

  /** A block placed in a gap that holds it touches no other block. */
  lemma FitsGap(s: seq<Block>, b: Block, k: nat)
    requires Ok(s) && k <= |s| && b.offset == GapStart(s, k) && b.length <= GapSize(s, k)
    ensures Beside(s, b) && EndOf(b) <= RAM_ADDR_MAX
  {
    forall i | 0 <= i < |s| ensures EndOf(s[i]) <= b.offset || EndOf(b) <= s[i].offset {
      assert BlockOk(s[i]);
      if i + 1 < k { assert EndOf(s[i]) <= s[k - 1].offset; }
      if k < i { assert EndOf(s[k]) <= s[i].offset; }
    }
    if k < |s| { assert BlockOk(s[k]); }
  }

  // ---- Addresses ----

  predicate InRam(b: Block, addr: nat) { b.offset <= addr < EndOf(b) }

  predicate InHost(b: Block, host: nat) { b.host <= host < b.host + b.length }

  /** The unsigned comparison is the interval test. */
  lemma WrapTest(a: nat, start: nat, length: nat)
    requires a < ADDRESSES && start + length <= ADDRESSES && start < ADDRESSES
    ensures Minus(a, start) < length <==> start <= a < start + length
  {
  }

  /** The host address of a RAM address, by the first block from `i` on that has it. */
  function ToHost(s: seq<Block>, addr: nat, i: nat): Option<nat>
    requires i <= |s|
    decreases |s| - i
  {
    if i == |s| then None
    else if InRam(s[i], addr) then Some(s[i].host + (addr - s[i].offset))
    else ToHost(s, addr, i + 1)
  }

  function ToRam(s: seq<Block>, host: nat, i: nat): Option<nat>
    requires i <= |s|
    decreases |s| - i
  {
    if i == |s| then None
    else if InHost(s[i], host) then Some(s[i].offset + (host - s[i].host))
    else ToRam(s, host, i + 1)
  }

  /** qemu_get_ram_ptr; None is the abort on a bad address. */
  method RamPtr(s: seq<Block>, addr: nat) returns (r: Option<nat>)
    requires Ok(s) && addr < ADDRESSES
    ensures r == ToHost(s, addr, 0)
  {
    for i := 0 to |s|
      invariant ToHost(s, addr, i) == ToHost(s, addr, 0)
    {
      assert BlockOk(s[i]);
      WrapTest(addr, s[i].offset, s[i].length);
      if Minus(addr, s[i].offset) < s[i].length {
        return Some(s[i].host + Minus(addr, s[i].offset));
      }
    }
    r := None;
  }

  ghost predicate HostsApart(s: seq<Block>) {
    forall i, j | 0 <= i < j < |s| :: s[i].host + s[i].length <= s[j].host || s[j].host + s[j].length <= s[i].host
  }

  /** qemu_ram_addr_from_host */
  method RamAddr(s: seq<Block>, host: nat) returns (r: Option<nat>)
    requires Ok(s) && host < ADDRESSES
    ensures r == ToRam(s, host, 0)
  {
    for i := 0 to |s|
      invariant ToRam(s, host, i) == ToRam(s, host, 0)
    {
      assert BlockOk(s[i]);
      WrapTest(host, s[i].host, s[i].length);
      if Minus(host, s[i].host) < s[i].length {
        return Some(s[i].offset + Minus(host, s[i].host));
      }
    }
    r := None;
  }

  lemma {:induction false} ToHostAt(s: seq<Block>, addr: nat, i: nat)
    requires Ok(s) && i <= |s|
    ensures var r := ToHost(s, addr, i);
      if r.Some? then exists k | i <= k < |s| :: InRam(s[k], addr) && r.value == s[k].host + (addr - s[k].offset)
      else forall k | i <= k < |s| :: !InRam(s[k], addr)
    ensures forall k | i <= k < |s| && InRam(s[k], addr) :: ToHost(s, addr, i) == Some(s[k].host + (addr - s[k].offset))
    decreases |s| - i
  {
    if i == |s| {
    } else {
      ToHostAt(s, addr, i + 1);
    }
  }

  lemma {:induction false} ToRamAt(s: seq<Block>, host: nat, i: nat)
    requires Ok(s) && HostsApart(s) && i <= |s|
    ensures var r := ToRam(s, host, i);
      if r.Some? then exists k | i <= k < |s| :: InHost(s[k], host) && r.value == s[k].offset + (host - s[k].host)
      else forall k | i <= k < |s| :: !InHost(s[k], host)
    ensures forall k | i <= k < |s| && InHost(s[k], host) :: ToRam(s, host, i) == Some(s[k].offset + (host - s[k].host))
    decreases |s| - i
  {
    if i == |s| {
    } else {
      ToRamAt(s, host, i + 1);
    }
  }

  /** As long as no two blocks share host memory, the two translations are inverse to each other. */
  lemma Inverse(s: seq<Block>, addr: nat, host: nat)
    requires Ok(s) && HostsApart(s)
    ensures ToHost(s, addr, 0) == Some(host) <==> ToRam(s, host, 0) == Some(addr)
  {
    hide ToHost, ToRam, Ok, HostsApart;
    if ToHost(s, addr, 0) == Some(host) { ThereAndBack(s, addr, host); }
    if ToRam(s, host, 0) == Some(addr) { BackAndThere(s, addr, host); }
  }

  lemma ThereAndBack(s: seq<Block>, addr: nat, host: nat)
    requires Ok(s) && HostsApart(s) && ToHost(s, addr, 0) == Some(host)
    ensures ToRam(s, host, 0) == Some(addr)
  {
    hide ToHost, ToRam, Ok, HostsApart;
    ToHostAt(s, addr, 0);
    var k :| 0 <= k < |s| && InRam(s[k], addr) && host == s[k].host + (addr - s[k].offset);
    ToRamAt(s, host, 0);
    assert InHost(s[k], host);
  }

  lemma BackAndThere(s: seq<Block>, addr: nat, host: nat)
    requires Ok(s) && HostsApart(s) && ToRam(s, host, 0) == Some(addr)
    ensures ToHost(s, addr, 0) == Some(host)
  {
    hide ToHost, ToRam, Ok, HostsApart;
    ToRamAt(s, host, 0);
    var k :| 0 <= k < |s| && InHost(s[k], host) && addr == s[k].offset + (host - s[k].host);
    ToHostAt(s, addr, 0);
    assert InRam(s[k], addr);
  }

  // ---- Freeing ----

  /** Without the first block at `addr`, if there is one. */
  function Freed(s: seq<Block>, addr: nat): seq<Block> {
    if s == [] then [] else if s[0].offset == addr then s[1..] else [s[0]] + Freed(s[1..], addr)
  }

  lemma {:induction false} FreedAt(s: seq<Block>, addr: nat, i: nat)
    requires i <= |s| && (forall j | 0 <= j < i :: s[j].offset != addr) && (i < |s| ==> s[i].offset == addr)
    ensures Freed(s, addr) == if i < |s| then s[..i] + s[i + 1..] else s
  {
    if i == 0 {
    } else {
      assert forall j | 0 <= j < i - 1 :: s[1..][j] == s[j + 1];
      FreedAt(s[1..], addr, i - 1);
      assert s == [s[0]] + s[1..];
    }
  }

  lemma FreedOk(s: seq<Block>, i: nat)
    requires Ok(s) && i < |s|
    ensures Ok(s[..i] + s[i + 1..])
  {
    hide BlockOk;
    var r := s[..i] + s[i + 1..];
    forall k | 0 <= k < |r| ensures r[k] == s[if k < i then k else k + 1] {}
  }

  /** Freeing the address that was just allocated undoes the allocation if and only if the new block was not put behind
      another block at that address. Such a block is empty, and it is freed instead. */
  lemma FreeUndoes(s: seq<Block>, b: Block, i: nat)
    requires i <= |s| && Sorted(s[..i] + [b] + s[i..])
    ensures Freed(s[..i] + [b] + s[i..], b.offset) == s <==> forall j | 0 <= j < i && s[j].offset == b.offset :: s[j] == b
    ensures forall j | 0 <= j < i && s[j].offset == b.offset :: s[j].length == 0
  {
    hide Freed, Sorted;
    var t := s[..i] + [b] + s[i..];
    forall j | 0 <= j < i && s[j].offset == b.offset ensures s[j].length == 0 { Touching(t, j, i); }
    var j := FirstAt(t, b.offset, i);
    FreedAt(t, b.offset, j);
    Shifted(s, b, i, j);
    if forall k | j <= k < i :: s[k] == b {
      forall k | 0 <= k < i && s[k].offset == b.offset ensures s[k] == b { assert t[k] == s[k]; }
    } else {
      var k :| j <= k < i && s[k] != b;
      Between(t, j, k, i);
      assert t[k] == s[k];
    }
  }

  lemma Touching(t: seq<Block>, j: nat, i: nat)
    requires Sorted(t) && j < i < |t| && t[j].offset == t[i].offset
    ensures t[j].length == 0
  {
  }

  /** Taking out entry j instead of i leaves the same if and only if the entries in between are all the same. */
  lemma Shifted(s: seq<Block>, b: Block, i: nat, j: nat)
    requires j <= i <= |s|
    ensures var t := s[..i] + [b] + s[i..]; t[..j] + t[j + 1..] == s <==> forall k | j <= k < i :: s[k] == b
  {
    var t := s[..i] + [b] + s[i..];
    var r := t[..j] + t[j + 1..];
    forall k | 0 <= k < |s| ensures r[k] == if k < j then s[k] else if k + 1 < i then s[k + 1] else if k + 1 == i then b else s[k] {}
    if r == s {
      forall k | j <= k < i ensures s[k] == b { Carried(s, b, j, k, i); }
    }
  }

  lemma {:induction false} Carried(s: seq<Block>, b: Block, j: nat, k: nat, i: nat)
    requires j <= k < i <= |s| && (forall x | j < x < i :: s[x - 1] == s[x]) && s[i - 1] == b
    ensures s[k] == b
    decreases i - k
  {
    if k + 1 == i {
    } else {
      Carried(s, b, j, k + 1, i);
    }
  }

  lemma Between(t: seq<Block>, j: nat, k: nat, i: nat)
    requires Sorted(t) && j <= k < i < |t| && t[j].offset == t[i].offset
    ensures t[k].offset == t[i].offset
  {
  }

  lemma {:induction false} FirstAt(t: seq<Block>, addr: nat, i: nat) returns (j: nat)
    requires i < |t| && t[i].offset == addr
    ensures j <= i && t[j].offset == addr && forall k | 0 <= k < j :: t[k].offset != addr
  {
    if k :| 0 <= k < i && t[k].offset == addr {
      j := FirstAt(t, addr, k);
    } else {
      j := i;
    }
  }

  // ---- The table ----

  class RamList {
    var blocks: seq<Block>

    ghost predicate Valid()
      reads this
    {
      Ok(blocks)
    }

    constructor ()
      ensures Valid() && blocks == []
    {
      blocks := [];
    }

    /** qemu_ram_alloc_from_ptr: the new block is put, in order, into the smallest gap that holds it;
        fails if and only if no gap does, or there are blocks and all are empty at address 0. A size that rounds to
        nothing makes an empty block. */
    method Alloc(size: nat, host: nat) returns (r: Option<nat>)
      requires Valid() && size < ADDRESSES && 0 < host < ADDRESSES && host + PageAlign(size) <= ADDRESSES
      modifies this
      ensures Valid()
      ensures r.None? <==> (forall i | 0 <= i <= |old(blocks)| :: GapSize(old(blocks), i) < PageAlign(size)) || (PageAlign(size) > 0 && Void(old(blocks)))
      ensures r.None? ==> blocks == old(blocks)
      ensures r.Some? ==> exists k | BestGap(old(blocks), PageAlign(size), k) :: r.value == GapStart(old(blocks), k)
      ensures r.Some? ==> exists i | 0 <= i <= |old(blocks)| ::
                blocks == old(blocks)[..i] + [Block(host, r.value, PageAlign(size))] + old(blocks)[i..]
    {
      hide BestUpto, Sorted, GapStart, GapSize, PageAlign;
      PageAlignExact(size);
      var length := PageAlign(size);
      ghost var i;
      r := FindRamOffset(blocks, length);
      NoneFits(blocks, length);
      if r.None? {
        return;
      }
      ghost var k :| BestGap(blocks, length, k) && r.value == GapStart(blocks, k);
      BestFits(blocks, length, k);
      var b := Block(host, r.value, length);
      FitsGap(blocks, b, k);
      Aligned(blocks, k);
      var s;
      s, i := Sort(blocks, b);
      InsertedOk(blocks, b, i);
      blocks := s;
    }

    /** qemu_ram_free_from_ptr: the first block at `addr` is closed up; nothing happens if there is none. */
    method Free(addr: nat)
      requires Valid()
      modifies this
      ensures Valid() && blocks == Freed(old(blocks), addr)
    {
      hide Ok, Freed;
      for i := 0 to |blocks|
        invariant blocks == old(blocks)
        invariant forall j | 0 <= j < i :: blocks[j].offset != addr
      {
        if blocks[i].offset == addr {
          FreedAt(blocks, addr, i);
          FreedOk(blocks, i);
          blocks := blocks[..i] + blocks[i + 1..];
          return;
        }
      }
      FreedAt(blocks, addr, |blocks|);
    }
  }

  lemma NoneFits(s: seq<Block>, size: nat)
    ensures NoneUpto(s, size, |s|) <==> forall i | 0 <= i <= |s| :: GapSize(s, i) < size
  {
  }

  lemma BestFits(s: seq<Block>, size: nat, k: nat)
    requires BestGap(s, size, k)
    ensures k <= |s| && GapSize(s, k) >= size
  {
  }

  lemma Aligned(s: seq<Block>, k: nat)
    requires Ok(s) && k <= |s|
    ensures GapStart(s, k) % PAGE_SIZE == 0
  {
    if k > 0 { assert BlockOk(s[k - 1]); }
  }

  lemma InsertedOk(s: seq<Block>, b: Block, i: nat)
    requires Ok(s) && i <= |s| && BlockOk(b) && Sorted(s[..i] + [b] + s[i..])
    ensures Ok(s[..i] + [b] + s[i..])
  {
  }

  /** For instance: once an empty block has been allocated first, no other size can be, although a gap holds it. */
  method EmptyFirst(host: nat, other: nat, size: nat) returns (first: Option<nat>, r: Option<nat>)
    requires 0 < host < ADDRESSES && 0 < size <= ADDRESSES - PAGE_SIZE && 0 < other && other + PageAlign(size) <= ADDRESSES
    ensures first == Some(0) && r == None && GapSize([Block(host, 0, 0)], 1) >= PageAlign(size)
  {
    hide PageAlign, BestUpto;
    PageAlignExact(0);
    PageAlignExact(size);
    var t := new RamList();
    assert GapSize(t.blocks, 0) == RAM_ADDR_MAX;
    first := t.Alloc(0, host);
    OnlyGap(first.value);
    assert t.blocks == [Block(host, 0, 0)];
    r := t.Alloc(size, other);
  }

  lemma OnlyGap(start: nat)
    ensures (exists k | BestGap([], 0, k) :: start == GapStart([], k)) ==> start == 0
  {
  }
}

/** Unaligned guest memory accesses (libcpu/src/softmmu_template.h: slow_ld, slow_st).

    An access that crosses a page, or an unaligned one to a page whose TLB entry is flagged
    for the I/O path, is split: a load into two aligned loads, a store into bytes. Pages are
    RAM, and stay mapped during the access; a flagged page is RAM behind the not-dirty test.
    Memory is little endian.
 */
module SoftMmu {
  import opened Wrappers
  import opened Arith
  import opened Tlb

  type Byte = b: nat | b < 256

  // ---- Values ----

  function Pow256(n: nat): (r: nat)
    ensures r > 0
  {
    if n == 0 then 1 else 256 * Pow256(n - 1)
  }

  /** The number that little-endian bytes stand for. */
  function Value(s: seq<Byte>): nat {
    if s == [] then 0 else s[0] + 256 * Value(s[1..])
  }

  /** The low `n` bytes of a number. */
  function Bytes(v: nat, n: nat): (s: seq<Byte>)
    ensures |s| == n
  {
    if n == 0 then [] else [v % 256] + Bytes(v / 256, n - 1)
  }

  lemma {:induction false} ValueBytes(v: nat, n: nat)
    requires v < Pow256(n)
    ensures Value(Bytes(v, n)) == v
  {
    if n == 0 {
    } else {
      ValueBytes(v / 256, n - 1);
    }
  }

  /** Byte i of a number is what is left when it is shifted right by 8 * i bits and cut to a byte. */
  lemma {:induction false} BytesAt(v: nat, n: nat, i: nat)
    requires i < n
    ensures Bytes(v, n)[i] == ShiftRight(v, i) % 256
  {
    if i == 0 {
    } else {
      BytesAt(v / 256, n - 1, i - 1);
    }
  }

  /** v >> (8 * n) */
  function ShiftRight(v: nat, n: nat): nat {
    if n == 0 then v else ShiftRight(v / 256, n - 1)
  }

  /** v << (8 * n) in a word of `size` bytes */
  function ShiftLeft(v: nat, n: nat, size: nat): nat {
    v * Pow256(n) % Pow256(size)
  }

  lemma PowZero()
    ensures Pow256(0) == 1
  {
  }

  lemma PowStep(n: nat)
    ensures Pow256(n + 1) == 256 * Pow256(n)
  {
  }

  lemma Regroup(p: nat, v: nat)
    ensures 256 * (p * v) == (256 * p) * v
  {
  }

  lemma {:induction false} ValueAppend(a: seq<Byte>, b: seq<Byte>)
    ensures Value(a + b) == Value(a) + Pow256(|a|) * Value(b)
    ensures Value(a) < Pow256(|a|)
  {
    hide Pow256;
    if a == [] {
      assert a + b == b;
      PowZero();
    } else {
      ValueAppend(a[1..], b);
      assert (a + b)[1..] == a[1..] + b;
      PowStep(|a| - 1);
      Regroup(Pow256(|a| - 1), Value(b));
    }
  }

  lemma {:induction false} ShiftRightDrops(a: seq<Byte>, b: seq<Byte>)
    ensures ShiftRight(Value(a + b), |a|) == Value(b)
  {
    if a == [] {
      assert a + b == b;
    } else {
      assert (a + b)[1..] == a[1..] + b;
      ShiftRightDrops(a[1..], b);
    }
  }

  lemma ShiftLeftKeeps(a: seq<Byte>, b: seq<Byte>, n: nat)
    ensures ShiftLeft(Value(a + b), n, n + |a|) == Value(a) * Pow256(n)
  {
    hide Value, Pow256;
    ValueAppend(a, b);
    PowAdd(n, |a|);
    var x, p, q, y := Value(a), Pow256(n), Pow256(|a|), Value(b);
    assert (x + q * y) * p == y * (p * q) + x * p by { Distribute(x, p, q, y); }
    assert 0 <= x * p < p * q by { Below(x, p, q); }
    ModUnique((x + q * y) * p, y, x * p, p * q);
  }

  lemma Distribute(x: nat, p: nat, q: nat, y: nat)
    ensures (x + q * y) * p == y * (p * q) + x * p
  {
    assert (x + q * y) * p == x * p + (q * y) * p;
    assert (q * y) * p == y * (p * q);
  }

  lemma Below(x: nat, p: nat, q: nat)
    requires x < q && p > 0
    ensures x * p < p * q
  {
    assert (q - x) * p > 0;
    assert (q - x) * p == p * q - x * p;
  }

  lemma {:induction false} PowAdd(i: nat, j: nat)
    ensures Pow256(i + j) == Pow256(i) * Pow256(j)
  {
    hide Pow256;
    if i == 0 {
      PowZero();
    } else {
      PowAdd(i - 1, j);
      PowStep(i - 1);
      PowStep(i - 1 + j);
      Regroup(Pow256(i - 1), Pow256(j));
    }
  }

  /** Two adjacent aligned words, shifted and or-ed together, are the word that straddles them. */
  lemma Recombine(a: seq<Byte>, b: seq<Byte>, k: nat)
    requires |a| == |b| && 0 < k < |a|
    ensures ShiftRight(Value(a), k) + ShiftLeft(Value(b), |a| - k, |a|) == Value(a[k..] + b[..k])
  {
    hide Value, ShiftRight, ShiftLeft;
    assert a == a[..k] + a[k..] && b == b[..k] + b[k..];
    ShiftRightDrops(a[..k], a[k..]);
    ShiftLeftKeeps(b[..k], b[k..], |a| - k);
    ValueAppend(a[k..], b[..k]);
  }

  // ---- Memory ----

  /** Guest RAM, the page tables, and the pages whose TLB entries will be flagged for the I/O path. */
  datatype Memory = Memory(ram: seq<Byte>, pages: map<VPage, nat>, flagged: set<VPage>)

  predicate MemoryOk(m: Memory) {
    forall p | p in m.pages :: (m.pages[p] + 1) * PAGE_SIZE <= |m.ram|
  }

  predicate Mapped(m: Memory, a: VAddr) { PageOf(a) in m.pages }

  /** The RAM byte behind a virtual address. */
  function Loc(m: Memory, a: VAddr): (l: nat)
    requires MemoryOk(m) && Mapped(m, a)
    ensures l < |m.ram|
  {
    m.pages[PageOf(a)] * PAGE_SIZE + a % PAGE_SIZE
  }

  ghost predicate AllMapped(m: Memory, a: VAddr, n: nat) {
    forall i | 0 <= i < n :: Mapped(m, Plus(a, i))
  }

  /** What the guest has at addresses a, a + 1, ... */
  ghost function Read(m: Memory, a: VAddr, n: nat): (s: seq<Byte>)
    requires MemoryOk(m) && AllMapped(m, a, n)
    ensures |s| == n && forall i | 0 <= i < n :: s[i] == m.ram[Loc(m, Plus(a, i))]
  {
    if n == 0 then [] else Read(m, a, n - 1) + [m.ram[Loc(m, Plus(a, n - 1))]]
  }

  lemma PlusPlus(a: VAddr, i: nat, j: nat)
    requires i < PAGE_SIZE && j < PAGE_SIZE
    ensures Plus(Plus(a, i), j) == Plus(a, i + j)
  {
  }

  // ---- The TLB ----

  datatype Entry = Entry(page: VPage, ram: nat, io: bool)

  ghost predicate TlbFits(tlb: map<nat, Option<Entry>>, m: Memory) {
    && (forall i | 0 <= i < CPU_TLB_SIZE :: i in tlb)
    && forall i | i in tlb && tlb[i].Some? :: tlb[i].value.page in m.pages && m.pages[tlb[i].value.page] == tlb[i].value.ram
  }

  /** The redo loop: the entry for `a`, filled in if it was not there. */
  method LookUp(tlb: map<nat, Option<Entry>>, m: Memory, a: VAddr) returns (e: Entry, tlb': map<nat, Option<Entry>>)
    requires TlbFits(tlb, m) && Mapped(m, a)
    ensures TlbFits(tlb', m) && e.page == PageOf(a) && e.ram == m.pages[e.page]
  {
    var page := PageOf(a);
    var index := IndexOf(page);
    tlb' := tlb;
    while !(tlb'[index].Some? && tlb'[index].value.page == page)
      invariant TlbFits(tlb', m)
      decreases !(tlb'[index].Some? && tlb'[index].value.page == page)
    {
      tlb' := tlb'[index := Some(Entry(page, m.pages[page], page in m.flagged))];
    }
    e := tlb'[index].value;
  }

  /** The access lies within one page. */
  predicate WithinPage(a: VAddr, size: nat) { a % PAGE_SIZE + size <= PAGE_SIZE }

  /** ld*_p: `size` bytes of one page, by host address. */
  method LoadDirect(m: Memory, e: Entry, a: VAddr, size: nat) returns (v: nat)
    requires MemoryOk(m) && Mapped(m, a) && e.page == PageOf(a) && e.ram == m.pages[e.page] && WithinPage(a, size)
    ensures AllMapped(m, a, size) && v == Value(Read(m, a, size))
  {
    InPage(m, a, size);
    var at := e.ram * PAGE_SIZE + a % PAGE_SIZE;
    v := Value(m.ram[at..at + size]);
    assert m.ram[at..at + size] == Read(m, a, size);
  }

  lemma InPage(m: Memory, a: VAddr, size: nat)
    requires MemoryOk(m) && Mapped(m, a) && WithinPage(a, size)
    ensures AllMapped(m, a, size) && forall i | 0 <= i < size :: Loc(m, Plus(a, i)) == Loc(m, a) + i
  {
    forall i | 0 <= i < size ensures Mapped(m, Plus(a, i)) && Loc(m, Plus(a, i)) == Loc(m, a) + i {
      SamePage(a, i);
    }
  }

  lemma SamePage(a: VAddr, i: nat)
    requires a % PAGE_SIZE + i < PAGE_SIZE
    ensures Plus(a, i) == a + i && PageOf(Plus(a, i)) == PageOf(a) && Plus(a, i) % PAGE_SIZE == a % PAGE_SIZE + i
  {
  }

  // ---- Loads ----

  predicate IsSize(n: nat) { n == 1 || n == 2 || n == 4 || n == 8 }

  function AlignDown(a: VAddr, size: nat): VAddr
    requires size > 0
  {
    a - a % size
  }

  /** A size divides the page size, so an aligned access stays within its page. */
  lemma AlignedWithin(a: VAddr, size: nat)
    requires IsSize(size)
    ensures WithinPage(AlignDown(a, size), size) && AlignDown(a, size) % size == 0 && PageOf(AlignDown(a, size)) == PageOf(a)
    ensures AlignDown(a, size) % PAGE_SIZE == a % PAGE_SIZE - a % size && Plus(AlignDown(a, size), a % size) == a
  {
    SameRemainder(a, size);
    LastAligned(a % PAGE_SIZE, size);
    var b, r := AlignDown(a, size), a % size;
    assert b == PAGE_SIZE * (a / PAGE_SIZE) + (a % PAGE_SIZE - r) && 0 <= a % PAGE_SIZE - r < PAGE_SIZE;
    ModLess(a, size);
  }

  lemma SameRemainder(a: nat, size: nat)
    requires IsSize(size)
    ensures a % PAGE_SIZE % size == a % size <= a % PAGE_SIZE
  {
    ModMod(a, size, PAGE_SIZE / size);
    assert size * (PAGE_SIZE / size) == PAGE_SIZE;
    assert a % PAGE_SIZE % size <= a % PAGE_SIZE;
  }

  lemma LastAligned(r: nat, size: nat)
    requires IsSize(size) && r < PAGE_SIZE
    ensures r - r % size + size <= PAGE_SIZE
  {
    if size == 1 { } else if size == 2 { } else if size == 4 { } else { }
  }

  lemma NextAligned(a: VAddr, size: nat)
    requires IsSize(size) && a % size != 0
    ensures var b := Plus(AlignDown(a, size), size);
      && b % size == 0 && b == Plus(a, size - a % size) && WithinPage(b, size)
  {
    hide Plus, WithinPage, AlignDown;
    AlignedWithin(a, size);
    PlusPlus(AlignDown(a, size), a % size, size - a % size);
    AlignedNext(AlignDown(a, size), size);
  }

  lemma AlignedNext(a: VAddr, size: nat)
    requires IsSize(size) && a % size == 0
    ensures Plus(a, size) % size == 0 && WithinPage(Plus(a, size), size)
  {
    var b := Plus(a, size);
    assert b == if a + size < ADDRESSES then a + size else a + size - ADDRESSES;
    if size == 1 {
    } else if size == 2 {
      assert b % 2 == 0;
    } else if size == 4 {
      assert b % 4 == 0;
    } else {
      assert b % 8 == 0;
    }
  }

  /** The two aligned words lie on the pages of the access, and the access is the end of one and the start of the other. */
  lemma Straddle(m: Memory, a: VAddr, size: nat)
    requires MemoryOk(m) && IsSize(size) && a % size != 0 && AllMapped(m, a, size)
    ensures var a1, k := AlignDown(a, size), a % size;
            var a2 := Plus(a1, size);
            && a1 % size == 0 && a2 % size == 0 && AllMapped(m, a1, size) && AllMapped(m, a2, size)
            && Read(m, a, size) == Read(m, a1, size)[k..] + Read(m, a2, size)[..k]
  {
    hide Loc, Mapped, MemoryOk, Plus, AlignDown;
    var a1, k := AlignDown(a, size), a % size;
    var a2 := Plus(a1, size);
    AlignedWithin(a, size);
    NextAligned(a, size);
    PlusZero(a);
    assert Mapped(m, Plus(a, 0)) && Mapped(m, Plus(a, size - k));
    Moved(m, a, a1);
    InPage(m, a1, size);
    InPage(m, a2, size);
    Spliced(m, a, a1, a2, k, size);
  }

  lemma Spliced(m: Memory, a: VAddr, a1: VAddr, a2: VAddr, k: nat, size: nat)
    requires MemoryOk(m) && 0 < k < size <= 8 && AllMapped(m, a, size) && AllMapped(m, a1, size) && AllMapped(m, a2, size)
    requires a == Plus(a1, k) && a2 == Plus(a, size - k)
    ensures Read(m, a, size) == Read(m, a1, size)[k..] + Read(m, a2, size)[..k]
  {
    hide Loc, Mapped, MemoryOk, Plus, AllMapped;
    forall i | 0 <= i < size ensures Read(m, a, size)[i] == (Read(m, a1, size)[k..] + Read(m, a2, size)[..k])[i] {
      if i < size - k {
        PlusPlus(a1, k, i);
      } else {
        PlusPlus(a, size - k, i - (size - k));
      }
    }
  }

  lemma PlusZero(a: VAddr)
    ensures Plus(a, 0) == a
  {
  }

  lemma Moved(m: Memory, a: VAddr, b: VAddr)
    requires PageOf(a) == PageOf(b)
    ensures Mapped(m, a) == Mapped(m, b)
  {
  }

  /** slow_ld: any load yields the little-endian value of the bytes at its addresses. An aligned load never splits
      again, so the recursion is one deep. */
  method SlowLd(tlb: map<nat, Option<Entry>>, m: Memory, a: VAddr, size: nat) returns (v: nat, tlb': map<nat, Option<Entry>>)
    requires TlbFits(tlb, m) && MemoryOk(m) && IsSize(size) && AllMapped(m, a, size)
    ensures TlbFits(tlb', m) && v == Value(Read(m, a, size))
    decreases a % size
  {
    hide TlbFits, MemoryOk, AllMapped, Value, ShiftRight, ShiftLeft;
    FirstMapped(m, a, size);
    AlignedWithin(a, size);
    var e;
    e, tlb' := LookUp(tlb, m, a);
    if (e.io && a % size != 0) || (!e.io && a % PAGE_SIZE + size - 1 >= PAGE_SIZE) {
      Straddle(m, a, size);
      var a1 := AlignDown(a, size);
      var a2 := Plus(a1, size);
      var v1, v2;
      v1, tlb' := SlowLd(tlb', m, a1, size);
      v2, tlb' := SlowLd(tlb', m, a2, size);
      var k := a % size;
      Recombine(Read(m, a1, size), Read(m, a2, size), k);
      v := ShiftRight(v1, k) + ShiftLeft(v2, size - k, size);
    } else {
      v := LoadDirect(m, e, a, size);
    }
  }

  lemma FirstMapped(m: Memory, a: VAddr, size: nat)
    requires AllMapped(m, a, size) && size > 0
    ensures Mapped(m, a)
  {
    assert Mapped(m, Plus(a, 0));
  }

  // ---- Stores ----

  /** The bytes at a, a + 1, ... are those of `s`, and the rest of RAM is as before. */
  ghost predicate Stored(m: Memory, m': Memory, a: VAddr, s: seq<Byte>)
    requires MemoryOk(m) && AllMapped(m, a, |s|)
  {
    && m' == m.(ram := m'.ram) && |m'.ram| == |m.ram|
    && (forall i | 0 <= i < |s| :: m'.ram[Loc(m, Plus(a, i))] == s[i])
    && (forall l | 0 <= l < |m.ram| && m'.ram[l] != m.ram[l] :: exists i | 0 <= i < |s| :: Loc(m, Plus(a, i)) == l)
  }

  /** Addresses less than a page apart never lead to the same RAM byte, even if their pages do. */
  lemma LocApart(m: Memory, a: VAddr, i: nat, j: nat)
    requires MemoryOk(m) && i < j < PAGE_SIZE && Mapped(m, Plus(a, i)) && Mapped(m, Plus(a, j))
    ensures Loc(m, Plus(a, i)) != Loc(m, Plus(a, j))
  {
    OffsetsApart(a, i, j);
    LocOffset(m, Plus(a, i));
    LocOffset(m, Plus(a, j));
  }

  lemma LocOffset(m: Memory, a: VAddr)
    requires MemoryOk(m) && Mapped(m, a)
    ensures Loc(m, a) % PAGE_SIZE == a % PAGE_SIZE
  {
    ModUnique(Loc(m, a), m.pages[PageOf(a)], a % PAGE_SIZE, PAGE_SIZE);
  }

  lemma OffsetsApart(a: VAddr, i: nat, j: nat)
    requires i < j < PAGE_SIZE
    ensures Plus(a, i) % PAGE_SIZE != Plus(a, j) % PAGE_SIZE
  {
    hide Plus;
    PlusOffset(a, i);
    PlusOffset(a, j);
  }

  lemma PlusOffset(a: VAddr, i: nat)
    requires i < PAGE_SIZE
    ensures var x := a % PAGE_SIZE + i; Plus(a, i) % PAGE_SIZE == if x < PAGE_SIZE then x else x - PAGE_SIZE
  {
    assert Plus(a, i) == if a + i < ADDRESSES then a + i else a + i - ADDRESSES;
  }

  /** st*_p: `size` bytes of one page, by host address. */
  method StoreDirect(m: Memory, e: Entry, a: VAddr, v: nat, size: nat) returns (m': Memory)
    requires MemoryOk(m) && Mapped(m, a) && e.page == PageOf(a) && e.ram == m.pages[e.page] && WithinPage(a, size)
    ensures AllMapped(m, a, size) && Stored(m, m', a, Bytes(v, size))
  {
    hide Bytes;
    InPage(m, a, size);
    var at := e.ram * PAGE_SIZE + a % PAGE_SIZE;
    assert at == Loc(m, a);
    m' := m.(ram := m.ram[..at] + Bytes(v, size) + m.ram[at + size..]);
    forall l | 0 <= l < |m.ram| && m'.ram[l] != m.ram[l] ensures exists i | 0 <= i < size :: Loc(m, Plus(a, i)) == l {
      assert at <= l < at + size && Loc(m, Plus(a, l - at)) == l;
    }
  }

  /** slow_st: any store writes the low bytes of its value, in order, and nothing else. */
  method SlowSt(tlb: map<nat, Option<Entry>>, m: Memory, a: VAddr, v: nat, size: nat) returns (m': Memory, tlb': map<nat, Option<Entry>>)
    requires TlbFits(tlb, m) && MemoryOk(m) && IsSize(size) && AllMapped(m, a, size)
    ensures Stored(m, m', a, Bytes(v, size)) && TlbFits(tlb', m')
    decreases size
  {
    hide TlbFits, MemoryOk, AllMapped, Loc, Bytes, ShiftRight, Stored, Plus, Mapped;
    FirstMapped(m, a, size);
    AlignedWithin(a, size);
    var e;
    e, tlb' := LookUp(tlb, m, a);
    if (e.io && a % size != 0) || (!e.io && a % PAGE_SIZE + size - 1 >= PAGE_SIZE) {
      m' := m;
      var i := size;
      TailNone(m, a, size);
      while i > 0
        invariant 0 <= i <= size && TailStored(m, m', a, Bytes(v, size), i) && MemoryOk(m') && TlbFits(tlb', m')
      {
        i := i - 1;
        OneMapped(m, m', a, Bytes(v, size), i);
        BytesAt(v, size, i);
        ByteOf(ShiftRight(v, i));
        ghost var was := m';
        m', tlb' := SlowSt(tlb', m', Plus(a, i), ShiftRight(v, i), 1);
        TailStep(m, was, m', a, Bytes(v, size), i);
      }
      TailAll(m, m', a, Bytes(v, size));
    } else {
      m' := StoreDirect(m, e, a, v, size);
      StoredFits(m, m', a, Bytes(v, size), tlb');
    }
  }

  /** Bytes from `i` on have been stored. */
  ghost predicate TailStored(m: Memory, m': Memory, a: VAddr, s: seq<Byte>, i: nat)
    requires MemoryOk(m) && AllMapped(m, a, |s|)
  {
    && m' == m.(ram := m'.ram) && |m'.ram| == |m.ram| && i <= |s|
    && (forall j | i <= j < |s| :: m'.ram[Loc(m, Plus(a, j))] == s[j])
    && (forall l | 0 <= l < |m.ram| && m'.ram[l] != m.ram[l] :: exists j | i <= j < |s| :: Loc(m, Plus(a, j)) == l)
  }

  lemma TailNone(m: Memory, a: VAddr, size: nat)
    requires MemoryOk(m) && AllMapped(m, a, size)
    ensures forall s: seq<Byte> | |s| == size :: TailStored(m, m, a, s, size)
  {
  }

  lemma TailAll(m: Memory, m': Memory, a: VAddr, s: seq<Byte>)
    requires MemoryOk(m) && AllMapped(m, a, |s|) && TailStored(m, m', a, s, 0)
    ensures Stored(m, m', a, s)
  {
  }

  lemma OneMapped(m: Memory, m': Memory, a: VAddr, s: seq<Byte>, i: nat)
    requires MemoryOk(m) && AllMapped(m, a, |s|) && TailStored(m, m', a, s, i + 1) && i < |s|
    ensures AllMapped(m', Plus(a, i), 1)
  {
    PlusPlus0(a, i);
    assert Mapped(m, Plus(a, i));
  }

  lemma PlusPlus0(a: VAddr, i: nat)
    ensures Plus(Plus(a, i), 0) == Plus(a, i)
  {
  }

  lemma ByteOf(v: nat)
    ensures Bytes(v, 1) == [v % 256]
  {
    assert Bytes(v / 256, 0) == [];
  }

  lemma TailStep(m: Memory, was: Memory, m': Memory, a: VAddr, s: seq<Byte>, i: nat)
    requires MemoryOk(m) && AllMapped(m, a, |s|) && |s| <= 8 && i < |s| && TailStored(m, was, a, s, i + 1)
    requires MemoryOk(was) && AllMapped(was, Plus(a, i), 1) && Stored(was, m', Plus(a, i), [s[i]])
    ensures TailStored(m, m', a, s, i) && MemoryOk(m')
  {
    hide Plus;
    PlusPlus0(a, i);
    assert Loc(was, Plus(a, i)) == Loc(m, Plus(a, i));
    assert [s[i]][0] == s[i];
    forall j | i < j < |s| ensures Loc(m, Plus(a, i)) != Loc(m, Plus(a, j)) {
      LocApart(m, a, i, j);
    }
    forall l | 0 <= l < |m.ram| && m'.ram[l] != m.ram[l] ensures exists j | i <= j < |s| :: Loc(m, Plus(a, j)) == l {
      if m'.ram[l] == was.ram[l] {
        var j :| i + 1 <= j < |s| && Loc(m, Plus(a, j)) == l;
      }
    }
  }

  lemma StoredFits(m: Memory, m': Memory, a: VAddr, s: seq<Byte>, tlb: map<nat, Option<Entry>>)
    requires MemoryOk(m) && AllMapped(m, a, |s|) && Stored(m, m', a, s) && TlbFits(tlb, m)
    ensures TlbFits(tlb, m')
  {
  }

  lemma StoredFor(m: Memory, m': Memory, a: VAddr, size: nat)
    requires MemoryOk(m) && AllMapped(m, a, size) && m' == m.(ram := m'.ram) && |m'.ram| == |m.ram|
    ensures MemoryOk(m') && AllMapped(m', a, size)
    ensures forall i | 0 <= i < size :: Loc(m', Plus(a, i)) == Loc(m, Plus(a, i))
  {
  }

  /** A load after a store returns the stored value. */
  lemma LoadAfterStore(m: Memory, m': Memory, a: VAddr, v: nat, size: nat)
    requires MemoryOk(m) && AllMapped(m, a, size) && Stored(m, m', a, Bytes(v, size)) && v < Pow256(size)
    ensures MemoryOk(m') && AllMapped(m', a, size) && Value(Read(m', a, size)) == v
  {
    hide Loc, Bytes, Value, Pow256;
    StoredFor(m, m', a, size);
    assert Read(m', a, size) == Bytes(v, size);
    ValueBytes(v, size);
  }
}

/** The per-page code bitmap (libcpu/src/exec-tb.c: set_bits and the test in
    tb_invalidate_phys_page_fast): one bit per byte of a page, packed in bytes. */
module CodeBitmap {

  predicate ByteBit(b: bv8, j: nat)
    requires j < 8
    decreases j
  {
    if j == 0 then b & 1 == 1 else ByteBit(b >> 1, j - 1)
  }

  predicate Bit(tab: seq<bv8>, i: nat)
    requires i < 8 * |tab|
  {
    ByteBit(tab[i / 8], i % 8)
  }

  lemma {:induction false} BitIs(b: bv8, j: nat)
    requires j < 8
    ensures ByteBit(b, j) <==> b & ((1 as bv8) << j) != 0
  {
    if j == 0 {
    } else {
      BitIs(b >> 1, j - 1);
      var one := [0x01 as bv8, 0x02, 0x04, 0x08, 0x10, 0x20, 0x40, 0x80];
      assert j == 1 || j == 2 || j == 3 || j == 4 || j == 5 || j == 6 || j == 7;
      assert (1 as bv8) << j == one[j] && (1 as bv8) << (j - 1) == one[j - 1];
    }
  }

  lemma BytePairs(a: bv8, b: bv8)
    ensures (a | b) >> 1 == (a >> 1) | (b >> 1) && (a & b) >> 1 == (a >> 1) & (b >> 1)
    ensures (a | b) & 1 == 1 <==> a & 1 == 1 || b & 1 == 1
    ensures (a & b) & 1 == 1 <==> a & 1 == 1 && b & 1 == 1
  {
  }

  lemma {:induction false} OrBit(a: bv8, b: bv8, j: nat)
    requires j < 8
    ensures ByteBit(a | b, j) <==> ByteBit(a, j) || ByteBit(b, j)
  {
    BytePairs(a, b);
    if j == 0 {
    } else {
      OrBit(a >> 1, b >> 1, j - 1);
    }
  }

  lemma {:induction false} AndBit(a: bv8, b: bv8, j: nat)
    requires j < 8
    ensures ByteBit(a & b, j) <==> ByteBit(a, j) && ByteBit(b, j)
  {
    BytePairs(a, b);
    if j == 0 {
    } else {
      AndBit(a >> 1, b >> 1, j - 1);
    }
  }

  /** 0xff << k, the mask that set_bits starts from */
  function HighMask(k: nat): bv8
    requires k < 8
  {
    0xff << k
  }

  function LowMask(k: nat): bv8
    requires k < 8
  {
    !HighMask(k)
  }

  lemma HighBits(k: nat, j: nat)
    requires k < 8 && j < 8
    ensures ByteBit(HighMask(k), j) <==> j >= k
    ensures ByteBit(LowMask(k), j) <==> j < k
  {
    var high := [0xff as bv8, 0xfe, 0xfc, 0xf8, 0xf0, 0xe0, 0xc0, 0x80];
    var one := [0x01 as bv8, 0x02, 0x04, 0x08, 0x10, 0x20, 0x40, 0x80];
    BitIs(0xff << k, j);
    BitIs(!((0xff as bv8) << k), j);
    assert k == 0 || k == 1 || k == 2 || k == 3 || k == 4 || k == 5 || k == 6 || k == 7;
    assert j == 0 || j == 1 || j == 2 || j == 3 || j == 4 || j == 5 || j == 6 || j == 7;
    assert (0xff as bv8) << k == high[k] && (1 as bv8) << j == one[j];
  }

  lemma FullMask()
    ensures HighMask(0) == 0xff
  {
  }

  lemma {:induction false} ZeroBit(j: nat)
    requires j < 8
    ensures !ByteBit(0, j)
  {
    if j == 0 {
    } else {
      ZeroBit(j - 1);
    }
  }

  lemma ZeroTable(tab: seq<bv8>, i: nat)
    requires i < 8 * |tab| && tab[i / 8] == 0
    ensures !Bit(tab, i)
  {
    ZeroBit(i % 8);
  }

  // ---- set_bits ----

  /** Byte `k` of a table, `a` before, after the bits from bit `r` of byte `p` up to bit `t` of byte `q` are set. */
  function MarkAt(a: bv8, k: nat, p: nat, r: nat, q: nat, t: nat): bv8
    requires r < 8 && t < 8
  {
    if k < p || q < k || (k == q && t == 0) then a
    else if k == p == q then a | (HighMask(r) & LowMask(t))
    else if k == p then a | HighMask(r)
    else if k == q then a | LowMask(t)
    else 0xff
  }

  function MarkByte(a: bv8, k: nat, lo: nat, hi: nat): bv8 {
    MarkAt(a, k, lo / 8, lo % 8, hi / 8, hi % 8)
  }

  lemma MarkAtBit(a: bv8, k: nat, p: nat, r: nat, q: nat, t: nat, j: nat)
    requires r < 8 && t < 8 && j < 8 && 8 * p + r <= 8 * q + t
    ensures ByteBit(MarkAt(a, k, p, r, q, t), j) <==> ByteBit(a, j) || 8 * p + r <= 8 * k + j < 8 * q + t
  {
    hide ByteBit, HighMask, LowMask;
    if k < p || q < k || (k == q && t == 0) {
    } else if k == p == q {
      BothBit(a, r, t, j);
    } else if k == p {
      HighOr(a, r, j);
    } else if k == q {
      LowOr(a, t, j);
    } else {
      FullBit(j);
    }
  }

  lemma MarkByteBit(a: bv8, k: nat, lo: nat, hi: nat, j: nat)
    requires lo <= hi && j < 8
    ensures ByteBit(MarkByte(a, k, lo, hi), j) <==> ByteBit(a, j) || lo <= 8 * k + j < hi
  {
    hide ByteBit, MarkAt;
    MarkAtBit(a, k, lo / 8, lo % 8, hi / 8, hi % 8, j);
  }

  lemma BothBit(a: bv8, p: nat, q: nat, j: nat)
    requires p < 8 && q < 8 && j < 8
    ensures ByteBit(a | (HighMask(p) & LowMask(q)), j) <==> ByteBit(a, j) || p <= j < q
  {
    hide ByteBit, HighMask, LowMask;
    HighBits(p, j);
    HighBits(q, j);
    AndBit(HighMask(p), LowMask(q), j);
    OrBit(a, HighMask(p) & LowMask(q), j);
  }

  lemma HighOr(a: bv8, p: nat, j: nat)
    requires p < 8 && j < 8
    ensures ByteBit(a | HighMask(p), j) <==> ByteBit(a, j) || p <= j
  {
    hide ByteBit, HighMask;
    HighBits(p, j);
    OrBit(a, HighMask(p), j);
  }

  lemma LowOr(a: bv8, q: nat, j: nat)
    requires q < 8 && j < 8
    ensures ByteBit(a | LowMask(q), j) <==> ByteBit(a, j) || j < q
  {
    hide ByteBit, LowMask;
    HighBits(q, j);
    OrBit(a, LowMask(q), j);
  }

  lemma FullBit(j: nat)
    requires j < 8
    ensures ByteBit(0xff, j)
  {
    hide ByteBit;
    HighBits(0, j);
    FullMask();
  }

  lemma MarkCases(a: bv8, k: nat, lo: nat, hi: nat)
    requires lo <= hi
    ensures k < lo / 8 || hi <= 8 * k ==> MarkByte(a, k, lo, hi) == a
    ensures k == lo / 8 == hi / 8 && hi > 8 * k ==> MarkByte(a, k, lo, hi) == a | (HighMask(lo % 8) & LowMask(hi % 8))
    ensures k == lo / 8 < hi / 8 ==> MarkByte(a, k, lo, hi) == a | HighMask(lo % 8)
    ensures lo / 8 < k == hi / 8 && hi > 8 * k ==> MarkByte(a, k, lo, hi) == a | LowMask(hi % 8)
    ensures lo / 8 < k < hi / 8 ==> MarkByte(a, k, lo, hi) == 0xff
  {
    hide HighMask, LowMask;
  }

  lemma MarkNothing(was: seq<bv8>, lo: nat)
    requires lo <= 8 * |was|
    ensures MarkedUpto(was, was, |was|, lo, lo)
  {
    forall i | 0 <= i < |was| ensures MarkByte(was[i], i, lo, lo) == was[i] {
      NoBits(was[i], lo % 8);
    }
  }

  lemma NoBits(a: bv8, k: nat)
    requires k < 8
    ensures a | (HighMask(k) & LowMask(k)) == a
  {
    Complement(a, HighMask(k));
  }

  lemma Complement(a: bv8, b: bv8)
    ensures a | (b & !b) == a
  {
  }

  /** Bytes [0, k) are done, the others are as they were. */
  ghost predicate MarkedUpto(was: seq<bv8>, now: seq<bv8>, k: nat, lo: nat, hi: nat) {
    && lo <= hi && |now| == |was| && k <= |was|
    && (forall i | 0 <= i < k :: now[i] == MarkByte(was[i], i, lo, hi))
    && (forall i | k <= i < |was| :: now[i] == was[i])
  }

  lemma MarkNext(was: seq<bv8>, now: seq<bv8>, k: nat, lo: nat, hi: nat, b: bv8)
    requires MarkedUpto(was, now, k, lo, hi) && k < |was| && b == MarkByte(was[k], k, lo, hi)
    ensures MarkedUpto(was, now[k := b], k + 1, lo, hi)
  {
    hide MarkByte;
  }

  /** Bytes outside the range need no marking. */
  lemma MarkedEnds(was: seq<bv8>, now: seq<bv8>, k: nat, lo: nat, hi: nat)
    requires lo <= hi && k <= |was|
    ensures MarkedUpto(was, now, k, lo, hi) && hi <= 8 * k ==> MarkedUpto(was, now, |was|, lo, hi)
    ensures k <= lo / 8 ==> MarkedUpto(was, was, k, lo, hi)
  {
  }

  /** *tab |= mask, for byte k */
  method OrByte(tab: array<bv8>, k: nat, mask: bv8, ghost was: seq<bv8>, ghost lo: nat, ghost hi: nat)
    requires MarkedUpto(was, tab[..], k, lo, hi) && k < tab.Length && MarkByte(was[k], k, lo, hi) == was[k] | mask
    modifies tab
    ensures MarkedUpto(was, tab[..], k + 1, lo, hi)
  {
    hide MarkByte, MarkedUpto;
    ghost var now := tab[..];
    Sizes(was, now, k, lo, hi);
    Untouched(was, now, k, lo, hi);
    MarkNext(was, now, k, lo, hi, was[k] | mask);
    tab[k] := tab[k] | mask;
    assert tab[..] == now[k := was[k] | mask];
  }

  /** The loop over the bytes that are set entirely. */
  method FillBytes(tab: array<bv8>, start: nat, end1: nat, ghost was: seq<bv8>, ghost lo: nat, ghost hi: nat) returns (k: nat)
    requires start % 8 == 0 && end1 % 8 == 0 && start <= end1 <= hi <= 8 * tab.Length && lo / 8 < start / 8 && hi / 8 == end1 / 8
    requires MarkedUpto(was, tab[..], start / 8, lo, hi)
    modifies tab
    ensures k == end1 / 8 && MarkedUpto(was, tab[..], k, lo, hi)
  {
    hide MarkByte, MarkedUpto, HighMask, LowMask;
    var pos := start;
    k := start / 8;
    while pos < end1
      invariant pos % 8 == 0 && k == pos / 8 && start <= pos <= end1
      invariant MarkedUpto(was, tab[..], k, lo, hi)
    {
      ghost var now := tab[..];
      Sizes(was, now, k, lo, hi);
      MarkCases(was[k], k, lo, hi);
      MarkNext(was, now, k, lo, hi, 0xff);
      tab[k] := 0xff;
      assert tab[..] == now[k := 0xff];
      k := k + 1;
      pos := pos + 8;
    }
  }

  lemma Sizes(was: seq<bv8>, now: seq<bv8>, k: nat, lo: nat, hi: nat)
    requires MarkedUpto(was, now, k, lo, hi)
    ensures lo <= hi && |was| == |now|
  {
  }

  lemma Rounds(start: nat, end: nat)
    requires start / 8 < end / 8
    ensures (start + 8) / 8 * 8 % 8 == 0 && (start + 8) / 8 * 8 / 8 == start / 8 + 1
    ensures end / 8 * 8 % 8 == 0 && end / 8 * 8 / 8 == end / 8 && (start + 8) / 8 * 8 <= end / 8 * 8 <= end
  {
  }

  /** set_bits for a range within one byte of the table */
  method SetWithin(tab: array<bv8>, start: nat, end: nat, ghost was: seq<bv8>)
    requires start <= end <= 8 * tab.Length && start / 8 == end / 8 && was == tab[..]
    modifies tab
    ensures MarkedUpto(was, tab[..], |was|, start, end)
  {
    hide HighMask, LowMask, MarkedUpto, MarkByte;
    var k := start / 8;
    if start < end {
      MarkedEnds(was, was, k, start, end);
      MarkCases(was[k], k, start, end);
      OrByte(tab, k, HighMask(start % 8) & LowMask(end % 8), was, start, end);
      MarkedEnds(was, tab[..], k + 1, start, end);
    } else {
      MarkNothing(was, start);
    }
  }

  /** set_bits for a range over several bytes of the table */
  method SetAcross(tab: array<bv8>, start: nat, end: nat, ghost was: seq<bv8>)
    requires start <= end <= 8 * tab.Length && start / 8 < end / 8 && was == tab[..]
    modifies tab
    ensures MarkedUpto(was, tab[..], |was|, start, end)
  {
    hide HighMask, LowMask, MarkedUpto, MarkByte;
    var k := start / 8;
    MarkedEnds(was, was, k, start, end);
    MarkCases(was[k], k, start, end);
    OrByte(tab, k, HighMask(start % 8), was, start, end);
    Rounds(start, end);
    k := FillBytes(tab, (start + 8) / 8 * 8, end / 8 * 8, was, start, end);
    MarkedEnds(was, tab[..], k, start, end);
    if end / 8 * 8 < end {
      MarkCases(was[k], k, start, end);
      OrByte(tab, k, LowMask(end % 8), was, start, end);
      MarkedEnds(was, tab[..], k + 1, start, end);
    }
  }

  /** set_bits: sets exactly the bits of [start, start + len) and disturbs no other. */
  method SetBits(tab: array<bv8>, start: nat, len: nat)
    requires start + len <= 8 * tab.Length
    modifies tab
    ensures forall i | 0 <= i < 8 * tab.Length ::
              Bit(tab[..], i) <==> Bit(old(tab[..]), i) || start <= i < start + len
  {
    hide Bit, MarkedUpto;
    ghost var was := tab[..];
    if start / 8 == (start + len) / 8 {
      SetWithin(tab, start, start + len, was);
    } else {
      SetAcross(tab, start, start + len, was);
    }
    MarkedBits(was, tab[..], start, start + len);
  }

  lemma Untouched(was: seq<bv8>, now: seq<bv8>, k: nat, lo: nat, hi: nat)
    requires MarkedUpto(was, now, k, lo, hi) && k < |was|
    ensures now[k] == was[k]
  {
  }

  lemma MarkedBits(was: seq<bv8>, now: seq<bv8>, lo: nat, hi: nat)
    requires MarkedUpto(was, now, |was|, lo, hi)
    ensures |now| == |was| && forall i | 0 <= i < 8 * |was| :: Bit(now, i) <==> Bit(was, i) || lo <= i < hi
  {
    hide ByteBit, MarkByte;
    forall i | 0 <= i < 8 * |was| ensures Bit(now, i) <==> Bit(was, i) || lo <= i < hi {
      MarkByteBit(was[i / 8], i / 8, lo, hi, i % 8);
      assert 8 * (i / 8) + i % 8 == i;
    }
  }

  // ---- The test before a store ----

  /** The test of tb_invalidate_phys_page_fast for a store of `len` bytes at page offset `off`. */
  predicate FastTest(tab: seq<bv8>, off: nat, len: nat)
    requires off < 8 * |tab| && len <= 8
  {
    ((tab[off / 8] >> (off % 8)) as bv16) & ((1 << len) - 1) != 0
  }

  /** What the test is for: is some stored byte code? */
  ghost predicate AnyBit(tab: seq<bv8>, off: nat, len: nat) {
    exists i | off <= i < off + len && i < 8 * |tab| :: Bit(tab, i)
  }

  lemma ShiftMore(b: bv8, k: nat)
    requires 0 < k < 8
    ensures b >> k == (b >> 1) >> (k - 1)
  {
    assert k == 1 || k == 2 || k == 3 || k == 4 || k == 5 || k == 6 || k == 7;
  }

  lemma {:induction false} ShiftBit(b: bv8, k: nat, j: nat)
    requires k + j < 8
    ensures ByteBit(b >> k, j) <==> ByteBit(b, k + j)
  {
    if k == 0 {
    } else {
      ShiftBit(b >> 1, k - 1, j);
      ShiftMore(b, k);
    }
  }

  lemma {:induction false} LowBits(b: bv8, len: nat)
    requires len <= 8
    ensures (b as bv16) & ((1 << len) - 1) != 0 <==> exists j | 0 <= j < len :: ByteBit(b, j)
  {
    if len == 0 {
    } else {
      LowBits(b, len - 1);
      BitIs(b, len - 1);
      assert len == 1 || len == 2 || len == 3 || len == 4 || len == 5 || len == 6 || len == 7 || len == 8;
    }
  }

  /** The test looks at one byte of the table, so only at stored bytes before the next multiple of 8. */
  lemma FastTestMeans(tab: seq<bv8>, off: nat, len: nat)
    requires off < 8 * |tab| && len <= 8
    ensures FastTest(tab, off, len) <==> exists i | off <= i < off + len && i / 8 == off / 8 :: Bit(tab, i)
  {
    var b, k := tab[off / 8], off % 8;
    LowBits(b >> k, len);
    if FastTest(tab, off, len) {
      var j :| 0 <= j < len && ByteBit(b >> k, j);
      if k + j < 8 {
        ShiftBit(b, k, j);
        assert Bit(tab, off + j);
      } else {
        ShiftedOut(b, k, j);
      }
    }
    if i :| off <= i < off + len && i / 8 == off / 8 && Bit(tab, i) {
      ShiftBit(b, k, i - off);
    }
  }

  lemma {:induction false} ShiftedOut(b: bv8, k: nat, j: nat)
    requires k < 8 && j < 8 && k + j >= 8
    ensures !ByteBit(b >> k, j)
  {
    BitIs(b >> k, j);
    var one := [0x01 as bv8, 0x02, 0x04, 0x08, 0x10, 0x20, 0x40, 0x80];
    assert k == 1 || k == 2 || k == 3 || k == 4 || k == 5 || k == 6 || k == 7;
    assert j == 1 || j == 2 || j == 3 || j == 4 || j == 5 || j == 6 || j == 7;
    assert (1 as bv8) << j == one[j];
  }

  /** The documented condition, len <= 8 and start a multiple of len, is not enough: a
      3-byte store at offset 6 reaches byte 8, which the test does not see. */
  lemma FastTestMissesByte8()
    ensures var tab := [0x00 as bv8, 0x01];
            6 % 3 == 0 && AnyBit(tab, 6, 3) && !FastTest(tab, 6, 3)
  {
    var tab := [0x00 as bv8, 0x01];
    assert Bit(tab, 8);
  }

  /** The test is exact on every bitmap if and only if the stored bytes share one byte of it. */
  lemma FastTestExact(size: nat, off: nat, len: nat)
    requires len <= 8 && off + len <= 8 * size && off < 8 * size
    ensures (forall tab: seq<bv8> | |tab| == size :: FastTest(tab, off, len) <==> AnyBit(tab, off, len))
            <==> off % 8 + len <= 8
  {
    if off % 8 + len <= 8 {
      forall tab: seq<bv8> | |tab| == size ensures FastTest(tab, off, len) <==> AnyBit(tab, off, len) {
        FastTestMeans(tab, off, len);
        forall i | off <= i < off + len ensures i / 8 == off / 8 {}
      }
    } else {
      var tab := seq(size, k => if k == off / 8 + 1 then 0xff as bv8 else 0);
      var i := 8 * (off / 8 + 1);
      HighBits(0, 0);
      assert (0xff as bv8) << 0 == 0xff;
      assert Bit(tab, i) && AnyBit(tab, off, len);
      assert tab[off / 8] == 0;
      ZeroByte(off % 8, len);
      assert !FastTest(tab, off, len);
    }
  }

  lemma ZeroByte(k: nat, len: nat)
    requires k < 8 && len <= 8
    ensures (((0 as bv8) >> k) as bv16) & ((1 << len) - 1) == 0
  {
    assert k == 0 || k == 1 || k == 2 || k == 3 || k == 4 || k == 5 || k == 6 || k == 7;
  }

  /** The sizes stores really have (1, 2, 4 or 8 bytes, aligned) meet the condition. */
  lemma AlignedPowerFits(off: nat, len: nat)
    requires (len == 1 || len == 2 || len == 4 || len == 8) && off % len == 0
    ensures off % 8 + len <= 8
  {
  }
}

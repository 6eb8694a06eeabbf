/** How a translation block enters the code cache and is chained to, and how the whole
    cache is emptied (libcpu/src/exec-tb.c, exec.c). */
module TbInsert {
  import opened Wrappers
  import opened IntrusiveLists
  import opened Tlb
  import opened SmcMachine
  import opened FlushRegion
  import opened CodeBitmap
  import opened PageLists
  import opened TbLinks

  // ---- tlb_protect_code ----

  ghost predicate TlbDomain(tlb: TlbTable, cpus: nat, modes: nat) {
    forall s :: s in tlb <==> s.cpu < cpus && s.mode < modes && s.index < CPU_TLB_SIZE
  }

  /** The loops over CPUs, modes and rows visit `s` before position (cpu, mode, index). */
  predicate Before(s: Slot, cpu: nat, mode: nat, index: nat) {
    s.cpu < cpu || (s.cpu == cpu && (s.mode < mode || (s.mode == mode && s.index < index)))
  }

  /** The loop over the TLBs of all CPUs in cpu_physical_memory_reset_dirty. */
  method ResetDirtyRange(tlb: TlbTable, cpus: nat, modes: nat, first: nat, count: nat) returns (tlb': TlbTable)
    requires TlbDomain(tlb, cpus, modes)
    ensures tlb' == ResetTlb(tlb, first, count)
  {
    tlb' := tlb;
    for cpu := 0 to cpus
      invariant tlb'.Keys == tlb.Keys
      invariant forall s | s in tlb :: tlb'[s] == if Before(s, cpu, 0, 0) then ResetDirty(tlb[s], first, count) else tlb[s]
    {
      for mode := 0 to modes
        invariant tlb'.Keys == tlb.Keys
        invariant forall s | s in tlb :: tlb'[s] == if Before(s, cpu, mode, 0) then ResetDirty(tlb[s], first, count) else tlb[s]
      {
        for i := 0 to CPU_TLB_SIZE
          invariant tlb'.Keys == tlb.Keys
          invariant forall s | s in tlb :: tlb'[s] == if Before(s, cpu, mode, i) then ResetDirty(tlb[s], first, count) else tlb[s]
        {
          var s := Slot(cpu, mode, i);
          tlb' := tlb'[s := ResetDirty(tlb'[s], first, count)];
        }
      }
    }
  }

  /** cpu_physical_memory_mask_dirty_range */
  method MaskDirty(dirty: seq<bv8>, first: nat, count: nat, mask: bv8) returns (dirty': seq<bv8>)
    requires first + count <= |dirty|
    ensures dirty' == Masked(dirty, first, count, mask)
  {
    dirty' := dirty;
    for i := 0 to count
      invariant dirty' == Masked(dirty, first, i, mask)
    {
      dirty' := dirty'[first + i := dirty'[first + i] & !mask];
    }
  }

  // ---- tb_link_page ----

  method LinkHash(ghost live: map<TbId, Tb>, hash: ListTable<nat, TbId>, tb: Tb, t: TbId,
                  ghost lists: map<nat, seq<TbId>>, ghost owner: map<TbId, nat>)
    returns (hash': ListTable<nat, TbId>, ghost lists': map<nat, seq<TbId>>, ghost owner': map<TbId, nat>)
    requires HashOk(live, hash, lists, owner) && t !in live
    ensures HashOk(live[t := tb], hash', lists', owner')
    ensures hash'.heads.Keys == hash.heads.Keys == lists.Keys
    ensures HashOf(tb) in lists && lists' == lists[HashOf(tb) := [t] + lists[HashOf(tb)]]
    ensures hash'.heads[HashOf(tb)] == Some(t)
    ensures forall n | n in hash.next && n != t :: n in hash'.next && hash'.next[n] == hash.next[n]
  {
    hide Represents;
    Filed(hash, lists, owner, t);
    hash', lists' := Push(hash, HashOf(tb), t, lists, owner);
    owner' := owner[t := HashOf(tb)];
  }

  ghost function Pushed(lists: map<nat, seq<Link>>, p: nat, l: Link): map<nat, seq<Link>> {
    lists[p := [l] + if p in lists then lists[p] else []]
  }

  /** tb_alloc_page; `first` tells that the page had no TB before. */
  method AllocPage(pages: PageDescs, dirty: seq<bv8>, tlb: TlbTable, l: Link, p: nat, cpus: nat, modes: nat,
                   ghost lists: map<nat, seq<Link>>, ghost owner: map<Link, nat>)
    returns (pages': PageDescs, dirty': seq<bv8>, tlb': TlbTable, ghost first: bool, ghost lists': map<nat, seq<Link>>)
    requires Represents(pages.table, lists, owner) && pages.counts.Keys == pages.table.heads.Keys
    requires l !in owner && p < |dirty| && TlbDomain(tlb, cpus, modes)
    ensures Represents(pages'.table, lists', owner[l := p])
    ensures lists' == Pushed(lists, p, l)
    ensures pages'.counts.Keys == pages'.table.heads.Keys == pages.table.heads.Keys + {p}
    ensures pages'.bitmaps == pages.bitmaps - {p} && pages'.counts == pages.counts[p := 0]
    ensures first <==> forall m | m in owner :: owner[m] != p
    ensures dirty' == if first then dirty[p := dirty[p] & 0xfd] else dirty
    ensures tlb' == if first then ResetTlb(tlb, p, 1) else tlb
  {
    hide Represents, TlbDomain, ResetTlb;
    var table, counts := pages.table, pages.counts;
    lists' := lists;
    if p !in table.heads {
      table, counts := table.(heads := table.heads[p := None]), counts[p := 0];
      lists' := lists[p := []];
      NewList(pages.table, p, lists, owner);
    }
    ghost var s := ListOf(table, p, lists', owner);
    var head := table.heads[p];
    first := head.None?;
    assert first <==> forall m | m in owner :: owner[m] != p by {
      if head.Some? { assert s[0] in s; }
    }
    table, lists' := Push(table, p, l, lists', owner);
    pages' := PageDescs(table, pages.bitmaps - {p}, counts[p := 0]);
    assert pages'.counts == pages.counts[p := 0];
    ListKeys(pages.table, lists, owner);
    dirty', tlb' := dirty, tlb;
    if head.None? {
      dirty' := dirty[p := dirty[p] & 0xfd];
      tlb' := ResetDirtyRange(tlb, cpus, modes, p, 1);
    }
  }

  lemma NewList<K(!new), N(!new)>(t: ListTable<K, N>, k: K, lists: map<K, seq<N>>, owner: map<N, K>)
    requires Represents(t, lists, owner) && k !in t.heads
    ensures Represents(t.(heads := t.heads[k := None]), lists[k := []], owner)
  {
    assert t.heads.Keys == lists.Keys;
    forall j | j in lists ensures j != k && Chain(t.heads[j], t.next, lists[j]) && Distinct(lists[j]) {}
  }

  /** The page half of tb_link_page. If both pages are one, the second entry finds the page protected. */
  method LinkPages(pages: PageDescs, dirty: seq<bv8>, tlb: TlbTable, t: TbId, tb: Tb, cpus: nat, modes: nat,
                   ghost m: Machine, ghost lists: map<nat, seq<Link>>, ghost owner: map<Link, nat>)
    returns (pages': PageDescs, dirty': seq<bv8>, tlb': TlbTable, ghost lists': map<nat, seq<Link>>, ghost owner': map<Link, nat>)
    requires PagesOk(m.live, pages, lists, owner) && t !in m.live && WfTb(tb, |dirty|)
    requires m.dirty == dirty && m.tlb == tlb && m.descs == pages.table.heads.Keys && TlbDomain(tlb, cpus, modes)
    ensures PagesOk(m.live[t := tb], pages', lists', owner')
    ensures pages'.bitmaps == pages.bitmaps - {tb.page0} - (if tb.page1.Some? then {tb.page1.value} else {})
    ensures m.(live := m.live[t := tb], descs := pages'.table.heads.Keys, dirty := dirty', tlb := tlb') == LinkTb(m, t, tb)
  {
    hide Represents, TlbDomain, ResetTlb, PageOwners, HasCode, ProtectIfFirst, LinkTb, WfTb, AllPaired, Pushed;
    ghost var first0, first1;
    PageBounds(tb, |dirty|);
    NotListed(m.live, owner, t);
    FirstOnPage(m.live, owner, tb.page0);
    pages', dirty', tlb', first0, lists' := AllocPage(pages, dirty, tlb, Link(t, 0), tb.page0, cpus, modes, lists, owner);
    owner' := owner[Link(t, 0) := tb.page0];
    ProtectIs(m, m.live, tb.page0, first0);
    ghost var m1 := m.(descs := pages'.table.heads.Keys, dirty := dirty', tlb := tlb');
    assert m1 == ProtectIfFirst(m, m.live, tb.page0);
    LinkIs(m, t, tb, m1);
    if tb.page1.Some? {
      ResetDomain(tlb, cpus, modes, tb.page0, 1);
      pages', dirty', tlb', first1, lists' :=
        AllocPage(pages', dirty', tlb', Link(t, 1), tb.page1.value, cpus, modes, lists', owner');
      SecondPage(m, m1, owner, owner', t, tb, first1);
      owner' := owner'[Link(t, 1) := tb.page1.value];
      assert m1.(descs := pages'.table.heads.Keys, dirty := dirty', tlb := tlb') == ProtectIfFirst(m1, m.live, tb.page1.value);
    }
    PairedMore(pages.table, lists, owner, t, tb);
    AddOwner(m.live, owner, t, tb);
  }

  lemma PageBounds(tb: Tb, pages: nat)
    requires WfTb(tb, pages)
    ensures tb.page0 < pages && (tb.page1.Some? ==> tb.page1.value < pages)
  {
  }

  /** What tb_alloc_page does to the second page is what the plain machine does: protecting a page twice is
      protecting it once. */
  lemma SecondPage(m: Machine, m1: Machine, owner: map<Link, nat>, owner': map<Link, nat>, t: TbId, tb: Tb, first: bool)
    requires PageOwners(m.live, owner) && tb.page1.Some? && tb.page0 < |m.dirty| && tb.page1.value < |m.dirty|
    requires m1 == ProtectIfFirst(m, m.live, tb.page0) && |m1.dirty| == |m.dirty|
    requires Link(t, 0) !in owner && owner' == owner[Link(t, 0) := tb.page0]
    requires first <==> forall l | l in owner' :: owner'[l] != tb.page1.value
    ensures ProtectIfFirst(m1, m.live, tb.page1.value) ==
      m1.(descs := m1.descs + {tb.page1.value},
          dirty := if first then m1.dirty[tb.page1.value := m1.dirty[tb.page1.value] & 0xfd] else m1.dirty,
          tlb := if first then ResetTlb(m1.tlb, tb.page1.value, 1) else m1.tlb)
  {
    hide HasCode, PageOwners, ResetTlb;
    var p, q := tb.page0, tb.page1.value;
    FirstOnPage(m.live, owner, q);
    forall l | l in owner ensures l in owner' && owner'[l] == owner[l] {}
    if p == q {
      assert owner'[Link(t, 0)] == q;
      Again(m, p);
    } else {
      assert first <==> !HasCode(m.live, q);
    }
  }

  lemma Again(m: Machine, p: nat)
    requires p < |m.dirty|
    ensures var m1 := Protect(m, p); m1.(dirty := m1.dirty[p := m1.dirty[p] & 0xfd], tlb := ResetTlb(m1.tlb, p, 1)) == m1
  {
    var m1 := Protect(m, p);
    DirtyBits(m.dirty[p]);
    assert m1.dirty[p] & 0xfd == m1.dirty[p];
    assert m1.dirty[p := m1.dirty[p] & 0xfd] == m1.dirty;
    assert ResetTlb(m1.tlb, p, 1) == m1.tlb;
  }

  /** The new TB is on each list once, or twice in a row in the right order. */
  lemma PairedMore(table: ListTable<nat, Link>, lists: map<nat, seq<Link>>, owner: map<Link, nat>, t: TbId, tb: Tb)
    requires Represents(table, lists, owner) && AllPaired(lists) && forall l | l in owner :: l.tb != t
    ensures var one := Pushed(lists, tb.page0, Link(t, 0));
      AllPaired(one) && (tb.page1.Some? ==> AllPaired(Pushed(one, tb.page1.value, Link(t, 1))))
  {
    hide Represents, Paired;
    forall p | p in lists ensures Paired(lists[p]) && !Lists(lists[p], t) {
      ListKeys(table, lists, owner);
      var s := ListOf(table, p, lists, owner);
      forall i | 0 <= i < |s| ensures s[i].tb != t { assert s[i] in s; }
    }
    PairedEmpty(t);
    var p := tb.page0;
    var s := if p in lists then lists[p] else [];
    PairedPush(s, t);
    var one := Pushed(lists, p, Link(t, 0));
    if tb.page1.Some? {
      var q := tb.page1.value;
      PairedPush(if q in lists then lists[q] else [], t);
    }
  }

  lemma PairedEmpty(t: TbId)
    ensures Paired([]) && !Lists([], t)
  {
  }

  lemma PairedPush(s: seq<Link>, t: TbId)
    requires Paired(s) && !Lists(s, t)
    ensures Paired([Link(t, 0)] + s) && Paired([Link(t, 1)] + s) && Paired([Link(t, 1)] + ([Link(t, 0)] + s))
  {
    forall n: nat ensures Paired([Link(t, n)] + s) {
      assert ([Link(t, n)] + s)[1..] == s;
      if s != [] { assert s[0].tb != t; }
    }
    var one := [Link(t, 0)] + s;
    var two := [Link(t, 1)] + one;
    assert two[1..] == one && two[2..] == s && two[1].tb == two[0].tb;
  }

  lemma ProtectIs(m: Machine, live: map<TbId, Tb>, p: nat, first: bool)
    requires p < |m.dirty| && (first <==> !HasCode(live, p))
    ensures ProtectIfFirst(m, live, p) ==
      m.(descs := m.descs + {p}, dirty := if first then m.dirty[p := m.dirty[p] & 0xfd] else m.dirty,
         tlb := if first then ResetTlb(m.tlb, p, 1) else m.tlb)
  {
    hide HasCode, ResetTlb;
  }

  lemma LinkIs(m: Machine, t: TbId, tb: Tb, m1: Machine)
    requires WfTb(tb, |m.dirty|) && tb.page0 < |m.dirty| && m1 == ProtectIfFirst(m, m.live, tb.page0) && |m1.dirty| == |m.dirty|
    requires tb.page1.Some? ==> tb.page1.value < |m.dirty|
    ensures LinkTb(m, t, tb) == (if tb.page1.Some? then ProtectIfFirst(m1, m.live, tb.page1.value) else m1).(live := m.live[t := tb])
  {
    hide ProtectIfFirst;
  }

  lemma ResetDomain(tlb: TlbTable, cpus: nat, modes: nat, first: nat, count: nat)
    requires TlbDomain(tlb, cpus, modes)
    ensures TlbDomain(ResetTlb(tlb, first, count), cpus, modes)
  {
  }

  lemma NotListed(live: map<TbId, Tb>, owner: map<Link, nat>, t: TbId)
    requires PageOwners(live, owner) && t !in live
    ensures forall l | l in owner :: l.tb != t
  {
  }

  lemma FirstOnPage(live: map<TbId, Tb>, owner: map<Link, nat>, p: nat)
    requires PageOwners(live, owner)
    ensures HasCode(live, p) <==> exists l | l in owner :: owner[l] == p
  {
    if HasCode(live, p) {
      var t :| t in live && OnPage(live[t], p);
      assert Link(t, if live[t].page0 == p then 0 else 1) in owner;
    }
    if l :| l in owner && owner[l] == p {
      assert OnPage(live[l.tb], p);
    }
  }

  lemma AddOwner(live: map<TbId, Tb>, owner: map<Link, nat>, t: TbId, tb: Tb)
    requires PageOwners(live, owner) && t !in live
    ensures PageOwners(live[t := tb], if tb.page1.None? then owner[Link(t, 0) := tb.page0]
                                      else owner[Link(t, 0) := tb.page0][Link(t, 1) := tb.page1.value])
  {
  }

  /** A new TB is not chained to anything and nothing is chained to it. */
  method NewJumps(ghost live: map<TbId, Tb>, ghost tbs: map<TbId, Tb>, jumps: JumpState, t: TbId, ghost tb: Tb,
                  ghost lists: map<TbId, seq<Link>>, ghost chained: map<Link, TbId>)
    returns (jumps': JumpState, ghost lists': map<TbId, seq<Link>>)
    requires JumpsOk(live, tbs, jumps, lists, chained) && WfJumps(live, chained) && t !in tbs && t !in live
    ensures JumpsOk(live[t := tb], tbs[t := tb], jumps', lists', chained)
  {
    hide Represents;
    var none := JmpDest(None, false);
    jumps' := JumpState(jumps.table.(heads := jumps.table.heads[t := None]),
                        jumps.dest[Link(t, 0) := none][Link(t, 1) := none],
                        jumps.target[Link(t, 0) := None][Link(t, 1) := None]);
    lists' := lists[t := []];
    NewList(jumps.table, t, lists, chained);
  }

  /** Bitmaps of the pages that the new TB is not on stay exact. */
  lemma BitmapsWith(live: map<TbId, Tb>, pages: nat, bitmaps: map<nat, seq<bv8>>, bitmaps': map<nat, seq<bv8>>, t: TbId, tb: Tb)
    requires WfTbs(live, pages) && BitmapsOk(live, bitmaps, {}) && WfTb(tb, pages) && t !in live
    requires bitmaps' == bitmaps - {tb.page0} - (if tb.page1.Some? then {tb.page1.value} else {})
    ensures WfTbs(live[t := tb], pages) && BitmapsOk(live[t := tb], bitmaps', {})
  {
    var more := live[t := tb];
    forall p | p in bitmaps' ensures BitmapExact(more, p, bitmaps'[p]) && HasCode(more, p) {
      var u :| u in live && OnPage(live[u], p);
      assert more[u] == live[u];
      assert more - {t} == live;
      forall i | 0 <= i < PAGE_SIZE ensures Bit(bitmaps'[p], i) <==> IsCode(more, p * PAGE_SIZE + i) {
        IsCodeWithout(more, pages, t, p, i);
      }
    }
  }

  /** tb_link_page, for a TB that tb_alloc has just returned */
  method LinkPage(k: Links, dirty: seq<bv8>, tlb: TlbTable, t: TbId, tb: Tb, ghost x: Index, cpus: nat, modes: nat, ghost ram: seq<bv8>)
    returns (k': Links, dirty': seq<bv8>, tlb': TlbTable, ghost x': Index)
    requires Linked(k, x, cpus, |dirty|, {}) && t !in k.tbs && WfTb(tb, |dirty|) && TlbDomain(tlb, cpus, modes)
    ensures ViewOf(k', x', dirty', tlb', ram) == LinkTb(ViewOf(k, x, dirty, tlb, ram), t, tb)
    ensures |dirty'| == |dirty| && TlbDomain(tlb', cpus, modes) && k'.cache == k.cache
    ensures HashOf(tb) in k'.hash.heads && k'.hash.heads[HashOf(tb)] == Some(t)
    ensures forall n | n in k.hash.next && n != t :: n in k'.hash.next && k'.hash.next[n] == k.hash.next[n]
    ensures HashOf(tb) in x.hashLists && x'.hashLists == x.hashLists[HashOf(tb) := [t] + x.hashLists[HashOf(tb)]]
    ensures Linked(k', x', cpus, |dirty|, {}) && k'.tbs == k.tbs[t := tb]
  {
    hide HashOk, PagesOk, JumpsOk, BitmapsOk, TlbDomain, WfTb, LinkTb;
    assert t !in x.live;
    var hash; ghost var hashLists, hashOwner;
    hash, hashLists, hashOwner := LinkHash(x.live, k.hash, tb, t, x.hashLists, x.hashOwner);
    var pages; ghost var pageLists, pageOwner;
    ghost var m := ViewOf(k, x, dirty, tlb, ram);
    pages, dirty', tlb', pageLists, pageOwner := LinkPages(k.pages, dirty, tlb, t, tb, cpus, modes, m, x.pageLists, x.pageOwner);
    var jumps; ghost var jumpLists;
    jumps, jumpLists := NewJumps(x.live, k.tbs, k.jumps, t, tb, x.jumpLists, x.chained);
    k' := Links(k.tbs[t := tb], hash, pages, jumps, k.cache);
    x' := Index(x.live[t := tb], x.chained, hashLists, hashOwner, pageLists, pageOwner, jumpLists);
    BitmapsWith(x.live, |dirty|, k.pages.bitmaps, pages.bitmaps, t, tb);
    LinkShape(m, t, tb, cpus, modes);
  }

  lemma LinkShape(m: Machine, t: TbId, tb: Tb, cpus: nat, modes: nat)
    requires WfTb(tb, |m.dirty|) && TlbDomain(m.tlb, cpus, modes)
    ensures var r := LinkTb(m, t, tb); |r.dirty| == |m.dirty| && TlbDomain(r.tlb, cpus, modes) && r.jumps == m.jumps && r.ram == m.ram
  {
    hide HasCode, ResetTlb, TlbDomain;
    var m1 := ProtectIfFirst(m, m.live, tb.page0);
    ResetDomain(m.tlb, cpus, modes, tb.page0, 1);
    if tb.page1.Some? {
      ResetDomain(m1.tlb, cpus, modes, tb.page1.value, 1);
    }
  }

  // ---- tb_add_jump ----

  /** tb_add_jump: the jump is patched and filed unless it already has a destination or its TB
      was invalidated, which the tag on jmp_dest tells. */
  method ChainJumps(jumps: JumpState, l: Link, dest: TbId, ghost live: map<TbId, Tb>, ghost tbs: map<TbId, Tb>,
                    ghost lists: map<TbId, seq<Link>>, ghost chained: map<Link, TbId>)
    returns (jumps': JumpState, ghost lists': map<TbId, seq<Link>>, ghost chained': map<Link, TbId>)
    requires JumpsOk(live, tbs, jumps, lists, chained) && WfJumps(live, chained) && dest in live && dest in tbs && l.n < 2 && l.tb in tbs
    ensures JumpsOk(live, tbs, jumps', lists', chained') && WfJumps(live, chained')
    ensures chained' == if l.tb in live && l !in chained then chained[l := dest] else chained
  {
    hide Represents;
    jumps', lists', chained' := jumps, lists, chained;
    if jumps.dest[l] != JmpDest(None, false) {
      return;
    }
    var table;
    table, lists' := Push(jumps.table, dest, l, lists, chained);
    jumps' := JumpState(table, jumps.dest[l := JmpDest(Some(dest), false)], jumps.target[l := Some(dest)]);
    chained' := chained[l := dest];
  }

  method AddJump(k: Links, l: Link, dest: TbId, ghost x: Index, ghost cpus: nat, ghost pages: nat)
    returns (k': Links, ghost x': Index)
    requires Linked(k, x, cpus, pages, {}) && dest in x.live && l.n < 2 && l.tb in k.tbs
    ensures x'.live == x.live
    ensures x'.chained == if l.tb in x.live && l !in x.chained then x.chained[l := dest] else x.chained
    ensures Linked(k', x', cpus, pages, {}) && k' == k.(jumps := k'.jumps)
  {
    hide HashOk, PagesOk, JumpsOk, CacheOk, BitmapsOk, WfTb, WfJumps;
    var jumps; ghost var lists, chained;
    jumps, lists, chained := ChainJumps(k.jumps, l, dest, x.live, k.tbs, x.jumpLists, x.chained);
    k' := k.(jumps := jumps);
    x' := x.(chained := chained, jumpLists := lists);
  }

  // ---- tb_flush ----

  function Cleared<X, Y>(m: map<X, Option<Y>>): map<X, Option<Y>> {
    map x | x in m :: None
  }

  lemma ClearedLists<K(!new), N(!new)>(t: ListTable<K, N>)
    ensures Represents(t.(heads := Cleared(t.heads)), map k | k in t.heads :: [], map[])
  {
  }

  /** tb_flush: no structure leads to any TB any more. */
  method FlushAll(k: Links, ghost x: Index, ghost cpus: nat, ghost pages: nat) returns (k': Links, ghost x': Index)
    requires Linked(k, x, cpus, pages, {})
    ensures x'.live == map[] && x'.chained == map[] && k'.pages.table.heads.Keys == k.pages.table.heads.Keys
    ensures forall c | c in k'.cache :: k'.cache[c] == None
    ensures k'.pages.bitmaps == map[] && k'.pages.counts.Keys == k.pages.table.heads.Keys && forall p | p in k'.pages.counts :: k'.pages.counts[p] == 0
    ensures Linked(k', x', cpus, pages, {}) && k'.tbs == map[] && k'.hash.next == k.hash.next
  {
    hide HashOk, PagesOk, JumpsOk, CacheOk, BitmapsOk, Represents, WfTbs, WfJumps, Submap;
    var hash := k.hash.(heads := Cleared(k.hash.heads));
    var table := k.pages.table.(heads := Cleared(k.pages.table.heads));
    var pages' := PageDescs(table, map[], map p | p in table.heads :: 0);
    var jumps := JumpState(ListTable(map[], k.jumps.table.next), map[], map[]);
    k' := Links(map[], hash, pages', jumps, Cleared(k.cache));
    x' := Index(map[], map[], map h | h in k.hash.heads :: [], map[], map p | p in k.pages.table.heads :: [], map[], map[]);
    NoHash(x.live, k.hash, x.hashLists, x.hashOwner);
    ClearedLists(k.pages.table);
    NoPages(pages', x'.pageLists);
    NoJumps(jumps);
    NoTbs(x.live, cpus, pages, k.cache);
  }

  lemma NoTbs(live: map<TbId, Tb>, cpus: nat, pages: nat, cache: map<CacheSlot, Option<TbId>>)
    requires CacheOk(live, cpus, cache)
    ensures CacheOk(map[], cpus, Cleared(cache)) && BitmapsOk(map[], map[], {})
    ensures WfTbs(map[], pages) && WfJumps(map[], map[])
    ensures forall tbs: map<TbId, Tb> :: Submap(map[], tbs)
  {
  }

  lemma NoHash(live: map<TbId, Tb>, hash: ListTable<nat, TbId>, lists: map<nat, seq<TbId>>, owner: map<TbId, nat>)
    requires HashOk(live, hash, lists, owner)
    ensures HashOk(map[], hash.(heads := Cleared(hash.heads)), map h | h in hash.heads :: [], map[])
  {
    hide Represents;
    ClearedLists(hash);
  }

  lemma NoPages(pages: PageDescs, lists: map<nat, seq<Link>>)
    requires Represents(pages.table, lists, map[]) && pages.counts.Keys == pages.table.heads.Keys
    requires forall p | p in lists :: lists[p] == []
    ensures PagesOk(map[], pages, lists, map[])
  {
    hide Represents;
  }

  lemma NoJumps(jumps: JumpState)
    requires jumps.table.heads == map[] && jumps.dest == map[] && jumps.target == map[]
    ensures JumpsOk(map[], map[], jumps, map[], map[])
  {
  }
}

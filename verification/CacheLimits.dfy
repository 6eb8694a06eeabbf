/** Where the code cache goes wrong (libcpu/src/cpu-exec.c, exec-tb.c), each as a sequence of calls. */
module CacheLimits {
  import opened Wrappers
  import opened Tlb
  import opened SmcMachine
  import opened FlushRegion
  import opened TbLinks
  import opened TbInsert
  import opened TbLookup
  import opened TlbFlush
  import Cache = CodeCache

  function TwoPages(p: nat, q: nat): Mapping {
    map[CpuPage(0, 7) := p, CpuPage(0, 8) := q]
  }

  /** Two bytes at the end of virtual page 7 and the start of page 8. */
  function Straddling(csBase: nat, flags: nat): Key {
    Key(8 * PAGE_SIZE - 1, csBase, flags, false, 0)
  }

  lemma Remapped(p: nat, q: nat, r: nat)
    ensures SameButCpu(map[], TwoPages(p, q), 0) && SameButPage(TwoPages(p, q), TwoPages(p, r), 0, 8)
    ensures MapsTo(TwoPages(p, q), 0, 7, p) && MapsTo(TwoPages(p, q), 0, 8, q)
  {
  }

  /** The first TB of an empty cache lies on both pages. */
  lemma FirstFetch(m: Machine, m': Machine, key: Key, page1: nat, t: TbId)
    requires m.live == map[] && Cache.FetchStep(m, m', key, 2, page1, false, t) && PageOff(key.pc) == PAGE_SIZE - 1
    ensures m'.live.Keys == {t} && m'.live[t].pc == key.pc && m'.live[t].size == 2
    ensures m'.live[t].page0 == key.page0 && m'.live[t].page1 == Some(page1)
  {
    hide WfTb, LinkTb, Matches;
    var tb :| Cache.Translated(tb, m, key, 2, page1) && m' == LinkTb(AfterFlush(m, false), t, tb);
    Linking(AfterFlush(m, false), t, tb);
  }

  /** Code runs over the virtual pages 7 and 8. The guest maps page 8 to another RAM page and flushes it, as it
      must. Yet the old TB is found again, although a search that minded the second page would find none. */
  method StaleSecondPage(csBase: nat, flags: nat) returns (c: Cache.CodeCache, r: TbId)
    ensures var key := Straddling(csBase, flags);
      && c.Valid() && c.maps == TwoPages(0, 2) && Cache.RunsAt(c.View(), r, key)
      && c.View().live[r].page1 == Some(1) && Cache.CodeIfPlaced(c.View(), r, 0, c.maps)
      && !AlwaysGuestCode(c.View().live[r], |c.dirty|, 0, c.maps)
      && KeyHash(key) in c.index.hashLists
      && FirstPlaced(c.links.tbs, c.index.hashLists[KeyHash(key)], key, 0, c.maps) == None
  {
    hide Linked, TlbDomain, Inv, CacheFits, Wf, LinkTb, WfTb, Matches, AlwaysGuestCode, KeyHash, TwoPages, SameButCpu, SameButPage,
         Cache.FetchStep, Cache.JumpsFit, Cache.AllCovered, Cache.IdsBelow, DropSlots, FirstPlaced, NoneReach, Cache.NoLargeLeft, NoEntryFor, Fewer;
    var key := Straddling(csBase, flags);
    Remapped(0, 1, 2);
    Remapped(0, 2, 2);
    c := new Cache.CodeCache(1, 1, seq(3 * PAGE_SIZE, _ => 0));
    c.FlushTlb(0, TwoPages(0, 1));
    ghost var m, t := c.View(), c.nextId;
    r := c.Fetch(0, key, 1, 2, false);
    FirstFetch(m, c.View(), key, 1, t);
    ghost var live := c.View().live;
    c.FlushPage(0, 8 * PAGE_SIZE, TwoPages(0, 2));
    m, t := c.View(), c.nextId;
    r := c.Fetch(0, key, 2, 2, false);
    NextFetch(m, c.View(), key, 2, t);
    assert c.View().live == live;
    Stale(c.links, c.index, |c.dirty|, key, c.maps, r);
  }

  lemma NextFetch(m: Machine, m': Machine, key: Key, page1: nat, t: TbId)
    requires Cache.FetchStep(m, m', key, 2, page1, false, t)
    ensures !Cache.NoMatch(m.live, key) ==> m' == m
  {
    hide LinkTb;
  }

  lemma Stale(k: Links, x: Index, pages: nat, key: Key, maps: Mapping, t: TbId)
    requires Linked(k, x, 1, pages, {}) && x.live.Keys == {t} && maps == TwoPages(0, 2)
    requires x.live[t].page1 == Some(1) && x.live[t].pc == key.pc && key.pc == 8 * PAGE_SIZE - 1
    ensures !Placed(x.live[t], 0, maps, true)
    ensures KeyHash(key) in x.hashLists && FirstPlaced(k.tbs, x.hashLists[KeyHash(key)], key, 0, maps) == None
  {
    hide Linked, KeyHash;
    Bucket(k, x, 1, pages, KeyHash(key));
    NonePlaced(k.tbs, x.hashLists[KeyHash(key)], key, 0, maps);
  }

  /** Both virtual pages lead to one RAM page, and that page is overwritten. The TB is met twice on the list of the
      page: the first time it is invalidated, the second time its invalidation fails. */
  method InvalidatedTwice(csBase: nat, flags: nat) returns (ok: bool)
    ensures !ok
  {
    hide Linked, TlbDomain, Inv, CacheFits, Wf, LinkTb, WfTb, Matches, AlwaysGuestCode, KeyHash, TwoPages, SameButCpu, SameButPage,
         Cache.FetchStep, Cache.JumpsFit, Cache.AllCovered, Cache.IdsBelow, DropSlots, NoneReach, AnyTwice;
    var key := Straddling(csBase, flags);
    Remapped(0, 0, 0);
    var c := new Cache.CodeCache(1, 1, seq(PAGE_SIZE, _ => 0));
    c.FlushTlb(0, TwoPages(0, 0));
    ghost var m, t := c.View(), c.nextId;
    var r := c.Fetch(0, key, 0, 2, false);
    FirstFetch(m, c.View(), key, 0, t);
    Overwritten(c.index.live, t, key);
    ok := c.Invalidate(0, PAGE_SIZE);
  }

  lemma Overwritten(live: map<TbId, Tb>, t: TbId, key: Key)
    requires t in live && live[t].size == 2 && live[t].pc == key.pc && PageOff(key.pc) == PAGE_SIZE - 1
    requires live[t].page0 == 0 && live[t].page1 == Some(0)
    ensures AnyTwice(live, 0, PAGE_SIZE)
  {
    var tb := live[t];
    assert InPart(tb, 0, 0) && SrcAddr(tb, 0) == PAGE_SIZE - 1 && InPart(tb, 1, 1) && SrcAddr(tb, 1) == 0;
    assert TwiceHit(tb, 0, PAGE_SIZE);
  }
}

/** Everything that leads to a translation block, and how a block is taken out of it
    (libcpu/src/exec-tb.c).

    TBs are found through a physical hash table, the lists of the TBs on each physical
    page, the lists of the jumps into each TB, a bitmap of the code bytes of each page and
    a cache indexed by virtual pc. The methods follow and rewrite the same links as the C
    code; `Linked` says what the links stand for, and the invalidation methods are proved
    to take the steps of `SmcMachine`.
 */
module TbLinks {
  import opened Wrappers
  import opened IntrusiveLists
  import opened Tlb
  import opened SmcMachine
  import opened CodeBitmap
  import opened FlushRegion
  import opened PageLists

  const CODE_GEN_PHYS_HASH_SIZE: nat := 32768
  const SMC_BITMAP_USE_THRESHOLD: nat := 10

  /** jmp_dest[n]: a TB pointer whose low bit tells that the source TB is being invalidated. */
  datatype JmpDest = JmpDest(ptr: Option<TbId>, tag: bool)

  datatype CacheSlot = CacheSlot(cpu: nat, hash: nat)

  /** tb_phys_hash_func of the TB's physical pc */
  function HashOf(tb: Tb): (h: nat)
    ensures h < CODE_GEN_PHYS_HASH_SIZE
  {
    (tb.page0 * PAGE_SIZE + PageOff(tb.pc)) / 4 % CODE_GEN_PHYS_HASH_SIZE
  }

  /** TBs that start in the same 128 KB of RAM are in one bucket if and only if they start in one word. */
  lemma BucketsApart(a: Tb, b: Tb)
    requires var x, y := (a.page0 * PAGE_SIZE + PageOff(a.pc)) / 4, (b.page0 * PAGE_SIZE + PageOff(b.pc)) / 4;
      x - CODE_GEN_PHYS_HASH_SIZE < y < x + CODE_GEN_PHYS_HASH_SIZE
    ensures HashOf(a) == HashOf(b) <==> (a.page0 * PAGE_SIZE + PageOff(a.pc)) / 4 == (b.page0 * PAGE_SIZE + PageOff(b.pc)) / 4
  {
    ModApart((a.page0 * PAGE_SIZE + PageOff(a.pc)) / 4, (b.page0 * PAGE_SIZE + PageOff(b.pc)) / 4);
  }

  lemma ModApart(x: nat, y: nat)
    requires x - CODE_GEN_PHYS_HASH_SIZE < y < x + CODE_GEN_PHYS_HASH_SIZE
    ensures x % CODE_GEN_PHYS_HASH_SIZE == y % CODE_GEN_PHYS_HASH_SIZE <==> x == y
  {
  }

  predicate IsPageLink(live: map<TbId, Tb>, l: Link) {
    l.tb in live && (l.n == 0 || (l.n == 1 && live[l.tb].page1.Some?))
  }

  function PageOfLink(tb: Tb, n: nat): nat
    requires n == 0 || tb.page1.Some?
  {
    if n == 0 then tb.page0 else tb.page1.value
  }

  /** The PageDescs: first_tb of each with page_next of the TBs, the code_bitmap of those that
      have one, and code_write_count. */
  datatype PageDescs = PageDescs(table: ListTable<nat, Link>, bitmaps: map<nat, seq<bv8>>, counts: map<nat, nat>)

  /** The jumps between TBs: jmp_list_head and jmp_list_next, jmp_dest, and the TB that the native
      jump is patched to, where None is the block's own exit. */
  datatype JumpState = JumpState(table: ListTable<TbId, Link>, dest: map<Link, JmpDest>, target: map<Link, Option<TbId>>)

  // ---- What each structure says about the live TBs ----

  /** Every live TB is exactly once in its hash bucket. */
  ghost predicate HashOk(live: map<TbId, Tb>, hash: ListTable<nat, TbId>, lists: map<nat, seq<TbId>>, owner: map<TbId, nat>) {
    && Represents(hash, lists, owner)
    && owner.Keys == live.Keys
    && (forall t | t in live :: owner[t] == HashOf(live[t]))
    && (forall h | 0 <= h < CODE_GEN_PHYS_HASH_SIZE :: h in hash.heads)
  }

  /** Every live TB is exactly once on the list of each of its pages, and twice in a row if both are one page. */
  ghost predicate PagesOk(live: map<TbId, Tb>, pages: PageDescs, lists: map<nat, seq<Link>>, owner: map<Link, nat>) {
    && Represents(pages.table, lists, owner) && PageOwners(live, owner) && AllPaired(lists)
    && pages.counts.Keys == pages.table.heads.Keys
  }

  ghost predicate PageOwners(live: map<TbId, Tb>, owner: map<Link, nat>) {
    && (forall l :: l in owner <==> IsPageLink(live, l))
    && (forall l | l in owner :: owner[l] == PageOfLink(live[l.tb], l.n))
  }

  /** A jump is on its destination's list if and only if its jmp_dest is that TB, untagged;
      all jumps of dead TBs, and only those, are tagged; the native jump of a live TB leads
      to the chained TB, or to its own exit when it is not chained. */
  ghost predicate JumpsOk(live: map<TbId, Tb>, tbs: map<TbId, Tb>, jumps: JumpState, lists: map<TbId, seq<Link>>, chained: map<Link, TbId>) {
    && Represents(jumps.table, lists, chained)
    && jumps.table.heads.Keys == tbs.Keys
    && DestsOk(live, tbs, chained, jumps.dest)
    && TargetsOk(live, tbs, chained, jumps.target)
  }

  ghost predicate DestsOk(live: map<TbId, Tb>, tbs: map<TbId, Tb>, chained: map<Link, TbId>, dest: map<Link, JmpDest>) {
    && (forall l :: l in dest <==> l.tb in tbs && l.n < 2)
    && (forall l | l in chained :: l in dest)
    && (forall l | l in dest :: dest[l].tag <==> l.tb !in live)
    && (forall l | l in dest :: l in chained <==> dest[l].ptr.Some? && !dest[l].tag)
    && (forall l | l in chained :: dest[l].ptr == Some(chained[l]))
  }

  ghost predicate TargetsOk(live: map<TbId, Tb>, tbs: map<TbId, Tb>, chained: map<Link, TbId>, target: map<Link, Option<TbId>>) {
    && (forall l: Link :: l in target <==> l.tb in tbs && l.n < 2)
    && (forall l | l in target && l.tb in live ::
          target[l] == if l in chained then Some(chained[l]) else None)
  }

  /** Jump cache entries are live and sit at the hash of their own pc. */
  ghost predicate CacheOk(live: map<TbId, Tb>, cpus: nat, cache: map<CacheSlot, Option<TbId>>) {
    && (forall c: CacheSlot :: c in cache <==> c.cpu < cpus && c.hash < TB_JMP_CACHE_SIZE)
    && (forall c | c in cache && cache[c].Some? :: cache[c].value in live && HashFunc(live[cache[c].value].pc) == c.hash)
  }

  /** `cache'` is `cache` with some slots cleared. */
  ghost predicate Fewer(cache': map<CacheSlot, Option<TbId>>, cache: map<CacheSlot, Option<TbId>>) {
    && cache'.Keys == cache.Keys
    && forall c | c in cache :: cache'[c] == None || cache'[c] == cache[c]
  }

  lemma FewerSame(a: map<CacheSlot, Option<TbId>>)
    ensures Fewer(a, a)
  {
  }

  lemma FewerStill(a: map<CacheSlot, Option<TbId>>, b: map<CacheSlot, Option<TbId>>, c: map<CacheSlot, Option<TbId>>)
    requires Fewer(a, b) && Fewer(b, c)
    ensures Fewer(a, c)
  {
  }

  /** Some live TB was translated from RAM byte `a`. */
  ghost predicate IsCode(live: map<TbId, Tb>, a: nat) {
    exists t | t in live :: Hits(live[t], a, a + 1)
  }

  /** Exactly the bits of the code bytes of page `p` are set. */
  ghost predicate BitmapExact(live: map<TbId, Tb>, p: nat, bitmap: seq<bv8>) {
    && 8 * |bitmap| == PAGE_SIZE
    && forall i | 0 <= i < PAGE_SIZE :: Bit(bitmap, i) <==> IsCode(live, p * PAGE_SIZE + i)
  }

  /** The bitmaps are exact, and only pages that hold code have one, or those in `loose`. */
  ghost predicate BitmapsOk(live: map<TbId, Tb>, bitmaps: map<nat, seq<bv8>>, loose: set<nat>) {
    forall p | p in bitmaps :: BitmapExact(live, p, bitmaps[p]) && (HasCode(live, p) || p in loose)
  }

  // ---- Removing a TB from one structure ----

  /** tb_remove. `ok` tells that the search meets the TB: for a TB that is in no bucket it runs off the end. */
  method RemoveFromHash(ghost live: map<TbId, Tb>, hash: ListTable<nat, TbId>, tb: Tb, t: TbId,
                        ghost lists: map<nat, seq<TbId>>, ghost owner: map<TbId, nat>)
    returns (ok: bool, hash': ListTable<nat, TbId>, ghost lists': map<nat, seq<TbId>>, ghost owner': map<TbId, nat>)
    requires HashOk(live, hash, lists, owner) && (t in live ==> live[t] == tb)
    ensures ok <==> t in live
    ensures ok ==> HashOk(live - {t}, hash', lists', owner')
  {
    hide Represents;
    ghost var n, i;
    ok, hash', lists', n, i := RemoveFirst(hash, HashOf(tb), x => x == t, lists, owner);
    owner' := owner - {t};
  }

  // ---- Page lists ----

  ghost predicate Submap<X(!new), Y>(m: map<X, Y>, n: map<X, Y>) {
    forall x | x in m :: x in n && m[x] == n[x]
  }

  /** tb_page_remove and invalidate_page_bitmap: the first entry of the TB, whatever its tag, leaves the page's list. */
  method DropPage(pages: PageDescs, t: TbId, p: nat, ghost lists: map<nat, seq<Link>>, ghost owner: map<Link, nat>)
    returns (pages': PageDescs, ghost lists': map<nat, seq<Link>>, ghost l: Link)
    requires Represents(pages.table, lists, owner) && pages.counts.Keys == pages.table.heads.Keys
    requires exists m | m in owner :: m.tb == t && owner[m] == p
    ensures l in owner && l.tb == t && owner[l] == p
    ensures Represents(pages'.table, lists', owner - {l})
    ensures pages'.table.heads.Keys == pages.table.heads.Keys == pages'.counts.Keys
    ensures pages'.bitmaps == pages.bitmaps - {p} && pages'.counts == pages.counts[p := 0]
    ensures p in lists && lists' == lists[p := lists'[p]] && lists'.Keys == lists.Keys && Spared(lists'[p], {t}) == Spared(lists[p], {t})
    ensures SameNext(pages'.table.next, pages.table.next, t)
  {
    hide Represents, Spared;
    ghost var m :| m in owner && m.tb == t && owner[m] == p;
    Filed(pages.table, lists, owner, m);
    var ok, table;
    ghost var n, i;
    ok, table, lists', n, i := RemoveFirst(pages.table, p, (m: Link) => m.tb == t, lists, owner);
    l := n.value;
    SparedWithout(lists[p], i, {t});
    pages' := PageDescs(table, pages.bitmaps - {p}, pages.counts[p := 0]);
  }

  lemma LinksOfTb(live: map<TbId, Tb>, owner: map<Link, nat>, t: TbId)
    requires PageOwners(live, owner) && t in live
    ensures Link(t, 0) in owner && owner[Link(t, 0)] == live[t].page0
    ensures if live[t].page1.Some? then Link(t, 1) in owner && owner[Link(t, 1)] == live[t].page1.value
            else Link(t, 1) !in owner
    ensures forall m | m in owner && m.tb == t :: m == Link(t, 0) || m == Link(t, 1)
    ensures PageOwners(live - {t}, owner - {Link(t, 0), Link(t, 1)})
  {
  }

  /** The page half of tb_phys_invalidate: the TB is on no list afterwards, even if both of its pages are one. */
  method DropPages(ghost live: map<TbId, Tb>, pages: PageDescs, tb: Tb, t: TbId, ghost lists: map<nat, seq<Link>>, ghost owner: map<Link, nat>)
    returns (pages': PageDescs, ghost lists': map<nat, seq<Link>>, ghost owner': map<Link, nat>)
    requires PagesOk(live, pages, lists, owner) && t in live && live[t] == tb
    ensures PagesOk(live - {t}, pages', lists', owner')
    ensures pages'.table.heads.Keys == pages.table.heads.Keys
    ensures pages'.bitmaps == pages.bitmaps - {tb.page0} - (if tb.page1.Some? then {tb.page1.value} else {})
    ensures pages'.counts.Keys == pages.counts.Keys && forall q | q in pages.counts :: pages'.counts[q] == if OnPage(tb, q) then 0 else pages.counts[q]
    ensures lists'.Keys == lists.Keys && forall q | q in lists :: lists'[q] == Spared(lists[q], {t})
    ensures SameNext(pages'.table.next, pages.table.next, t)
  {
    hide Represents, PageOwners, AllPaired, Spared, Paired;
    LinksOfTb(live, owner, t);
    ghost var l, m;
    pages', lists', l := DropPage(pages, t, tb.page0, lists, owner);
    owner' := owner - {l};
    if tb.page1.Some? {
      ghost var other := if l == Link(t, 0) then Link(t, 1) else Link(t, 0);
      assert other in owner' && other.tb == t && owner'[other] == tb.page1.value;
      pages', lists', m := DropPage(pages', t, tb.page1.value, lists', owner');
      owner' := owner' - {m};
    }
    assert owner' == owner - {Link(t, 0), Link(t, 1)};
    NotOnLists(pages'.table, lists', owner', t);
    AllSpared(lists, lists', t);
  }

  /** A TB that owns no link is on no list. */
  lemma NotOnLists(table: ListTable<nat, Link>, lists: map<nat, seq<Link>>, owner: map<Link, nat>, t: TbId)
    requires Represents(table, lists, owner) && forall l | l in owner :: l.tb != t
    ensures forall q | q in lists :: Spared(lists[q], {t}) == lists[q]
  {
    hide Represents, Spared;
    forall q | q in lists ensures Spared(lists[q], {t}) == lists[q] {
      ListKeys(table, lists, owner);
      var s := ListOf(table, q, lists, owner);
      forall i | 0 <= i < |s| ensures s[i].tb != t { assert s[i] in s; }
      SparedNone(s, {t});
    }
  }

  lemma AllSpared(lists: map<nat, seq<Link>>, lists': map<nat, seq<Link>>, t: TbId)
    requires AllPaired(lists) && lists'.Keys == lists.Keys && forall q | q in lists :: lists'[q] == Spared(lists[q], {t})
    ensures AllPaired(lists')
  {
    hide Paired, Spared;
    forall q | q in lists' ensures Paired(lists'[q]) { SparedPaired(lists[q], {t}); }
  }

  /** tb_remove_from_jmp_list: tags the jump and takes it off its destination's list. */
  method DropJump(jumps: JumpState, l: Link, ghost lists: map<TbId, seq<Link>>, ghost chained: map<Link, TbId>)
    returns (jumps': JumpState, ghost lists': map<TbId, seq<Link>>)
    requires Represents(jumps.table, lists, chained) && l in jumps.dest && !jumps.dest[l].tag
    requires l in chained <==> jumps.dest[l].ptr.Some?
    requires l in chained ==> jumps.dest[l].ptr == Some(chained[l])
    ensures Represents(jumps'.table, lists', chained - {l}) && jumps'.table.heads.Keys == jumps.table.heads.Keys
    ensures jumps'.dest == jumps.dest[l := JmpDest(jumps.dest[l].ptr, true)] && jumps'.target == jumps.target
  {
    hide Represents;
    var dest := jumps.dest[l].ptr;
    jumps' := jumps.(dest := jumps.dest[l := jumps.dest[l].(tag := true)]);
    if dest.None? {
      lists' := lists;
      assert chained == chained - {l};
      return;
    }
    var table;
    ghost var i;
    table, lists', i := RemoveOnly(jumps.table, dest.value, (m: Link) => m == l, l, lists, chained);
    jumps' := jumps'.(table := table);
  }

  /** The loop of tb_jmp_unlink: the jumps on a list are reset to their own exits and forget
      their destination. */
  method ResetJumps(head: Option<Link>, jumps: JumpState, ghost s: seq<Link>) returns (jumps': JumpState)
    requires Chain(head, jumps.table.next, s)
    requires forall l | l in s :: l in jumps.dest && l in jumps.target
    ensures jumps'.table == jumps.table
    ensures jumps'.dest.Keys == jumps.dest.Keys && jumps'.target.Keys == jumps.target.Keys
    ensures forall l | l in jumps.dest :: jumps'.dest[l] == if l in s then JmpDest(None, jumps.dest[l].tag) else jumps.dest[l]
    ensures forall l | l in jumps.target :: jumps'.target[l] == if l in s then None else jumps.target[l]
  {
    hide Chain;
    ChainNext(head, jumps.table.next, s, 0);
    var l, dest, target := head, jumps.dest, jumps.target;
    ghost var i := 0;
    while l.Some?
      invariant i <= |s| && l == NodeAt(s, i)
      invariant dest.Keys == jumps.dest.Keys && target.Keys == jumps.target.Keys
      invariant forall j | 0 <= j < i :: dest[s[j]].ptr == None && target[s[j]] == None
      invariant forall m | m in dest :: dest[m].tag == jumps.dest[m].tag
      invariant forall m | m in dest && m !in s :: dest[m] == jumps.dest[m]
      invariant forall m | m in target && m !in s :: target[m] == jumps.target[m]
      decreases |s| - i
    {
      ChainNext(head, jumps.table.next, s, i);
      assert l.value == s[i] && l.value in s;
      target := target[l.value := None];
      dest := dest[l.value := JmpDest(None, dest[l.value].tag)];
      l := jumps.table.next[l.value];
      i := i + 1;
    }
    jumps' := jumps.(dest := dest, target := target);
  }

  /** tb_jmp_unlink */
  method UnlinkJumps(jumps: JumpState, dest: TbId, ghost lists: map<TbId, seq<Link>>, ghost chained: map<Link, TbId>)
    returns (jumps': JumpState, ghost lists': map<TbId, seq<Link>>)
    requires Represents(jumps.table, lists, chained) && dest in jumps.table.heads
    requires forall l | l in chained :: l in jumps.dest && l in jumps.target
    ensures Represents(jumps'.table, lists', NotOf(chained, dest)) && jumps'.table.heads.Keys == jumps.table.heads.Keys
    ensures jumps'.dest.Keys == jumps.dest.Keys && jumps'.target.Keys == jumps.target.Keys
    ensures forall l | l in jumps.dest :: jumps'.dest[l] ==
              if l in chained && chained[l] == dest then JmpDest(None, jumps.dest[l].tag) else jumps.dest[l]
    ensures forall l | l in jumps.target :: jumps'.target[l] ==
              if l in chained && chained[l] == dest then None else jumps.target[l]
  {
    hide Represents;
    ghost var s := ListOf(jumps.table, dest, lists, chained);
    DropList(jumps.table, dest, lists, chained);
    jumps' := ResetJumps(jumps.table.heads[dest], jumps, s);
    jumps' := jumps'.(table := jumps.table.(heads := jumps.table.heads[dest := None]));
    lists' := lists[dest := []];
  }

  /** The jump half of tb_phys_invalidate: all jumps from and to `t` are undone. */
  method DropJumps(ghost live: map<TbId, Tb>, ghost tbs: map<TbId, Tb>, jumps: JumpState, t: TbId,
                   ghost lists: map<TbId, seq<Link>>, ghost chained: map<Link, TbId>)
    returns (jumps': JumpState, ghost lists': map<TbId, seq<Link>>, ghost chained': map<Link, TbId>)
    requires JumpsOk(live, tbs, jumps, lists, chained) && WfJumps(live, chained) && t in live && t in tbs
    ensures JumpsOk(live - {t}, tbs, jumps', lists', chained') && WfJumps(live - {t}, chained')
    ensures Submap(chained', chained)
    ensures forall l :: l in chained' <==> l in chained && l.tb != t && chained[l] != t
  {
    hide Represents, DestsOk, TargetsOk, WfJumps, NotOf, Submap;
    ghost var l0, l1 := Link(t, 0), Link(t, 1);
    ghost var c := chained - {l0} - {l1};
    JumpsOfTb(live, tbs, jumps, chained, t);
    jumps', lists' := DropJump(jumps, Link(t, 0), lists, chained);
    jumps', lists' := DropJump(jumps', Link(t, 1), lists', chained - {l0});
    ghost var tagged := jumps'.dest;
    jumps', lists' := UnlinkJumps(jumps', t, lists', c);
    chained' := NotOf(c, t);
    DestsWithout(live, tbs, chained, jumps.dest, tagged, jumps'.dest, t);
    TargetsWithout(live, tbs, chained, jumps.target, jumps'.target, t);
    ChainedWithout(live, chained, t);
  }

  lemma ChainedWithout(live: map<TbId, Tb>, chained: map<Link, TbId>, t: TbId)
    requires WfJumps(live, chained)
    ensures var r := NotOf(chained - {Link(t, 0)} - {Link(t, 1)}, t);
      && WfJumps(live - {t}, r) && Submap(r, chained)
      && forall l :: l in r <==> l in chained && l.tb != t && chained[l] != t
  {
  }

  lemma JumpsOfTb(live: map<TbId, Tb>, tbs: map<TbId, Tb>, jumps: JumpState, chained: map<Link, TbId>, t: TbId)
    requires DestsOk(live, tbs, chained, jumps.dest) && TargetsOk(live, tbs, chained, jumps.target) && t in live && t in tbs
    ensures forall l | l in chained :: l in jumps.dest && l in jumps.target
    ensures forall l | l == Link(t, 0) || l == Link(t, 1) ::
              && l in jumps.dest && !jumps.dest[l].tag && (l in chained <==> jumps.dest[l].ptr.Some?)
              && (l in chained ==> jumps.dest[l].ptr == Some(chained[l]))
  {
  }

  lemma DestsWithout(live: map<TbId, Tb>, tbs: map<TbId, Tb>, chained: map<Link, TbId>, dest: map<Link, JmpDest>,
                     tagged: map<Link, JmpDest>, dest': map<Link, JmpDest>, t: TbId)
    requires DestsOk(live, tbs, chained, dest) && t in live && Link(t, 0) in dest && Link(t, 1) in dest
    requires tagged == dest[Link(t, 0) := JmpDest(dest[Link(t, 0)].ptr, true)][Link(t, 1) := JmpDest(dest[Link(t, 1)].ptr, true)]
    requires dest'.Keys == tagged.Keys
    requires var c := chained - {Link(t, 0)} - {Link(t, 1)};
      forall l | l in tagged :: dest'[l] == if l in c && c[l] == t then JmpDest(None, tagged[l].tag) else tagged[l]
    ensures DestsOk(live - {t}, tbs, NotOf(chained - {Link(t, 0)} - {Link(t, 1)}, t), dest')
  {
    var c := chained - {Link(t, 0)} - {Link(t, 1)};
    forall l | l in dest && l.tb == t ensures l == Link(t, 0) || l == Link(t, 1) {}
  }

  lemma TargetsWithout(live: map<TbId, Tb>, tbs: map<TbId, Tb>, chained: map<Link, TbId>,
                       target: map<Link, Option<TbId>>, target': map<Link, Option<TbId>>, t: TbId)
    requires TargetsOk(live, tbs, chained, target) && target'.Keys == target.Keys
    requires var c := chained - {Link(t, 0)} - {Link(t, 1)};
      forall l | l in target :: target'[l] == if l in c && c[l] == t then None else target[l]
    ensures TargetsOk(live - {t}, tbs, NotOf(chained - {Link(t, 0)} - {Link(t, 1)}, t), target')
  {
  }

  /** The loop over the CPUs in tb_phys_invalidate. */
  method DropFromCache(ghost live: map<TbId, Tb>, cpus: nat, cache: map<CacheSlot, Option<TbId>>, tb: Tb, t: TbId)
    returns (cache': map<CacheSlot, Option<TbId>>)
    requires CacheOk(live, cpus, cache) && t in live && live[t] == tb
    ensures CacheOk(live - {t}, cpus, cache')
    ensures Fewer(cache', cache) && forall c | c in cache :: c in cache' && cache'[c] == if cache[c] == Some(t) then None else cache[c]
  {
    var h := HashFunc(tb.pc);
    cache' := cache;
    for cpu := 0 to cpus
      invariant cache'.Keys == cache.Keys
      invariant forall c | c in cache :: cache'[c] == if cache[c] == Some(t) && c.cpu < cpu then None else cache[c]
    {
      var c := CacheSlot(cpu, h);
      if cache'[c] == Some(t) {
        cache' := cache'[c := None];
      }
    }
  }

  /** Bitmaps of the pages that `t` was not on stay exact. */
  lemma BitmapsWithout(live: map<TbId, Tb>, pages: nat, bitmaps: map<nat, seq<bv8>>, bitmaps': map<nat, seq<bv8>>,
                       t: TbId, loose: set<nat>)
    requires WfTbs(live, pages) && BitmapsOk(live, bitmaps, loose) && Submap(bitmaps', bitmaps) && t in live
    requires live[t].page0 !in bitmaps' && (live[t].page1.Some? ==> live[t].page1.value !in bitmaps')
    ensures WfTbs(live - {t}, pages) && BitmapsOk(live - {t}, bitmaps', loose)
  {
    var rest := live - {t};
    forall p | p in bitmaps'
      ensures BitmapExact(rest, p, bitmaps'[p]) && (HasCode(rest, p) || p in loose)
    {
      if HasCode(live, p) {
        var u :| u in live && OnPage(live[u], p);
        assert u in rest;
      }
      forall i | 0 <= i < PAGE_SIZE ensures Bit(bitmaps'[p], i) <==> IsCode(rest, p * PAGE_SIZE + i) {
        IsCodeWithout(live, pages, t, p, i);
      }
    }
  }

  lemma IsCodeWithout(live: map<TbId, Tb>, pages: nat, t: TbId, p: nat, i: nat)
    requires WfTbs(live, pages) && t in live && !OnPage(live[t], p) && i < PAGE_SIZE
    ensures WfTbs(live - {t}, pages)
    ensures IsCode(live, p * PAGE_SIZE + i) <==> IsCode(live - {t}, p * PAGE_SIZE + i)
  {
    var a := p * PAGE_SIZE + i;
    OffPageMisses(live[t], pages, a, 1);
    if IsCode(live, a) {
      var u :| u in live && Hits(live[u], a, a + 1);
      assert u in live - {t};
    }
  }

  // ---- All structures together ----

  /** Everything that leads to a TB. `tbs` are all TBs since the last flush, live or dead; `hash`
      is tb_phys_hash and phys_hash_next; `cache` is the tb_jmp_cache of each CPU. */
  datatype Links = Links(tbs: map<TbId, Tb>, hash: ListTable<nat, TbId>, pages: PageDescs, jumps: JumpState,
                         cache: map<CacheSlot, Option<TbId>>)

  /** What the links stand for, and the lists they spell out. */
  datatype Index = Index(live: map<TbId, Tb>, chained: map<Link, TbId>,
                         hashLists: map<nat, seq<TbId>>, hashOwner: map<TbId, nat>,
                         pageLists: map<nat, seq<Link>>, pageOwner: map<Link, nat>,
                         jumpLists: map<TbId, seq<Link>>)

  ghost predicate Linked(k: Links, x: Index, cpus: nat, pages: nat, loose: set<nat>) {
    && Submap(x.live, k.tbs) && WfTbs(x.live, pages) && WfJumps(x.live, x.chained)
    && HashOk(x.live, k.hash, x.hashLists, x.hashOwner)
    && PagesOk(x.live, k.pages, x.pageLists, x.pageOwner)
    && JumpsOk(x.live, k.tbs, k.jumps, x.jumpLists, x.chained)
    && CacheOk(x.live, cpus, k.cache)
    && BitmapsOk(x.live, k.pages.bitmaps, loose)
  }

  /** tb_phys_invalidate(tb, -1): every trace of the TB is removed. For a TB that was invalidated before it fails
      in its first step. */
  method PhysInvalidate(k: Links, t: TbId, ghost x: Index, cpus: nat, ghost pages: nat, ghost loose: set<nat>)
    returns (ok: bool, k': Links, ghost x': Index)
    requires Linked(k, x, cpus, pages, loose) && t in k.tbs
    ensures ok <==> t in x.live
    ensures ok ==> x'.live == x.live - {t} && Submap(x'.chained, x.chained)
    ensures ok ==> forall l :: l in x'.chained <==> l in x.chained && l.tb != t && x.chained[l] != t
    ensures ok ==> k'.pages.table.heads.Keys == k.pages.table.heads.Keys && SameNext(k'.pages.table.next, k.pages.table.next, t)
    ensures ok ==> x'.pageLists.Keys == x.pageLists.Keys && Fewer(k'.cache, k.cache)
    ensures ok ==> forall q | q in x.pageLists :: x'.pageLists[q] == Spared(x.pageLists[q], {t})
    ensures ok ==> Linked(k', x', cpus, pages, loose) && k'.tbs == k.tbs
  {
    hide HashOk, PagesOk, JumpsOk, CacheOk, BitmapsOk, Fewer, Spared, SameNext, WfTb;
    var tbs := k.tbs;
    ghost var live := x.live;
    k', x' := k, x;
    var hash; ghost var hashLists, hashOwner;
    ok, hash, hashLists, hashOwner := RemoveFromHash(live, k.hash, tbs[t], t, x.hashLists, x.hashOwner);
    if !ok {
      return;
    }
    var descs; ghost var pageLists, pageOwner;
    descs, pageLists, pageOwner := DropPages(live, k.pages, tbs[t], t, x.pageLists, x.pageOwner);
    var cache := DropFromCache(live, cpus, k.cache, tbs[t], t);
    var jumps; ghost var jumpLists, chained;
    jumps, jumpLists, chained := DropJumps(live, tbs, k.jumps, t, x.jumpLists, x.chained);
    k' := Links(tbs, hash, descs, jumps, cache);
    x' := Index(live - {t}, chained, hashLists, hashOwner, pageLists, pageOwner, jumpLists);
    BitmapsWithout(live, pages, k.pages.bitmaps, descs.bitmaps, t, loose);
  }

  // ---- The bytes of a TB on one of its pages ----

  /** tb_start in tb_invalidate_phys_page_range */
  function PartStart(tb: Tb, n: nat): nat
    requires n == 0 || tb.page1.Some?
  {
    if n == 0 then tb.page0 * PAGE_SIZE + PageOff(tb.pc) else tb.page1.value * PAGE_SIZE
  }

  /** tb_end, which for the first page may lie after the end of the page */
  function PartEnd(tb: Tb, n: nat): nat
    requires n == 0 || tb.page1.Some?
  {
    if n == 0 then PartStart(tb, 0) + tb.size else PartStart(tb, 1) + (tb.pc + tb.size) % PAGE_SIZE
  }

  /** Source byte `k` lies on the TB's page `n`. */
  predicate InPart(tb: Tb, n: nat, k: nat) {
    if n == 0 then PageOff(tb.pc) + k < PAGE_SIZE else tb.page1.Some? && PageOff(tb.pc) + k >= PAGE_SIZE
  }

  /** Some byte in [start, end) is a source byte on the TB's page `n`. */
  ghost predicate PartHit(tb: Tb, n: nat, start: nat, end: nat) {
    exists k | 0 <= k < tb.size && InPart(tb, n, k) :: start <= SrcAddr(tb, k) < end
  }

  /** [start, end), which lies in one page, meets both parts of a TB. */
  ghost predicate TwiceHit(tb: Tb, start: nat, end: nat) {
    PartHit(tb, 0, start, end) && PartHit(tb, 1, start, end)
  }

  ghost predicate AnyTwice(live: map<TbId, Tb>, start: nat, end: nat) {
    exists t | t in live :: TwiceHit(live[t], start, end)
  }

  lemma HitsByPart(tb: Tb, start: nat, end: nat)
    ensures Hits(tb, start, end) <==> PartHit(tb, 0, start, end) || PartHit(tb, 1, start, end)
  {
    if k :| 0 <= k < tb.size && (PageOff(tb.pc) + k < PAGE_SIZE || tb.page1.Some?) && start <= SrcAddr(tb, k) < end {
      assert InPart(tb, 0, k) || InPart(tb, 1, k);
    }
  }

  lemma PartOnPage(tb: Tb, pages: nat, n: nat, a: nat, len: nat)
    requires WfTb(tb, pages) && n < 2 && 0 < len && a % PAGE_SIZE + len <= PAGE_SIZE && PartHit(tb, n, a, a + len)
    ensures (n == 0 || tb.page1.Some?) && PageOfLink(tb, n) == a / PAGE_SIZE
  {
    var k :| 0 <= k < tb.size && InPart(tb, n, k) && a <= SrcAddr(tb, k) < a + len;
    Monotone(a, SrcAddr(tb, k));
    Monotone(SrcAddr(tb, k), a + len - 1);
  }

  /** Only a TB with both parts on one physical page can be hit twice. */
  lemma TwiceOnPage(tb: Tb, pages: nat, a: nat, len: nat)
    requires WfTb(tb, pages) && 0 < len && a % PAGE_SIZE + len <= PAGE_SIZE && TwiceHit(tb, a, a + len)
    ensures tb.page0 == a / PAGE_SIZE && tb.page1 == Some(tb.page0)
  {
    PartOnPage(tb, pages, 0, a, len);
    PartOnPage(tb, pages, 1, a, len);
  }

  /** The interval test of the C code is exact: it holds if and only if the range hits a source
      byte on that page of the TB. Needs the TB to be at most a page long. */
  lemma PartTest(tb: Tb, pages: nat, n: nat, a: nat, len: nat)
    requires WfTb(tb, pages) && (n == 0 || (n == 1 && tb.page1.Some?))
    requires 0 < len && a % PAGE_SIZE + len <= PAGE_SIZE && a / PAGE_SIZE == PageOfLink(tb, n)
    ensures !(PartEnd(tb, n) <= a || PartStart(tb, n) >= a + len) <==> PartHit(tb, n, a, a + len)
  {
    var off := PageOff(tb.pc);
    assert (tb.pc + tb.size) % PAGE_SIZE == (off + tb.size) % PAGE_SIZE;
    if !(PartEnd(tb, n) <= a || PartStart(tb, n) >= a + len) {
      var y := if a < PartStart(tb, n) then PartStart(tb, n) else a;
      var k := if n == 0 then y - PartStart(tb, 0) else y - PartStart(tb, 1) + PAGE_SIZE - off;
      assert SrcAddr(tb, k) == y && InPart(tb, n, k);
    }
  }

  /** What of the `len` bytes at `a` lies on the page of `a`. */
  function Clip(a: nat, len: nat): (r: nat)
    ensures r <= len && a % PAGE_SIZE + r <= PAGE_SIZE && (0 < len ==> 0 < r)
  {
    if a % PAGE_SIZE + len <= PAGE_SIZE then len else PAGE_SIZE - a % PAGE_SIZE
  }

  /** Bytes behind the end of the page make no difference to the interval test. */
  lemma ClipTest(tb: Tb, pages: nat, n: nat, a: nat, len: nat)
    requires WfTb(tb, pages) && (n == 0 || (n == 1 && tb.page1.Some?)) && 0 < len && a / PAGE_SIZE == PageOfLink(tb, n)
    ensures PartStart(tb, n) >= a + len <==> PartStart(tb, n) >= a + Clip(a, len)
  {
    assert PartStart(tb, n) < (a / PAGE_SIZE + 1) * PAGE_SIZE;
    assert a == a / PAGE_SIZE * PAGE_SIZE + a % PAGE_SIZE;
  }

  /** The entries of a page's list are those of the TBs on the page, one for each part there. */
  lemma ListOnly(live: map<TbId, Tb>, pages: PageDescs, lists: map<nat, seq<Link>>, owner: map<Link, nat>, p: nat) returns (s: seq<Link>)
    requires PagesOk(live, pages, lists, owner) && p in pages.table.heads
    ensures p in lists && s == lists[p] && Chain(pages.table.heads[p], pages.table.next, s) && Paired(s)
    ensures forall l :: l in s <==> IsPageLink(live, l) && PageOfLink(live[l.tb], l.n) == p
  {
    hide Represents, Paired;
    s := ListOf(pages.table, p, lists, owner);
  }

  /** A TB on a page is on the page's list. */
  lemma OnList(live: map<TbId, Tb>, pages: PageDescs, lists: map<nat, seq<Link>>, owner: map<Link, nat>, p: nat, t: TbId)
    requires PagesOk(live, pages, lists, owner) && t in live && OnPage(live[t], p)
    ensures p in pages.table.heads
  {
    hide Represents, Paired;
    var l := Link(t, if live[t].page0 == p then 0 else 1);
    assert l in owner && owner[l] == p;
    Filed(pages.table, lists, owner, l);
  }

  // ---- build_page_bitmap ----

  /** The link's part covers byte `i` of page `p`. */
  ghost predicate Covers(live: map<TbId, Tb>, l: Link, p: nat, i: nat) {
    l.tb in live && PartHit(live[l.tb], l.n, p * PAGE_SIZE + i, p * PAGE_SIZE + i + 1)
  }

  /** The interval that build_page_bitmap passes to set_bits holds exactly the covered bytes. */
  lemma PartBits(tb: Tb, pages: nat, n: nat, p: nat, i: nat)
    requires WfTb(tb, pages) && (n == 0 || (n == 1 && tb.page1.Some?)) && PageOfLink(tb, n) == p && i < PAGE_SIZE
    ensures BitStart(tb, n) <= i < BitEnd(tb, n) <==> PartHit(tb, n, p * PAGE_SIZE + i, p * PAGE_SIZE + i + 1)
  {
    PartTest(tb, pages, n, p * PAGE_SIZE + i, 1);
  }

  function BitStart(tb: Tb, n: nat): nat { if n == 0 then PageOff(tb.pc) else 0 }

  function BitEnd(tb: Tb, n: nat): (r: nat)
    ensures r <= PAGE_SIZE
  {
    if n == 0 then (if PageOff(tb.pc) + tb.size > PAGE_SIZE then PAGE_SIZE else PageOff(tb.pc) + tb.size)
    else (tb.pc + tb.size) % PAGE_SIZE
  }

  ghost predicate CoveredBy(live: map<TbId, Tb>, s: seq<Link>, i: nat, p: nat, b: nat)
    requires i <= |s|
  {
    exists j | 0 <= j < i :: Covers(live, s[j], p, b)
  }

  lemma CoveredByNext(live: map<TbId, Tb>, pages: nat, s: seq<Link>, i: nat, p: nat, b: nat)
    requires WfTbs(live, pages) && i < |s| && b < PAGE_SIZE
    requires IsPageLink(live, s[i]) && PageOfLink(live[s[i].tb], s[i].n) == p
    ensures var tb, n := live[s[i].tb], s[i].n;
      CoveredBy(live, s, i + 1, p, b) <==> CoveredBy(live, s, i, p, b) || BitStart(tb, n) <= b < BitEnd(tb, n)
  {
    PartBits(live[s[i].tb], pages, s[i].n, p, b);
    hide PartHit, BitStart, BitEnd;
    assert Covers(live, s[i], p, b) <==> PartHit(live[s[i].tb], s[i].n, p * PAGE_SIZE + b, p * PAGE_SIZE + b + 1);
  }

  /** A byte of the page is code if and only if some part on the page's list covers it. */
  lemma CoveredIsCode(live: map<TbId, Tb>, pages: nat, s: seq<Link>, p: nat, b: nat)
    requires WfTbs(live, pages) && b < PAGE_SIZE
    requires forall l :: l in s <==> IsPageLink(live, l) && PageOfLink(live[l.tb], l.n) == p
    ensures CoveredBy(live, s, |s|, p, b) <==> IsCode(live, p * PAGE_SIZE + b)
  {
    hide Hits, PartHit, WfTb;
    var a := p * PAGE_SIZE + b;
    if t :| t in live && Hits(live[t], a, a + 1) {
      HitsByPart(live[t], a, a + 1);
      var n := if PartHit(live[t], 0, a, a + 1) then 0 else 1;
      PartOnPage(live[t], pages, n, a, 1);
      assert Link(t, n) in s;
      var j :| 0 <= j < |s| && s[j] == Link(t, n);
      assert Covers(live, s[j], p, b);
    }
    if CoveredBy(live, s, |s|, p, b) {
      var j :| 0 <= j < |s| && Covers(live, s[j], p, b);
      assert s[j] in s;
      HitsByPart(live[s[j].tb], a, a + 1);
    }
  }

  method BuildPageBitmap(tbs: map<TbId, Tb>, pages: PageDescs, p: nat, ghost live: map<TbId, Tb>, ghost pageCount: nat,
                         ghost lists: map<nat, seq<Link>>, ghost owner: map<Link, nat>)
    returns (bitmap: seq<bv8>)
    requires PagesOk(live, pages, lists, owner) && p in pages.table.heads && Submap(live, tbs) && WfTbs(live, pageCount)
    ensures BitmapExact(live, p, bitmap)
  {
    hide PagesOk, IsCode, Hits, Bit, CoveredBy, Paired;
    ghost var s := ListOnly(live, pages, lists, owner, p);
    var tab := new bv8[512](_ => 0);
    forall b | 0 <= b < PAGE_SIZE ensures !Bit(tab[..], b) && !CoveredBy(live, s, 0, p, b) {
      ZeroTable(tab[..], b);
      NothingCovered(live, s, p, b);
    }
    var l := pages.table.heads[p];
    ghost var i := 0;
    while l.Some?
      invariant i <= |s| && l == NodeAt(s, i)
      invariant forall b | 0 <= b < PAGE_SIZE :: Bit(tab[..], b) <==> CoveredBy(live, s, i, p, b)
      decreases |s| - i
    {
      var t, n := l.value.tb, l.value.n;
      assert l.value in s;
      SetBits(tab, BitStart(tbs[t], n), BitEnd(tbs[t], n) - BitStart(tbs[t], n));
      forall b | 0 <= b < PAGE_SIZE ensures Bit(tab[..], b) <==> CoveredBy(live, s, i + 1, p, b) {
        CoveredByNext(live, pageCount, s, i, p, b);
      }
      l := pages.table.next[l.value];
      i := i + 1;
    }
    bitmap := tab[..];
    forall b | 0 <= b < PAGE_SIZE ensures Bit(bitmap, b) <==> IsCode(live, p * PAGE_SIZE + b) {
      CoveredIsCode(live, pageCount, s, p, b);
    }
  }

  lemma NothingCovered(live: map<TbId, Tb>, s: seq<Link>, p: nat, b: nat)
    ensures !CoveredBy(live, s, 0, p, b)
  {
  }

  // ---- tb_invalidate_phys_page_range ----

  /** One round of the loop of tb_invalidate_phys_page_range: invalidates the TB at hand if the range hits the
      part at hand, and goes on to the entry that followed it. `ok` tells that the TB was not invalidated before. */
  method VisitTb(k: Links, l: Link, a: nat, len: nat, ghost s: seq<Link>, ghost i: nat,
                 ghost x: Index, cpus: nat, ghost pages: nat, ghost loose: set<nat>)
    returns (ok: bool, k': Links, next: Option<Link>, hit: bool, ghost x': Index)
    requires Linked(k, x, cpus, pages, loose) && 0 < len
    requires a / PAGE_SIZE in k.pages.table.heads && a / PAGE_SIZE in x.pageLists
    requires Cursor(k.pages.table.next, x.pageLists[a / PAGE_SIZE], s, i, x.live) && Paired(s) && i < |s| && l == s[i]
    requires IsPageLink(k.tbs, l) && PageOfLink(k.tbs[l.tb], l.n) == a / PAGE_SIZE && WfTb(k.tbs[l.tb], pages)
    ensures next == NodeAt(s, i + 1)
    ensures hit <==> PartHit(k.tbs[l.tb], l.n, a, a + Clip(a, len))
    ensures ok <==> hit ==> l.tb in x.live
    ensures ok ==> k'.pages.table.heads.Keys == k.pages.table.heads.Keys
    ensures ok ==> a / PAGE_SIZE in x'.pageLists && Cursor(k'.pages.table.next, x'.pageLists[a / PAGE_SIZE], s, i + 1, x'.live)
    ensures ok && !hit ==> x' == x
    ensures ok && hit ==> x'.live == x.live - {l.tb} && Submap(x'.chained, x.chained)
    ensures ok && hit ==> forall m :: m in x'.chained <==> m in x.chained && m.tb != l.tb && x.chained[m] != l.tb
    ensures ok ==> Linked(k', x', cpus, pages, loose) && k'.tbs == k.tbs && Fewer(k'.cache, k.cache)
  {
    hide Linked, PagesOk, PartHit, Cursor, Spared, Paired, WfTb, SameNext, Fewer, Clip;
    FewerSame(k.cache);
    LinkedPages(k, x, cpus, pages, loose);
    var p := a / PAGE_SIZE;
    ok, k', x' := true, k, x;
    ghost var list := ListOnly(x.live, k.pages, x.pageLists, x.pageOwner, p);
    CursorNext(k.pages.table.next, list, s, i, x.live);
    var tb := k.tbs[l.tb];
    PartTest(tb, pages, l.n, a, Clip(a, len));
    ClipTest(tb, pages, l.n, a, len);
    next := k.pages.table.next[l];
    hit := !(PartEnd(tb, l.n) <= a || PartStart(tb, l.n) >= a + len);
    if hit {
      ok, k', x' := PhysInvalidate(k, l.tb, x, cpus, pages, loose);
      if ok {
        CursorDrop(k.pages.table.next, k'.pages.table.next, list, s, i, x.live);
      }
    }
  }

  /** The loop of tb_invalidate_phys_page_range: exactly the TBs that the range hits on the page of its start are
      invalidated, and the walk fails if and only if it hits both parts of one. */
  method DropHits(k: Links, a: nat, len: nat, ghost x: Index, cpus: nat, ghost pages: nat, ghost loose: set<nat>)
    returns (ok: bool, k': Links, ghost x': Index)
    requires Linked(k, x, cpus, pages, loose) && a / PAGE_SIZE in k.pages.table.heads
    requires 0 < len
    ensures ok <==> !AnyTwice(x.live, a, a + Clip(a, len))
    ensures ok ==> k'.pages.table.heads.Keys == k.pages.table.heads.Keys
    ensures ok ==> Submap(x'.live, x.live) && Submap(x'.chained, x.chained) && Fewer(k'.cache, k.cache)
    ensures ok ==> forall t :: t in x'.live <==> t in x.live && !Hits(x.live[t], a, a + Clip(a, len))
    ensures ok ==> forall l :: l in x'.chained <==> l in x.chained && l.tb in x'.live && x.chained[l] in x'.live
    ensures ok ==> Linked(k', x', cpus, pages, loose) && k'.tbs == k.tbs
  {
    hide Linked, PagesOk, Hits, PartHit, Cursor, Paired, WfTb, WfJumps, Fewer, After, AnyTwice, Walked, Clip;
    ghost var on := Clip(a, len);
    FewerSame(k.cache);
    AfterNone(x);
    LinkedPages(k, x, cpus, pages, loose);
    var p := a / PAGE_SIZE;
    ghost var s := ListOnly(x.live, k.pages, x.pageLists, x.pageOwner, p);
    CursorStart(k.pages.table.next, s, x.live, a, on);
    ok, k', x' := true, k, x;
    var l := k.pages.table.heads[p];
    ghost var i, gone := 0, {};
    while l.Some?
      invariant i <= |s| && l == NodeAt(s, i)
      invariant Linked(k', x', cpus, pages, loose) && k'.tbs == k.tbs
      invariant k'.pages.table.heads.Keys == k.pages.table.heads.Keys
      invariant p in x'.pageLists && Cursor(k'.pages.table.next, x'.pageLists[p], s, i, x'.live)
      invariant Fewer(k'.cache, k.cache) && After(x', x, gone)
      invariant Walked(x.live, s, i, a, on, gone)
      decreases |s| - i
    {
      var next, hit;
      ghost var t, before, y := l.value.tb, k'.cache, x';
      assert s[i] in s;
      ok, k', next, hit, x' := VisitTb(k', l.value, a, len, s, i, x', cpus, pages, loose);
      AfterMeans(y, x, gone);
      if !ok {
        Revisited(x.live, s, i, a, on, gone);
        return;
      }
      FewerStill(k'.cache, before, k.cache);
      if hit { AfterStep(x', y, x, gone, t); }
      WalkedNext(x.live, s, i, a, on, gone);
      gone := if hit then gone + {t} else gone;
      l := next;
      i := i + 1;
    }
    AfterMeans(x', x, gone);
    AllVisited(x.live, pages, s, p, a, on, gone);
  }

  /** The range hits the part at entry `j`. */
  ghost predicate HitAt(live: map<TbId, Tb>, s: seq<Link>, j: nat, start: nat, end: nat)
    requires j < |s|
  {
    s[j].tb in live && PartHit(live[s[j].tb], s[j].n, start, end)
  }

  /** The walk is past the first `i` entries, exactly the TBs that it hit there are gone, and none was hit twice. */
  ghost predicate Walked(live: map<TbId, Tb>, s: seq<Link>, i: nat, a: nat, len: nat, gone: set<TbId>) {
    && i <= |s|
    && (forall t | t in gone :: exists j | 0 <= j < i :: s[j].tb == t && HitAt(live, s, j, a, a + len))
    && (forall j | 0 <= j < i && HitAt(live, s, j, a, a + len) :: s[j].tb in gone)
    && (forall j, k | 0 <= j < k < i && HitAt(live, s, j, a, a + len) && HitAt(live, s, k, a, a + len) :: s[j].tb != s[k].tb)
  }

  lemma WalkedNext(live: map<TbId, Tb>, s: seq<Link>, i: nat, a: nat, len: nat, gone: set<TbId>)
    requires Walked(live, s, i, a, len, gone) && i < |s| && (HitAt(live, s, i, a, a + len) ==> s[i].tb !in gone)
    ensures Walked(live, s, i + 1, a, len, if HitAt(live, s, i, a, a + len) then gone + {s[i].tb} else gone)
  {
    hide HitAt;
  }

  /** A hit on a TB that is gone already is a second one. */
  lemma Revisited(live: map<TbId, Tb>, s: seq<Link>, i: nat, a: nat, len: nat, gone: set<TbId>)
    requires Walked(live, s, i, a, len, gone) && Paired(s) && i < |s| && HitAt(live, s, i, a, a + len) && s[i].tb in gone
    ensures AnyTwice(live, a, a + len)
  {
    hide Paired, PartHit;
    var j :| 0 <= j < i && s[j].tb == s[i].tb && HitAt(live, s, j, a, a + len);
    PairedNext(s, j, i);
    assert TwiceHit(live[s[i].tb], a, a + len);
  }

  /** What the walk has done once it is at the end of the list. */
  lemma AllVisited(live: map<TbId, Tb>, pages: nat, s: seq<Link>, p: nat, a: nat, len: nat, gone: set<TbId>)
    requires WfTbs(live, pages) && 0 < len && a % PAGE_SIZE + len <= PAGE_SIZE && p == a / PAGE_SIZE
    requires forall l :: l in s <==> IsPageLink(live, l) && PageOfLink(live[l.tb], l.n) == p
    requires Walked(live, s, |s|, a, len, gone)
    ensures !AnyTwice(live, a, a + len)
    ensures forall t | t in live :: t in gone <==> Hits(live[t], a, a + len)
  {
    hide PartHit, Hits, WfTb;
    forall t | t in live ensures t in gone <==> Hits(live[t], a, a + len) {
      HitsByPart(live[t], a, a + len);
      if Hits(live[t], a, a + len) {
        var j := PartListed(live, pages, s, p, a, len, t, if PartHit(live[t], 0, a, a + len) then 0 else 1);
      }
      if t in gone {
        var j :| 0 <= j < |s| && s[j].tb == t && HitAt(live, s, j, a, a + len);
        assert s[j] in s;
      }
    }
    if t :| t in live && TwiceHit(live[t], a, a + len) {
      var i := PartListed(live, pages, s, p, a, len, t, 1);
      var j := PartListed(live, pages, s, p, a, len, t, 0);
    }
  }

  lemma PartListed(live: map<TbId, Tb>, pages: nat, s: seq<Link>, p: nat, a: nat, len: nat, t: TbId, n: nat) returns (j: nat)
    requires WfTbs(live, pages) && 0 < len && a % PAGE_SIZE + len <= PAGE_SIZE && p == a / PAGE_SIZE && t in live && n < 2
    requires forall l :: l in s <==> IsPageLink(live, l) && PageOfLink(live[l.tb], l.n) == p
    requires PartHit(live[t], n, a, a + len)
    ensures j < |s| && s[j] == Link(t, n) && HitAt(live, s, j, a, a + len)
  {
    hide PartHit, WfTb;
    PartOnPage(live[t], pages, n, a, len);
    assert Link(t, n) in s;
    j :| 0 <= j < |s| && s[j] == Link(t, n);
  }

  lemma CursorStart(next: map<Link, Option<Link>>, s: seq<Link>, live: map<TbId, Tb>, a: nat, len: nat)
    requires forall l | l in s :: l.tb in live
    ensures Cursor(next, s, s, 0, live) && Walked(live, s, 0, a, len, {})
  {
    if s != [] { assert s[0] in s; }
  }

  /** `x'` is left of `x` once the TBs in `gone` and all jumps from and to them are gone. */
  ghost predicate After(x': Index, x: Index, gone: set<TbId>) {
    && Submap(x'.live, x.live) && Submap(x'.chained, x.chained)
    && (forall t :: t in x'.live <==> t in x.live && t !in gone)
    && (forall m :: m in x'.chained <==> m in x.chained && m.tb !in gone && x.chained[m] !in gone)
  }

  lemma AfterStep(x'': Index, x': Index, x: Index, gone: set<TbId>, t: TbId)
    requires After(x', x, gone) && t in x'.live
    ensures t in x.live && x'.live[t] == x.live[t]
    ensures x''.live == x'.live - {t} && Submap(x''.chained, x'.chained)
            && (forall m :: m in x''.chained <==> m in x'.chained && m.tb != t && x'.chained[m] != t)
            ==> After(x'', x, gone + {t})
  {
  }

  lemma AfterMeans(x': Index, x: Index, gone: set<TbId>)
    requires After(x', x, gone) && WfJumps(x.live, x.chained)
    ensures Submap(x'.live, x.live) && Submap(x'.chained, x.chained)
    ensures forall t :: t in x'.live <==> t in x.live && t !in gone
    ensures forall l :: l in x'.chained <==> l in x.chained && l.tb in x'.live && x.chained[l] in x'.live
  {
  }

  lemma AfterNone(x: Index)
    ensures After(x, x, {})
  {
  }

  lemma LinkedPages(k: Links, x: Index, cpus: nat, pages: nat, loose: set<nat>)
    requires Linked(k, x, cpus, pages, loose)
    ensures PagesOk(x.live, k.pages, x.pageLists, x.pageOwner)
    ensures WfTbs(x.live, pages) && WfJumps(x.live, x.chained) && Submap(x.live, k.tbs)
  {
    hide HashOk, PagesOk, JumpsOk, CacheOk, BitmapsOk;
  }

  lemma HitsOnPage(tb: Tb, pages: nat, a: nat, len: nat)
    requires WfTb(tb, pages) && 0 < len && a % PAGE_SIZE + len <= PAGE_SIZE
    ensures Hits(tb, a, a + len) ==> OnPage(tb, a / PAGE_SIZE)
  {
    if !OnPage(tb, a / PAGE_SIZE) { OffPageMisses(tb, pages, a, len); }
  }

  /** The plain state that the links stand for. */
  ghost function ViewOf(k: Links, x: Index, dirty: seq<bv8>, tlb: TlbTable, ram: seq<bv8>): Machine {
    Machine(x.live, x.chained, k.pages.table.heads.Keys, dirty, tlb, ram)
  }

  /** tb_invalidate_phys_page_range. What of the range lies behind the page of its start is not looked at. It fails if and
      only if the range hits both parts of a TB whose two virtual pages lead to one physical page. */
  method InvalidatePhysPageRange(k: Links, dirty: seq<bv8>, a: nat, len: nat, cpuWrite: bool,
                                 ghost x: Index, cpus: nat, ghost tlb: TlbTable, ghost ram: seq<bv8>)
    returns (ok: bool, k': Links, dirty': seq<bv8>, ghost x': Index)
    requires Linked(k, x, cpus, |dirty|, {})
    requires 0 < len && a / PAGE_SIZE < |dirty|
    ensures ok <==> !AnyTwice(x.live, a, a + Clip(a, len))
    ensures |dirty'| == |dirty|
    ensures ok ==> ViewOf(k', x', dirty', tlb, ram) == SmcMachine.InvalidateRange(ViewOf(k, x, dirty, tlb, ram), a, a + Clip(a, len), cpuWrite)
    ensures ok && a / PAGE_SIZE in k.pages.table.heads && !HasCode(x'.live, a / PAGE_SIZE) ==>
              a / PAGE_SIZE !in k'.pages.bitmaps && a / PAGE_SIZE in k'.pages.counts && k'.pages.counts[a / PAGE_SIZE] == 0
    ensures ok ==> Linked(k', x', cpus, |dirty|, {}) && k'.tbs == k.tbs && Fewer(k'.cache, k.cache)
  {
    hide Linked, PagesOk, Hits, BitmapExact, SmcMachine.InvalidateRange, Fewer, AnyTwice, Clip;
    FewerSame(k.cache);
    LinkedPages(k, x, cpus, |dirty|, {});
    ghost var m := ViewOf(k, x, dirty, tlb, ram);
    var p := a / PAGE_SIZE;
    ok, k', dirty', x' := true, k, dirty, x;
    if p !in k.pages.table.heads {
      RangeWithoutDesc(k, x, dirty, tlb, ram, a, Clip(a, len), cpuWrite);
      return;
    }
    k' := CountWrite(k, p, cpuWrite, x, cpus, |dirty|);
    ok, k', x' := DropHits(k', a, len, x, cpus, |dirty|, {p});
    if !ok {
      return;
    }
    LinkedPages(k', x', cpus, |dirty|, {p});
    FirstTb(x'.live, k'.pages, x'.pageLists, x'.pageOwner, p);
    LinkedTight(k', x', cpus, |dirty|, p);
    if k'.pages.table.heads[p].None? {
      CountsOf(x'.live, k'.pages, x'.pageLists, x'.pageOwner);
      k' := k'.(pages := k'.pages.(bitmaps := k'.pages.bitmaps - {p}, counts := k'.pages.counts[p := 0]));
      if cpuWrite {
        dirty' := dirty[p := dirty[p] | CODE_DIRTY_FLAG];
      }
    }
    RangeView(m, x'.live, x'.chained, dirty', a, Clip(a, len), cpuWrite);
  }

  /** Counts a write to a page without a bitmap; the tenth one by the CPU builds the bitmap. */
  method CountWrite(k: Links, p: nat, cpuWrite: bool, ghost x: Index, ghost cpus: nat, ghost pages: nat) returns (k': Links)
    requires Linked(k, x, cpus, pages, {}) && p in k.pages.table.heads
    ensures Linked(k', x, cpus, pages, {p}) && k' == k.(pages := k'.pages) && k'.pages.table == k.pages.table
    ensures p in k.pages.bitmaps ==> k' == k
    ensures p !in k.pages.bitmaps ==> p in k.pages.counts && k'.pages.counts == k.pages.counts[p := k.pages.counts[p] + 1]
    ensures p !in k.pages.bitmaps ==> (p in k'.pages.bitmaps <==> k'.pages.counts[p] >= SMC_BITMAP_USE_THRESHOLD && cpuWrite)
  {
    hide Linked, PagesOk, BitmapExact;
    LinkedPages(k, x, cpus, pages, {});
    CountsOf(x.live, k.pages, x.pageLists, x.pageOwner);
    var descs := k.pages;
    if p !in descs.bitmaps {
      descs := descs.(counts := descs.counts[p := descs.counts[p] + 1]);
      if descs.counts[p] >= SMC_BITMAP_USE_THRESHOLD && cpuWrite {
        var bitmap := BuildPageBitmap(k.tbs, k.pages, p, x.live, pages, x.pageLists, x.pageOwner);
        descs := descs.(bitmaps := descs.bitmaps[p := bitmap]);
      }
    }
    k' := k.(pages := descs);
    LinkedLoose(k, k', x, cpus, pages, p);
  }

  lemma CountsOf(live: map<TbId, Tb>, pages: PageDescs, lists: map<nat, seq<Link>>, owner: map<Link, nat>)
    requires PagesOk(live, pages, lists, owner)
    ensures pages.counts.Keys == pages.table.heads.Keys
  {
  }

  /** Building a bitmap for a page, or counting, keeps the links good. */
  lemma LinkedLoose(k: Links, k': Links, x: Index, cpus: nat, pages: nat, p: nat)
    requires Linked(k, x, cpus, pages, {}) && k' == k.(pages := k'.pages) && k'.pages.table == k.pages.table
    requires k'.pages.counts.Keys == k.pages.counts.Keys
    requires k'.pages.bitmaps == k.pages.bitmaps ||
             (p in k'.pages.bitmaps && k'.pages.bitmaps == k.pages.bitmaps[p := k'.pages.bitmaps[p]] && BitmapExact(x.live, p, k'.pages.bitmaps[p]))
    ensures Linked(k', x, cpus, pages, {p})
  {
    hide HashOk, JumpsOk, CacheOk, Represents, PageOwners, BitmapExact;
  }

  lemma FirstTb(live: map<TbId, Tb>, pages: PageDescs, lists: map<nat, seq<Link>>, owner: map<Link, nat>, p: nat)
    requires PagesOk(live, pages, lists, owner) && p in pages.table.heads
    ensures pages.table.heads[p].None? <==> !HasCode(live, p)
  {
    hide PagesOk, Paired;
    var s := ListOnly(live, pages, lists, owner, p);
    if t :| t in live && OnPage(live[t], p) {
      assert Link(t, if live[t].page0 == p then 0 else 1) in s;
    }
    if pages.table.heads[p].Some? {
      assert s[0] in s;
      assert OnPage(live[s[0].tb], p);
    }
  }

  /** Once an empty page has lost its bitmap, no page without code has one. */
  lemma LinkedTight(k: Links, x: Index, cpus: nat, pages: nat, p: nat)
    requires Linked(k, x, cpus, pages, {p}) && p in k.pages.table.heads
    requires k.pages.table.heads[p].None? <==> !HasCode(x.live, p)
    ensures k.pages.table.heads[p].None? ==>
              p in k.pages.counts && Linked(k.(pages := k.pages.(bitmaps := k.pages.bitmaps - {p}, counts := k.pages.counts[p := 0])), x, cpus, pages, {})
    ensures k.pages.table.heads[p].Some? ==> Linked(k, x, cpus, pages, {})
  {
    hide HashOk, JumpsOk, CacheOk, Represents, PageOwners, BitmapExact;
  }

  lemma RangeView(m: Machine, live: map<TbId, Tb>, chained: map<Link, TbId>, dirty: seq<bv8>, a: nat, len: nat, cpuWrite: bool)
    requires a / PAGE_SIZE < |m.dirty| && a / PAGE_SIZE in m.descs && Submap(live, m.live) && Submap(chained, m.jumps)
    requires WfJumps(m.live, m.jumps)
    requires forall t :: t in live <==> t in m.live && !Hits(m.live[t], a, a + len)
    requires forall l :: l in chained <==> l in m.jumps && l.tb in live && m.jumps[l] in live
    requires dirty == if cpuWrite && !HasCode(live, a / PAGE_SIZE)
                      then m.dirty[a / PAGE_SIZE := m.dirty[a / PAGE_SIZE] | CODE_DIRTY_FLAG] else m.dirty
    ensures m.(live := live, jumps := chained, dirty := dirty) == SmcMachine.InvalidateRange(m, a, a + len, cpuWrite)
  {
    hide Hits, HasCode;
    var r := Keep(m, Missed(m.live, a, a + len));
    assert r.live == live;
    assert r.jumps == chained;
  }

  lemma RangeWithoutDesc(k: Links, x: Index, dirty: seq<bv8>, tlb: TlbTable, ram: seq<bv8>, a: nat, len: nat, cpuWrite: bool)
    requires PagesOk(x.live, k.pages, x.pageLists, x.pageOwner) && WfTbs(x.live, |dirty|) && WfJumps(x.live, x.chained)
    requires 0 < len && a % PAGE_SIZE + len <= PAGE_SIZE && a / PAGE_SIZE < |dirty|
    requires a / PAGE_SIZE !in k.pages.table.heads
    ensures var m := ViewOf(k, x, dirty, tlb, ram); m == SmcMachine.InvalidateRange(m, a, a + len, cpuWrite)
    ensures !AnyTwice(x.live, a, a + len)
  {
    hide PagesOk, Hits, WfTb, PartHit;
    var m := ViewOf(k, x, dirty, tlb, ram);
    forall t | t in m.live ensures !Hits(m.live[t], a, a + len) {
      HitsOnPage(m.live[t], |dirty|, a, len);
      if OnPage(m.live[t], a / PAGE_SIZE) { OnList(x.live, k.pages, x.pageLists, x.pageOwner, a / PAGE_SIZE, t); }
    }
    NeverTwice(x.live, a, a + len);
    var r := Keep(m, Missed(m.live, a, a + len));
    assert r.live == m.live;
    assert r.jumps == m.jumps;
  }

  // ---- tb_invalidate_phys_page_fast ----

  /** What of the `len` bytes at `a` the fast test looks at: those that share the byte of the bitmap. */
  function Tested(a: nat, len: nat): (r: nat)
    ensures r <= len && a % PAGE_SIZE % 8 + r <= 8 && (0 < len ==> 0 < r)
  {
    if a % PAGE_SIZE % 8 + len <= 8 then len else 8 - a % PAGE_SIZE % 8
  }

  ghost predicate AnyHit(live: map<TbId, Tb>, start: nat, end: nat) {
    exists t | t in live :: Hits(live[t], start, end)
  }

  /** The page has a bitmap, and the fast test finds no code. */
  ghost predicate Skips(k: Links, live: map<TbId, Tb>, a: nat, len: nat) {
    a / PAGE_SIZE in k.pages.bitmaps && !AnyHit(live, a, a + Tested(a, len))
  }

  /** The fast test finds code if and only if a TB is hit by the bytes that it looks at. */
  lemma FastTestSkips(k: Links, x: Index, cpus: nat, pages: nat, a: nat, len: nat)
    requires Linked(k, x, cpus, pages, {}) && a / PAGE_SIZE in k.pages.bitmaps && 0 < len <= 8
    ensures 8 * |k.pages.bitmaps[a / PAGE_SIZE]| == PAGE_SIZE
    ensures FastTest(k.pages.bitmaps[a / PAGE_SIZE], a % PAGE_SIZE, len) <==> AnyHit(x.live, a, a + Tested(a, len))
  {
    hide HashOk, JumpsOk, CacheOk, PagesOk, Hits, Bit, FastTest, HasCode;
    var p, off, n := a / PAGE_SIZE, a % PAGE_SIZE, Tested(a, len);
    var bitmap := k.pages.bitmaps[p];
    assert BitmapExact(x.live, p, bitmap);
    FastTestMeans(bitmap, off, len);
    forall i | off <= i < off + len ensures i / 8 == off / 8 <==> i < off + n {}
    if t :| t in x.live && Hits(x.live[t], a, a + n) {
      var b := HitByte(x.live[t], a, n);
      assert off + b - a < PAGE_SIZE;
      assert IsCode(x.live, b) && b == p * PAGE_SIZE + (off + b - a);
      assert Bit(bitmap, off + b - a);
    }
    if FastTest(bitmap, off, len) {
      var i :| off <= i < off + len && i / 8 == off / 8 && Bit(bitmap, i);
      assert IsCode(x.live, p * PAGE_SIZE + i);
      var t :| t in x.live && Hits(x.live[t], p * PAGE_SIZE + i, p * PAGE_SIZE + i + 1);
      HitsWider(x.live[t], p * PAGE_SIZE + i, a, n);
    }
  }

  /** Where nothing is hit, the full scan would invalidate nothing. */
  lemma NothingHit(k: Links, x: Index, cpus: nat, dirty: seq<bv8>, tlb: TlbTable, ram: seq<bv8>, a: nat, len: nat)
    requires Linked(k, x, cpus, |dirty|, {}) && a / PAGE_SIZE in k.pages.bitmaps && a / PAGE_SIZE < |dirty| && !AnyHit(x.live, a, a + len)
    ensures var m := ViewOf(k, x, dirty, tlb, ram); m == SmcMachine.InvalidateRange(m, a, a + len, true)
    ensures !AnyTwice(x.live, a, a + len)
  {
    hide HashOk, JumpsOk, CacheOk, PagesOk, Hits, BitmapExact, HasCode, AnyTwice;
    NeverTwice(x.live, a, a + len);
    var m := ViewOf(k, x, dirty, tlb, ram);
    var r := Keep(m, Missed(m.live, a, a + len));
    assert HasCode(x.live, a / PAGE_SIZE);
    assert r.live == m.live;
    assert r.jumps == m.jumps;
  }

  lemma NeverTwice(live: map<TbId, Tb>, start: nat, end: nat)
    requires forall t | t in live :: !Hits(live[t], start, end)
    ensures !AnyTwice(live, start, end)
  {
    hide Hits, PartHit;
    forall t | t in live ensures !TwiceHit(live[t], start, end) { HitsByPart(live[t], start, end); }
  }

  lemma HitByte(tb: Tb, a: nat, len: nat) returns (b: nat)
    requires Hits(tb, a, a + len)
    ensures a <= b < a + len && Hits(tb, b, b + 1)
  {
    var k :| 0 <= k < tb.size && (PageOff(tb.pc) + k < PAGE_SIZE || tb.page1.Some?) && a <= SrcAddr(tb, k) < a + len;
    b := SrcAddr(tb, k);
  }

  lemma HitsWider(tb: Tb, b: nat, a: nat, len: nat)
    requires Hits(tb, b, b + 1) && a <= b < a + len
    ensures Hits(tb, a, a + len)
  {
  }

  /** tb_invalidate_phys_page_fast, for any start. Where the stored bytes share one byte of the bitmap, as aligned stores
      of 1, 2, 4 and 8 bytes do, it does what the full scan does. Otherwise it may skip code behind that byte. */
  method InvalidatePhysPageFast(k: Links, dirty: seq<bv8>, a: nat, len: nat, ghost x: Index, cpus: nat,
                                ghost tlb: TlbTable, ghost ram: seq<bv8>)
    returns (ok: bool, k': Links, dirty': seq<bv8>, ghost x': Index)
    requires Linked(k, x, cpus, |dirty|, {}) && a / PAGE_SIZE < |dirty| && 0 < len <= 8
    ensures ok <==> Skips(k, x.live, a, len) || !AnyTwice(x.live, a, a + Clip(a, len))
    ensures |dirty'| == |dirty|
    ensures ok ==> var m := ViewOf(k, x, dirty, tlb, ram);
              ViewOf(k', x', dirty', tlb, ram) ==
                if Skips(k, x.live, a, len) then m else SmcMachine.InvalidateRange(m, a, a + Clip(a, len), true)
    ensures Tested(a, len) == len ==> (ok <==> !AnyTwice(x.live, a, a + len))
    ensures ok && Tested(a, len) == len ==>
              ViewOf(k', x', dirty', tlb, ram) == SmcMachine.InvalidateRange(ViewOf(k, x, dirty, tlb, ram), a, a + len, true)
    ensures ok ==> Linked(k', x', cpus, |dirty|, {}) && k'.tbs == k.tbs && Fewer(k'.cache, k.cache)
  {
    hide Linked, PagesOk, FastTest, SmcMachine.InvalidateRange, Hits, Fewer, AnyTwice, AnyHit, Clip, Tested;
    FewerSame(k.cache);
    LinkedPages(k, x, cpus, |dirty|, {});
    OneByte(a, len);
    var p := a / PAGE_SIZE;
    ok, k', dirty', x' := true, k, dirty, x;
    if p !in k.pages.table.heads {
      RangeWithoutDesc(k, x, dirty, tlb, ram, a, Clip(a, len), true);
      BitmapsListed(k, x, cpus, |dirty|, p);
      return;
    }
    if p in k.pages.bitmaps {
      FastTestSkips(k, x, cpus, |dirty|, a, len);
      if !FastTest(k.pages.bitmaps[p], a % PAGE_SIZE, len) {
        NothingHit(k, x, cpus, dirty, tlb, ram, a, Tested(a, len));
        return;
      }
    }
    ok, k', dirty', x' := InvalidatePhysPageRange(k, dirty, a, len, true, x, cpus, tlb, ram);
  }

  lemma OneByte(a: nat, len: nat)
    ensures Tested(a, len) == len <= 8 ==> Clip(a, len) == len
  {
    assert PAGE_SIZE == 8 * 512;
    var off := a % PAGE_SIZE;
    assert off - off % 8 + 8 <= PAGE_SIZE;
  }

  /** Only pages with a descriptor have a bitmap. */
  lemma BitmapsListed(k: Links, x: Index, cpus: nat, pages: nat, p: nat)
    requires Linked(k, x, cpus, pages, {}) && p !in k.pages.table.heads
    ensures p !in k.pages.bitmaps
  {
    hide HashOk, JumpsOk, CacheOk, PagesOk, Hits, BitmapExact;
    if p in k.pages.bitmaps {
      var t :| t in x.live && OnPage(x.live[t], p);
      OnList(x.live, k.pages, x.pageLists, x.pageOwner, p, t);
    }
  }
}

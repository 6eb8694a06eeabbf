/** Finding the translation block for a pc, or making it (libcpu/src/cpu-exec.c, exec-tb.c). */
module TbLookup {
  import opened Wrappers
  import opened IntrusiveLists
  import opened Tlb
  import opened SmcMachine
  import opened FlushRegion
  import opened TbLinks
  import opened TbInsert

  /** What a TB must agree with to be run at `pc`. */
  datatype Key = Key(pc: VAddr, csBase: nat, flags: nat, llvm: bool, page0: nat)

  predicate Matching(tb: Tb, key: Key) {
    tb.pc == key.pc && tb.page0 == key.page0 && tb.csBase == key.csBase && tb.flags == key.flags && (key.llvm ==> tb.llvm)
  }

  function KeyHash(key: Key): (h: nat)
    ensures h < CODE_GEN_PHYS_HASH_SIZE
    ensures forall tb | Matching(tb, key) :: HashOf(tb) == h
  {
    (key.page0 * PAGE_SIZE + PageOff(key.pc)) / 4 % CODE_GEN_PHYS_HASH_SIZE
  }

  function FirstMatch(tbs: map<TbId, Tb>, s: seq<TbId>, key: Key): Option<TbId> {
    if s == [] then None
    else if s[0] in tbs && Matching(tbs[s[0]], key) then Some(s[0])
    else FirstMatch(tbs, s[1..], key)
  }

  lemma {:induction false} FirstMatchAt(tbs: map<TbId, Tb>, s: seq<TbId>, key: Key, i: nat)
    requires i <= |s| && forall j | 0 <= j < i :: !(s[j] in tbs && Matching(tbs[s[j]], key))
    requires i < |s| ==> s[i] in tbs && Matching(tbs[s[i]], key)
    ensures FirstMatch(tbs, s, key) == NodeAt(s, i)
  {
    if i == 0 {
    } else {
      assert forall j | 0 <= j < i - 1 :: s[1..][j] == s[j + 1];
      FirstMatchAt(tbs, s[1..], key, i - 1);
    }
  }

  /** A new TB: the source bytes are the RAM bytes at `pc`, on the second page if they leave the first. */
  function NewTb(key: Key, size: nat, page1: nat, ram: seq<bv8>): (tb: Tb)
    requires 1 <= size <= PAGE_SIZE && |ram| % PAGE_SIZE == 0
    requires key.page0 < |ram| / PAGE_SIZE && (PageOff(key.pc) + size > PAGE_SIZE ==> page1 < |ram| / PAGE_SIZE)
    ensures Matching(tb, key) && WfTb(tb, |ram| / PAGE_SIZE) && Matches(tb, ram)
    ensures tb.size == size && (tb.page1.Some? ==> tb.page1.value == page1) && tb.llvm == key.llvm
  {
    var second := if PageOff(key.pc) + size > PAGE_SIZE then Some(page1) else None;
    var at := Tb(key.pc, key.csBase, key.flags, key.llvm, size, key.page0, second, []);
    at.(src := seq(size, k requires 0 <= k < size => assert SrcAddr(at, k) < |ram|; ram[SrcAddr(at, k)]))
  }

  // ---- The guest's page mapping ----

  datatype CpuPage = CpuPage(cpu: nat, page: VPage)

  /** Where each CPU's page tables map a virtual page of code. */
  type Mapping = map<CpuPage, nat>

  function NextPage(page: VPage): VPage { (page + 1) % PAGES }

  predicate MapsTo(maps: Mapping, cpu: nat, page: VPage, ram: nat) {
    var c := CpuPage(cpu, page);
    c in maps && maps[c] == ram
  }

  /** The TB lies where the CPU's page tables map its pc, and if `both`, its second page. */
  predicate Placed(tb: Tb, cpu: nat, maps: Mapping, both: bool) {
    && MapsTo(maps, cpu, PageOf(tb.pc), tb.page0)
    && (both && tb.page1.Some? ==> MapsTo(maps, cpu, NextPage(PageOf(tb.pc)), tb.page1.value))
  }

  ghost predicate CacheFits(live: map<TbId, Tb>, cache: map<CacheSlot, Option<TbId>>, maps: Mapping, both: bool) {
    forall c | c in cache && cache[c].Some? && cache[c].value in live :: Placed(live[cache[c].value], c.cpu, maps, both)
  }

  // ---- tb_gen_code ----

  ghost function AfterFlush(m: Machine, full: bool): Machine {
    if full then m.(live := map[], jumps := map[]) else m
  }

  /** tb_gen_code: `full` tells that the code buffer is full, so that everything is flushed first. */
  method GenCode(k: Links, dirty: seq<bv8>, tlb: TlbTable, t: TbId, tb: Tb, full: bool,
                 ghost x: Index, cpus: nat, modes: nat, ghost ram: seq<bv8>)
    returns (k': Links, dirty': seq<bv8>, tlb': TlbTable, ghost x': Index)
    requires Linked(k, x, cpus, |dirty|, {}) && t !in k.tbs && WfTb(tb, |dirty|) && TlbDomain(tlb, cpus, modes)
    ensures k'.tbs == (if full then map[] else k.tbs)[t := tb]
    ensures ViewOf(k', x', dirty', tlb', ram) == LinkTb(AfterFlush(ViewOf(k, x, dirty, tlb, ram), full), t, tb)
    ensures |dirty'| == |dirty| && TlbDomain(tlb', cpus, modes) && t in x'.live && x'.live[t] == tb
    ensures if full then forall c | c in k'.cache :: k'.cache[c] == None else k'.cache == k.cache
    ensures HashOf(tb) in k'.hash.heads && k'.hash.heads[HashOf(tb)] == Some(t)
    ensures HashOf(tb) in x'.hashLists && |x'.hashLists[HashOf(tb)]| > 0 && x'.hashLists[HashOf(tb)][0] == t
    ensures forall n | n in k.hash.next && n != t :: n in k'.hash.next && k'.hash.next[n] == k.hash.next[n]
    ensures Linked(k', x', cpus, |dirty|, {})
  {
    hide Linked, TlbDomain, WfTb, LinkTb;
    k', x' := k, x;
    if full {
      k', x' := FlushAll(k, x, cpus, |dirty|);
    }
    k', dirty', tlb', x' := LinkPage(k', dirty, tlb, t, tb, x', cpus, modes, ram);
    Linking(AfterFlush(ViewOf(k, x, dirty, tlb, ram), full), t, tb);
  }

  // ---- tb_find_slow ----

  /** Moving a TB to the front of its bucket changes nothing that the links stand for. */
  method ToFront(k: Links, h: nat, before: Option<TbId>, t: TbId, ghost i: nat, ghost x: Index, ghost cpus: nat, ghost pages: nat)
    returns (k': Links, ghost x': Index)
    requires Linked(k, x, cpus, pages, {}) && h in k.hash.heads && h in x.hashLists
    requires i < |x.hashLists[h]| && t == x.hashLists[h][i]
    requires before == if i == 0 then None else Some(x.hashLists[h][i - 1])
    ensures x'.hashLists == x.hashLists[h := [t] + Without(x.hashLists[h], i)]
    ensures Linked(k', x', cpus, pages, {}) && k' == k.(hash := k'.hash) && x'.live == x.live && x'.chained == x.chained
  {
    hide Represents, PagesOk, JumpsOk, CacheOk, BitmapsOk, WfTb;
    var hash; ghost var lists;
    hash, lists := MoveToFront(k.hash, h, before, t, i, x.hashLists, x.hashOwner);
    Filed(hash, lists, x.hashOwner, t);
    Filed(k.hash, x.hashLists, x.hashOwner, t);
    k', x' := k.(hash := hash), x.(hashLists := lists);
  }

  lemma Bucket(k: Links, x: Index, cpus: nat, pages: nat, h: nat)
    requires Linked(k, x, cpus, pages, {}) && h < CODE_GEN_PHYS_HASH_SIZE
    ensures h in k.hash.heads && h in x.hashLists && Chain(k.hash.heads[h], k.hash.next, x.hashLists[h])
    ensures forall t | t in x.hashLists[h] :: t in x.live && t in k.tbs && x.live[t] == k.tbs[t]
  {
    hide Represents, PagesOk, JumpsOk, CacheOk, BitmapsOk, WfTb;
    var s := ListOf(k.hash, h, x.hashLists, x.hashOwner);
  }

  lemma CacheAdd(k: Links, x: Index, cpus: nat, pages: nat, cpu: nat, t: TbId)
    requires Linked(k, x, cpus, pages, {}) && t in x.live && cpu < cpus
    ensures Linked(k.(cache := k.cache[CacheSlot(cpu, HashFunc(x.live[t].pc)) := Some(t)]), x, cpus, pages, {})
  {
    hide HashOk, PagesOk, JumpsOk, BitmapsOk, WfTb, HashFunc, HashPage;
  }

  /** tb_find_slow: the first TB of the bucket that agrees with the key, whatever its second page,
      or else a new one. Either becomes the head of its bucket and the cached TB for its pc. */
  method FindSlow(k: Links, dirty: seq<bv8>, tlb: TlbTable, cpu: nat, key: Key, t: TbId, tb: Tb, full: bool,
                  ghost x: Index, cpus: nat, modes: nat, ghost ram: seq<bv8>)
    returns (r: TbId, k': Links, dirty': seq<bv8>, tlb': TlbTable, ghost x': Index)
    requires Linked(k, x, cpus, |dirty|, {}) && t !in k.tbs && WfTb(tb, |dirty|) && TlbDomain(tlb, cpus, modes)
    requires cpu < cpus && Matching(tb, key)
    ensures KeyHash(key) in x.hashLists
    ensures var found := FirstMatch(k.tbs, x.hashLists[KeyHash(key)], key);
            var m := ViewOf(k, x, dirty, tlb, ram);
            && r == (if found.Some? then found.value else t)
            && ViewOf(k', x', dirty', tlb', ram) == (if found.Some? then m else LinkTb(AfterFlush(m, full), t, tb))
            && k'.tbs == (if found.Some? then k.tbs else (if full then map[] else k.tbs)[t := tb])
    ensures r in x'.live && Matching(x'.live[r], key)
    ensures var tb := x'.live[r]; tb.pc == key.pc && tb.page0 == key.page0 && tb.csBase == key.csBase && tb.flags == key.flags && (key.llvm ==> tb.llvm)
    ensures forall u | u in x.live && var tb := x.live[u]; tb.pc == key.pc && tb.page0 == key.page0 && tb.csBase == key.csBase && tb.flags == key.flags && (key.llvm ==> tb.llvm) ::
              r in x.live && ViewOf(k', x', dirty', tlb', ram) == ViewOf(k, x, dirty, tlb, ram)
    ensures KeyHash(key) in x'.hashLists && x'.hashLists[KeyHash(key)] != [] && x'.hashLists[KeyHash(key)][0] == r
    ensures CacheSlot(cpu, HashFunc(key.pc)) in k'.cache && k'.cache[CacheSlot(cpu, HashFunc(key.pc))] == Some(r)
    ensures forall c | c in k'.cache && c != CacheSlot(cpu, HashFunc(key.pc)) && k'.cache[c].Some? ::
              c in k.cache && k'.cache[c] == k.cache[c]
    ensures Linked(k', x', cpus, |dirty|, {}) && |dirty'| == |dirty| && TlbDomain(tlb', cpus, modes)
  {
    hide Linked, TlbDomain, WfTb, LinkTb, HashFunc, FirstMatch, KeyHash, HashOf, Matching, MapsTo, AfterFlush, ViewOf;
    var h := KeyHash(key);
    SameHash(tb, key);
    SearchComplete(k, x, cpus, |dirty|, key);
    SameFieldsAll(x.live, key);
    k', dirty', tlb', x' := k, dirty, tlb, x;
    var before, found; ghost var i;
    before, found, i := Search(k, key, x, cpus, |dirty|);
    if found.Some? {
      r := found.value;
    } else {
      k', dirty', tlb', x' := GenCode(k, dirty, tlb, t, tb, full, x, cpus, modes, ram);
      r := t;
      i := 0;
    }
    SameFields(x'.live[r], key);
    ghost var k1, x1 := k', x';
    k', x' := Promote(k', h, before, r, i, cpu, key.pc, x', cpus, |dirty|);
    SameView(k1, x1, k', x', dirty', tlb', ram);
  }

  lemma SameView(k: Links, x: Index, k': Links, x': Index, dirty: seq<bv8>, tlb: TlbTable, ram: seq<bv8>)
    requires k'.pages == k.pages && x'.live == x.live && x'.chained == x.chained
    ensures ViewOf(k', x', dirty, tlb, ram) == ViewOf(k, x, dirty, tlb, ram)
  {
  }

  lemma SameHash(tb: Tb, key: Key)
    requires Matching(tb, key)
    ensures HashOf(tb) == KeyHash(key)
  {
  }

  lemma SameFields(tb: Tb, key: Key)
    ensures Matching(tb, key) <==>
            tb.pc == key.pc && tb.page0 == key.page0 && tb.csBase == key.csBase && tb.flags == key.flags && (key.llvm ==> tb.llvm)
  {
  }

  lemma SameFieldsAll(live: map<TbId, Tb>, key: Key)
    ensures forall u | u in live && var tb := live[u]; tb.pc == key.pc && tb.page0 == key.page0 && tb.csBase == key.csBase && tb.flags == key.flags && (key.llvm ==> tb.llvm) :: Matching(live[u], key)
  {
  }

  /** The loop of tb_find_slow. `before` is the TB whose next link was followed last, or None for the bucket's head. */
  method Search(k: Links, key: Key, ghost x: Index, ghost cpus: nat, ghost pages: nat)
    returns (before: Option<TbId>, found: Option<TbId>, ghost i: nat)
    requires Linked(k, x, cpus, pages, {})
    ensures KeyHash(key) in x.hashLists && KeyHash(key) in k.hash.heads && i <= |x.hashLists[KeyHash(key)]|
    ensures found == FirstMatch(k.tbs, x.hashLists[KeyHash(key)], key)
    ensures found.Some? ==> i < |x.hashLists[KeyHash(key)]| && found.value == x.hashLists[KeyHash(key)][i]
    ensures found.Some? ==> found.value in x.live && found.value in k.tbs && Matching(x.live[found.value], key)
    ensures found.Some? ==> var tb := x.live[found.value]; tb.pc == key.pc && tb.page0 == key.page0 && tb.csBase == key.csBase && tb.flags == key.flags && (key.llvm ==> tb.llvm)
    ensures forall t | t in x.hashLists[KeyHash(key)][..i] ::
      t in x.live && var tb := x.live[t]; !(tb.pc == key.pc && tb.page0 == key.page0 && tb.csBase == key.csBase && tb.flags == key.flags && (key.llvm ==> tb.llvm))
    ensures found.None? ==> i == |x.hashLists[KeyHash(key)]|
    ensures before == if i == 0 then None else Some(x.hashLists[KeyHash(key)][i - 1])
    ensures before.Some? ==> before.value in k.tbs && before.value in k.hash.next
    ensures found == if before.None? then k.hash.heads[KeyHash(key)] else k.hash.next[before.value]
  {
    hide Linked, FirstMatch, Chain, KeyHash;
    var h := KeyHash(key);
    Bucket(k, x, cpus, pages, h);
    ghost var s := x.hashLists[h];
    before, found, i := Locate(k.hash, h, (n: TbId) => n in k.tbs && Matching(k.tbs[n], key), s);
    FirstMatchAt(k.tbs, s, key, i);
    ChainNext(k.hash.heads[h], k.hash.next, s, 0);
    if i > 0 {
      ChainNext(k.hash.heads[h], k.hash.next, s, i - 1);
      assert s[i - 1] in s;
    }
  }

  /** The end of tb_find_slow: the link that was followed last still holds a TB, the found one, or the new one in an
      empty bucket; or else the new TB already is the head of its bucket. */
  method Promote(k: Links, h: nat, before: Option<TbId>, r: TbId, ghost i: nat, cpu: nat, pc: VAddr,
                 ghost x: Index, cpus: nat, ghost pages: nat)
    returns (k': Links, ghost x': Index)
    requires Linked(k, x, cpus, pages, {}) && h in k.hash.heads && h in x.hashLists && r in x.live && x.live[r].pc == pc && cpu < cpus
    requires i < |x.hashLists[h]| && r == x.hashLists[h][i]
    requires before.Some? ==> before.value in k.hash.next
    requires var last := if before.None? then k.hash.heads[h] else k.hash.next[before.value];
      if last.Some? then before == (if i == 0 then None else Some(x.hashLists[h][i - 1])) else i == 0
    ensures h in x'.hashLists && x'.hashLists[h] != [] && x'.hashLists[h][0] == r
    ensures k'.cache == k.cache[CacheSlot(cpu, HashFunc(pc)) := Some(r)]
    ensures Linked(k', x', cpus, pages, {}) && k'.tbs == k.tbs && k'.pages == k.pages && x'.live == x.live && x'.chained == x.chained
  {
    hide Linked, HashFunc, Without;
    k', x' := k, x;
    var last := if before.None? then k.hash.heads[h] else k.hash.next[before.value];
    if last.Some? {
      k', x' := ToFront(k, h, before, r, i, x, cpus, pages);
    }
    CacheAdd(k', x', cpus, pages, cpu, r);
    k' := k'.(cache := k'.cache[CacheSlot(cpu, HashFunc(pc)) := Some(r)]);
  }

  lemma Linking(m: Machine, t: TbId, tb: Tb)
    requires WfTb(tb, |m.dirty|)
    ensures LinkTb(m, t, tb).live == m.live[t := tb]
  {
  }

  /** The bucket search is complete: it fails only if no live TB agrees with the key. */
  lemma SearchComplete(k: Links, x: Index, cpus: nat, pages: nat, key: Key)
    requires Linked(k, x, cpus, pages, {})
    ensures KeyHash(key) in x.hashLists
    ensures FirstMatch(k.tbs, x.hashLists[KeyHash(key)], key).Some? <==> exists t | t in x.live :: Matching(x.live[t], key)
  {
    hide PagesOk, JumpsOk, CacheOk, BitmapsOk, WfTb, Represents;
    var h := KeyHash(key);
    var s := ListOf(k.hash, h, x.hashLists, x.hashOwner);
    FirstMatchIn(k.tbs, s, key);
    if t :| t in x.live && Matching(x.live[t], key) {
      assert HashOf(x.live[t]) == h && t in s;
    }
  }

  lemma {:induction false} FirstMatchIn(tbs: map<TbId, Tb>, s: seq<TbId>, key: Key)
    ensures var r := FirstMatch(tbs, s, key);
      if r.Some? then r.value in s && r.value in tbs && Matching(tbs[r.value], key)
      else forall t | t in s && t in tbs :: !Matching(tbs[t], key)
  {
    if s == [] {
    } else {
      FirstMatchIn(tbs, s[1..], key);
      assert s == [s[0]] + s[1..];
    }
  }

  // ---- tb_find_fast ----

  /** tb_find_fast: the cached TB is used without looking at physical addresses, yet like the slow
      search it returns a live TB that agrees with the whole key, physical page included. */
  method FindFast(k: Links, dirty: seq<bv8>, tlb: TlbTable, cpu: nat, key: Key, t: TbId, tb: Tb, full: bool,
                  ghost x: Index, cpus: nat, modes: nat, ghost ram: seq<bv8>, ghost maps: Mapping)
    returns (r: TbId, k': Links, dirty': seq<bv8>, tlb': TlbTable, ghost x': Index)
    requires Linked(k, x, cpus, |dirty|, {}) && t !in k.tbs && WfTb(tb, |dirty|) && TlbDomain(tlb, cpus, modes)
    requires cpu < cpus && Matching(tb, key)
    requires CacheFits(x.live, k.cache, maps, false) && MapsTo(maps, cpu, PageOf(key.pc), key.page0)
    ensures r in x'.live && Matching(x'.live[r], key)
    ensures CacheFits(x'.live, k'.cache, maps, false)
    ensures var m := ViewOf(k, x, dirty, tlb, ram);
            ViewOf(k', x', dirty', tlb', ram) ==
              if exists u | u in x.live :: Matching(x.live[u], key) then m else LinkTb(AfterFlush(m, full), t, tb)
    ensures var c := CacheSlot(cpu, HashFunc(key.pc));
            c in k.cache && (k.cache[c].Some? && k.cache[c].value in x.live && Matching(x.live[k.cache[c].value], key) ==>
              r == k.cache[c].value && k' == k)
    ensures k'.tbs == if exists u | u in x.live :: Matching(x.live[u], key) then k.tbs else (if full then map[] else k.tbs)[t := tb]
    ensures forall u | u in x.live && var tb := x.live[u]; tb.pc == key.pc && tb.page0 == key.page0 && tb.csBase == key.csBase && tb.flags == key.flags && (key.llvm ==> tb.llvm) ::
              r in x.live && ViewOf(k', x', dirty', tlb', ram) == ViewOf(k, x, dirty, tlb, ram)
    ensures var tb := x'.live[r]; tb.pc == key.pc && tb.page0 == key.page0 && tb.csBase == key.csBase && tb.flags == key.flags && (key.llvm ==> tb.llvm)
    ensures Linked(k', x', cpus, |dirty|, {}) && |dirty'| == |dirty| && TlbDomain(tlb', cpus, modes)
  {
    hide Linked, TlbDomain, WfTb, LinkTb, HashFunc, FirstMatch, Matching, KeyHash, HashOf, CacheFits, MapsTo;
    var c := CacheSlot(cpu, HashFunc(key.pc));
    CacheLive(k, x, cpus, |dirty|, c);
    SearchComplete(k, x, cpus, |dirty|, key);
    SameFieldsAll(x.live, key);
    var cached := k.cache[c];
    if cached.Some? {
      SameFields(x.live[cached.value], key);
      CachedPage(x.live, k.cache, c, maps, key);
    }
    if cached.None? || k.tbs[cached.value].pc != key.pc || k.tbs[cached.value].csBase != key.csBase
       || k.tbs[cached.value].flags != key.flags || (key.llvm && !k.tbs[cached.value].llvm) {
      r, k', dirty', tlb', x' := FindSlow(k, dirty, tlb, cpu, key, t, tb, full, x, cpus, modes, ram);
      Linking(AfterFlush(ViewOf(k, x, dirty, tlb, ram), full), t, tb);
      CacheLives(k, x, cpus, |dirty|);
      SlowFits(x.live, k.cache, x'.live, k'.cache, c, r, t, maps, key);
    } else {
      r, k', dirty', tlb', x' := cached.value, k, dirty, tlb, x;
    }
  }

  /** What the slow search leaves in the cache is where the page tables map it. */
  lemma SlowFits(live: map<TbId, Tb>, cache: map<CacheSlot, Option<TbId>>, live': map<TbId, Tb>, cache': map<CacheSlot, Option<TbId>>,
                 c: CacheSlot, r: TbId, t: TbId, maps: Mapping, key: Key)
    requires CacheFits(live, cache, maps, false) && forall d | d in cache && cache[d].Some? :: cache[d].value in live && cache[d].value != t
    requires forall u | u in live' && u != t :: u in live && live'[u] == live[u]
    requires forall d | d in cache' && d != c && cache'[d].Some? :: d in cache && cache'[d] == cache[d]
    requires c in cache' && cache'[c] == Some(r) && r in live' && Matching(live'[r], key) && MapsTo(maps, c.cpu, PageOf(key.pc), key.page0)
    ensures CacheFits(live', cache', maps, false)
  {
  }

  /** A cached TB with the key's pc is on the key's physical page. */
  lemma CachedPage(live: map<TbId, Tb>, cache: map<CacheSlot, Option<TbId>>, c: CacheSlot, maps: Mapping, key: Key)
    requires CacheFits(live, cache, maps, false) && c in cache && cache[c].Some? && cache[c].value in live
    requires MapsTo(maps, c.cpu, PageOf(key.pc), key.page0)
    ensures live[cache[c].value].pc == key.pc ==> live[cache[c].value].page0 == key.page0
  {
  }

  lemma CacheLive(k: Links, x: Index, cpus: nat, pages: nat, c: CacheSlot)
    requires Linked(k, x, cpus, pages, {}) && c.cpu < cpus && c.hash < TB_JMP_CACHE_SIZE
    ensures c in k.cache
    ensures k.cache[c].Some? ==> k.cache[c].value in x.live && k.cache[c].value in k.tbs && k.tbs[k.cache[c].value] == x.live[k.cache[c].value]
  {
    hide HashOk, PagesOk, JumpsOk, BitmapsOk, WfTb, HashFunc;
  }

  lemma CacheLives(k: Links, x: Index, cpus: nat, pages: nat)
    requires Linked(k, x, cpus, pages, {})
    ensures forall c | c in k.cache && k.cache[c].Some? :: k.cache[c].value in x.live && k.cache[c].value in k.tbs
  {
    hide HashOk, PagesOk, JumpsOk, BitmapsOk, WfTb, HashFunc;
  }

  // ---- The second page ----

  /** The search that also demands the second page to be where the page tables map it. */
  function FirstPlaced(tbs: map<TbId, Tb>, s: seq<TbId>, key: Key, cpu: nat, maps: Mapping): Option<TbId> {
    if s == [] then None
    else if s[0] in tbs && Matching(tbs[s[0]], key) && Placed(tbs[s[0]], cpu, maps, true) then Some(s[0])
    else FirstPlaced(tbs, s[1..], key, cpu, maps)
  }

  /** tb_find_slow compares the second page but takes the TB in either case. It finds the TB that
      the strict search finds if and only if the first TB that agrees with the key is well placed. */
  lemma SecondPageExact(tbs: map<TbId, Tb>, s: seq<TbId>, key: Key, cpu: nat, maps: Mapping)
    ensures FirstMatch(tbs, s, key) == FirstPlaced(tbs, s, key, cpu, maps) <==>
            forall i | 0 <= i < |s| && s[i] in tbs && Matching(tbs[s[i]], key)
                       && (forall j | 0 <= j < i :: s[j] in tbs ==> !Matching(tbs[s[j]], key)) ::
              Placed(tbs[s[i]], cpu, maps, true)
  {
    FirstMatchIn(tbs, s, key);
    FirstPlacedIn(tbs, s, key, cpu, maps);
    var r := FirstMatch(tbs, s, key);
    if i :| 0 <= i < |s| && s[i] in tbs && Matching(tbs[s[i]], key) && (forall j | 0 <= j < i :: s[j] in tbs ==> !Matching(tbs[s[j]], key)) {
      FirstMatchAt(tbs, s, key, i);
      assert r == Some(s[i]);
      if Placed(tbs[s[i]], cpu, maps, true) {
        FirstPlacedAt(tbs, s, key, cpu, maps, i);
      }
    } else if r.Some? {
      FirstIndex(tbs, s, key);
    }
  }

  lemma {:induction false} FirstIndex(tbs: map<TbId, Tb>, s: seq<TbId>, key: Key)
    requires FirstMatch(tbs, s, key).Some?
    ensures exists i | 0 <= i < |s| :: s[i] in tbs && Matching(tbs[s[i]], key)
                       && (forall j | 0 <= j < i :: s[j] in tbs ==> !Matching(tbs[s[j]], key))
  {
    if s[0] in tbs && Matching(tbs[s[0]], key) {
    } else {
      FirstIndex(tbs, s[1..], key);
      var i :| 0 <= i < |s[1..]| && s[1..][i] in tbs && Matching(tbs[s[1..][i]], key)
                       && (forall j | 0 <= j < i :: s[1..][j] in tbs ==> !Matching(tbs[s[1..][j]], key));
      forall j | 0 <= j < i + 1 && s[j] in tbs ensures !Matching(tbs[s[j]], key) {
        if j > 0 { assert s[j] == s[1..][j - 1]; }
      }
      assert s[i + 1] == s[1..][i];
    }
  }

  lemma {:induction false} FirstPlacedIn(tbs: map<TbId, Tb>, s: seq<TbId>, key: Key, cpu: nat, maps: Mapping)
    ensures var r := FirstPlaced(tbs, s, key, cpu, maps);
      r.Some? ==> r.value in s && r.value in tbs && Matching(tbs[r.value], key) && Placed(tbs[r.value], cpu, maps, true)
  {
    if s == [] {
    } else {
      FirstPlacedIn(tbs, s[1..], key, cpu, maps);
    }
  }

  lemma {:induction false} FirstPlacedAt(tbs: map<TbId, Tb>, s: seq<TbId>, key: Key, cpu: nat, maps: Mapping, i: nat)
    requires i < |s| && s[i] in tbs && Matching(tbs[s[i]], key) && Placed(tbs[s[i]], cpu, maps, true)
    requires forall j | 0 <= j < i :: s[j] in tbs ==> !Matching(tbs[s[j]], key)
    ensures FirstPlaced(tbs, s, key, cpu, maps) == Some(s[i])
  {
    if i == 0 {
    } else {
      assert forall j | 0 <= j < i - 1 :: s[1..][j] == s[j + 1];
      FirstPlacedAt(tbs, s[1..], key, cpu, maps, i - 1);
    }
  }

  /** The TB's source is what the CPU finds in RAM from the TB's pc on. */
  ghost predicate IsGuestCode(tb: Tb, cpu: nat, maps: Mapping, ram: seq<bv8>)
    requires |tb.src| == tb.size
  {
    forall k | 0 <= k < tb.size :: GuestByte(tb.pc, k, cpu, maps, ram) == Some(tb.src[k])
  }

  /** The byte `k` behind `pc`, if the CPU maps it. */
  function GuestByte(pc: VAddr, k: nat, cpu: nat, maps: Mapping, ram: seq<bv8>): Option<bv8> {
    var x := PageOff(pc) + k;
    var c := CpuPage(cpu, if x < PAGE_SIZE then PageOf(pc) else NextPage(PageOf(pc)));
    if c in maps && maps[c] * PAGE_SIZE + x % PAGE_SIZE < |ram| then Some(ram[maps[c] * PAGE_SIZE + x % PAGE_SIZE]) else None
  }

  /** Whatever RAM holds, as long as the TB matches it, the TB is what the CPU finds at its pc. */
  ghost predicate AlwaysGuestCode(tb: Tb, pages: nat, cpu: nat, maps: Mapping)
    requires WfTb(tb, pages)
  {
    forall ram: seq<bv8> | |ram| == pages * PAGE_SIZE && Matches(tb, ram) :: IsGuestCode(tb, cpu, maps, ram)
  }

  /** A TB that lies where its pc is mapped, which is all that the search makes sure of, is the code that the CPU
      would read if and only if its second page, too, is where the page tables map it. */
  lemma GuestCodeExact(tb: Tb, pages: nat, cpu: nat, maps: Mapping)
    requires WfTb(tb, pages) && Placed(tb, cpu, maps, false)
    ensures AlwaysGuestCode(tb, pages, cpu, maps) <==> Placed(tb, cpu, maps, true)
  {
    if Placed(tb, cpu, maps, true) {
      forall ram: seq<bv8> | |ram| == pages * PAGE_SIZE && Matches(tb, ram) ensures IsGuestCode(tb, cpu, maps, ram) {
        PlacedReads(tb, cpu, maps, ram);
      }
    } else {
      var ram := Misleading(tb, pages, cpu, maps);
    }
  }

  lemma PlacedReads(tb: Tb, cpu: nat, maps: Mapping, ram: seq<bv8>)
    requires WfTb(tb, |ram| / PAGE_SIZE) && Placed(tb, cpu, maps, true) && Matches(tb, ram)
    ensures IsGuestCode(tb, cpu, maps, ram)
  {
    forall k | 0 <= k < tb.size ensures GuestByte(tb.pc, k, cpu, maps, ram) == Some(tb.src[k]) {
      assert ram[SrcAddr(tb, k)] == tb.src[k];
    }
  }

  /** RAM that holds the TB's source, and another byte where the second page is mapped. */
  lemma Misleading(tb: Tb, pages: nat, cpu: nat, maps: Mapping) returns (ram: seq<bv8>)
    requires WfTb(tb, pages) && Placed(tb, cpu, maps, false) && !Placed(tb, cpu, maps, true)
    ensures |ram| == pages * PAGE_SIZE && Matches(tb, ram) && !IsGuestCode(tb, cpu, maps, ram)
  {
    var k := PAGE_SIZE - PageOff(tb.pc);
    var c := CpuPage(cpu, NextPage(PageOf(tb.pc)));
    ram := Holding(tb, pages);
    if c in maps && maps[c] < pages {
      var b := maps[c] * PAGE_SIZE;
      ram := ram[b := tb.src[k] ^ 1];
      Flip(tb.src[k]);
      forall j | 0 <= j < tb.size ensures SrcAddr(tb, j) != b {}
    }
    assert GuestByte(tb.pc, k, cpu, maps, ram) != Some(tb.src[k]);
  }

  lemma Flip(b: bv8)
    ensures b ^ 1 != b
  {
  }

  /** RAM that holds the TB's source. */
  lemma Holding(tb: Tb, pages: nat) returns (ram: seq<bv8>)
    requires WfTb(tb, pages)
    ensures |ram| == pages * PAGE_SIZE && Matches(tb, ram)
  {
    var off := PageOff(tb.pc);
    ram := seq(pages * PAGE_SIZE, _ => 0);
    if tb.page1.Some? {
      ram := Write(ram, tb.page1.value * PAGE_SIZE, tb.src[PAGE_SIZE - off..]);
      ram := Write(ram, tb.page0 * PAGE_SIZE + off, tb.src[..PAGE_SIZE - off]);
    } else {
      ram := Write(ram, tb.page0 * PAGE_SIZE + off, tb.src);
    }
    forall k | 0 <= k < tb.size ensures SrcAddr(tb, k) < |ram| && ram[SrcAddr(tb, k)] == tb.src[k] {}
  }

  // ---- Chained jumps ----

  /** A chained jump skips the search and is not undone when a page is flushed. Whenever its source lies where its pc is
      mapped, whatever the page tables are by then, the jump leads to where the CPU maps its pc if and only if both TBs
      start on the same virtual page and the same RAM page. Where the second page of the source is in place, too, it may
      also be that one. The translator makes no other jumps. */
  lemma JumpExact(src: Tb, dest: Tb)
    ensures (forall cpu, maps | Placed(src, cpu, maps, false) :: Placed(dest, cpu, maps, false)) <==> OnFirst(src, dest)
    ensures (forall cpu, maps | Placed(src, cpu, maps, true) :: Placed(dest, cpu, maps, false)) <==> OnFirst(src, dest) || OnSecond(src, dest)
  {
    var v, next := PageOf(src.pc), NextPage(PageOf(src.pc));
    assert next != v;
    var one: Mapping := map[CpuPage(0, v) := src.page0];
    var two: Mapping := if src.page1.Some? then one[CpuPage(0, next) := src.page1.value] else one;
    assert Placed(src, 0, one, false) && Placed(src, 0, two, true);
    assert Placed(dest, 0, one, false) <==> OnFirst(src, dest);
    assert Placed(dest, 0, two, false) <==> OnFirst(src, dest) || OnSecond(src, dest);
  }

  predicate OnFirst(src: Tb, dest: Tb) {
    PageOf(dest.pc) == PageOf(src.pc) && dest.page0 == src.page0
  }

  predicate OnSecond(src: Tb, dest: Tb) {
    PageOf(dest.pc) == NextPage(PageOf(src.pc)) && src.page1 == Some(dest.page0)
  }

  /** gen_goto_tb lets a jump be chained if it leads to the virtual page of the first or of the last byte of its source.
      If both TBs are in place when it is chained, it leads to the source's first or second page. */
  lemma GotoTb(src: Tb, pages: nat, dest: Tb, cpu: nat, maps: Mapping)
    requires WfTb(src, pages) && Placed(src, cpu, maps, true) && Placed(dest, cpu, maps, false)
    requires PageOf(dest.pc) == PageOf(src.pc) || PageOf(dest.pc) == PageOf(Plus(src.pc, src.size - 1))
    ensures OnFirst(src, dest) || OnSecond(src, dest)
  {
    LastPage(src, pages);
  }

  lemma LastPage(src: Tb, pages: nat)
    requires WfTb(src, pages)
    ensures PageOf(Plus(src.pc, src.size - 1)) == if src.page1.Some? then NextPage(PageOf(src.pc)) else PageOf(src.pc)
  {
    var x := src.pc + src.size - 1;
    NextOrSame(src.pc, src.size - 1);
    assert Plus(src.pc, src.size - 1) == if x < ADDRESSES then x else x - ADDRESSES;
  }

  /** Among TBs that are not well placed, the strict search finds none. */
  lemma NonePlaced(tbs: map<TbId, Tb>, s: seq<TbId>, key: Key, cpu: nat, maps: Mapping)
    requires forall t | t in s && t in tbs && Matching(tbs[t], key) :: !Placed(tbs[t], cpu, maps, true)
    ensures FirstPlaced(tbs, s, key, cpu, maps) == None
  {
    FirstPlacedIn(tbs, s, key, cpu, maps);
  }
}

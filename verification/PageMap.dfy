/** The multi-level map from page numbers to page descriptors (libcpu/src/exec-phystb.c,
    exec-tb.c: page_flush_tb, exec.h).

    The map is a radix tree: a fixed first level of `top` slots, then `levels` levels of
    nodes with 1024 slots each, the lowest of which hold the descriptors. Nodes are
    allocated on demand and are told apart by their address.
 */
module PageMap {
  import opened Wrappers

  const L2_SIZE: nat := 1024

  type Ptr = nat

  datatype Desc = Desc(firstTb: Option<nat>, bitmap: Option<nat>, writes: nat)

  const ZERO := Desc(None, None, 0)

  datatype Node = Table(slots: seq<Option<Ptr>>) | Leaf(descs: seq<Desc>)

  /** l1_map and the allocated nodes. */
  datatype Tree = Tree(root: seq<Option<Ptr>>, nodes: map<Ptr, Node>)

  /** A pointer to a pointer: slot `t` of the first level, or slot `d` of a node. */
  datatype Slot = RootSlot(t: nat) | NodeSlot(p: Ptr, d: nat)

  datatype DescPtr = DescPtr(leaf: Ptr, d: nat)

  // ---- Page numbers ----

  /** index >> (h * L2_BITS) */
  function Prefix(index: nat, h: nat): nat {
    if h == 0 then index else Prefix(index, h - 1) / L2_SIZE
  }

  /** Which of a node's slots, at height `h` above the descriptors, the index selects. */
  function Digit(index: nat, h: nat): (d: nat)
    ensures d < L2_SIZE
  {
    Prefix(index, h) % L2_SIZE
  }

  /** Which node of height `h` the index leads to, among all there can be. */
  function Key(index: nat, h: nat, levels: nat, top: nat): nat
    requires h < levels && top > 0
    decreases levels - h
  {
    if h == levels - 1 then Prefix(index, levels) % top
    else Key(index, h + 1, levels, top) * L2_SIZE + Digit(index, h + 1)
  }

  /** The page number without the bits that the map drops. */
  function Reduced(index: nat, levels: nat, top: nat): nat
    requires levels > 0 && top > 0
  {
    Key(index, 0, levels, top) * L2_SIZE + Digit(index, 0)
  }

  lemma {:induction false} KeyIsPrefix(index: nat, h: nat, levels: nat, top: nat)
    requires h < levels && Prefix(index, levels) < top
    ensures Key(index, h, levels, top) == Prefix(index, h + 1)
    decreases levels - h
  {
    if h == levels - 1 {
    } else {
      KeyIsPrefix(index, h + 1, levels, top);
    }
  }

  /** Page numbers in range are not reduced. */
  lemma InRange(index: nat, levels: nat, top: nat)
    requires levels > 0 && Prefix(index, levels) < top
    ensures Reduced(index, levels, top) == index
  {
    KeyIsPrefix(index, 0, levels, top);
    assert Prefix(index, 1) == Prefix(index, 0) / L2_SIZE;
  }

  // ---- The tree ----

  /** The place of a node in the full tree. */
  datatype Home = Home(h: nat, key: nat)

  predicate ValidSlot(t: Tree, s: Slot) {
    match s
    case RootSlot(i) => i < |t.root|
    case NodeSlot(p, d) => p in t.nodes && t.nodes[p].Table? && d < |t.nodes[p].slots|
  }

  function Get(t: Tree, s: Slot): Option<Ptr> {
    if !ValidSlot(t, s) then None
    else match s case RootSlot(i) => t.root[i] case NodeSlot(p, d) => t.nodes[p].slots[d]
  }

  function Put(t: Tree, s: Slot, p: Ptr): Tree
    requires ValidSlot(t, s)
  {
    match s
    case RootSlot(i) => t.(root := t.root[i := Some(p)])
    case NodeSlot(q, d) => t.(nodes := t.nodes[q := Table(t.nodes[q].slots[d := Some(p)])])
  }

  /** Where a node hanging from the slot would be. */
  function Below(s: Slot, home: map<Ptr, Home>, levels: nat): Home
    requires levels > 0
  {
    match s
    case RootSlot(i) => Home(levels - 1, i)
    case NodeSlot(p, d) => if p in home && home[p].h > 0 then Home(home[p].h - 1, home[p].key * L2_SIZE + d) else Home(levels, 0)
  }

  ghost predicate NodeOk(n: Node, h: nat) {
    if h == 0 then n.Leaf? && |n.descs| == L2_SIZE else n.Table? && |n.slots| == L2_SIZE
  }

  /** Every node hangs where its home is, so two nodes never share a descendant. */
  ghost predicate Wf(t: Tree, home: map<Ptr, Home>, levels: nat, top: nat) {
    && levels > 0 && top > 0 && |t.root| == top && home.Keys == t.nodes.Keys
    && (forall p | p in t.nodes :: home[p].h < levels && NodeOk(t.nodes[p], home[p].h))
    && (forall s | Get(t, s).Some? :: Get(t, s).value in t.nodes && home[Get(t, s).value] == Below(s, home, levels))
  }

  /** The slot for nodes of height `h` on the path of an index, if the path reaches that far. */
  function SlotAt(t: Tree, index: nat, h: nat, levels: nat): Option<Slot>
    requires h < levels && |t.root| > 0
    decreases levels - h
  {
    if h == levels - 1 then Some(RootSlot(Prefix(index, levels) % |t.root|))
    else
      var up := SlotAt(t, index, h + 1, levels);
      if up.None? || Get(t, up.value).None? then None
      else Some(NodeSlot(Get(t, up.value).value, Digit(index, h + 1)))
  }

  /** page_find */
  function Find(t: Tree, index: nat, levels: nat): Option<DescPtr>
    requires levels > 0 && |t.root| > 0
  {
    var s := SlotAt(t, index, 0, levels);
    if s.None? || Get(t, s.value).None? then None else Some(DescPtr(Get(t, s.value).value, Digit(index, 0)))
  }

  // ---- Paths ----

  lemma {:induction false} SlotHome(t: Tree, home: map<Ptr, Home>, levels: nat, top: nat, index: nat, h: nat)
    requires Wf(t, home, levels, top) && h < levels
    ensures var s := SlotAt(t, index, h, levels);
      s.Some? ==> ValidSlot(t, s.value) && Below(s.value, home, levels) == Home(h, Key(index, h, levels, top))
    decreases levels - h
  {
    if h == levels - 1 {
    } else {
      SlotHome(t, home, levels, top, index, h + 1);
      var up := SlotAt(t, index, h + 1, levels);
      if up.Some? && Get(t, up.value).Some? {
        var p := Get(t, up.value).value;
        assert home[p] == Home(h + 1, Key(index, h + 1, levels, top)) && NodeOk(t.nodes[p], h + 1);
      }
    }
  }

  /** Different numbers, as far as the map tells them apart, get different descriptors. */
  lemma Injective(t: Tree, home: map<Ptr, Home>, levels: nat, top: nat, i: nat, j: nat)
    requires Wf(t, home, levels, top)
    requires Find(t, i, levels).Some? && Find(t, j, levels).Some?
    ensures Find(t, i, levels) == Find(t, j, levels) <==> Reduced(i, levels, top) == Reduced(j, levels, top)
  {
    SlotHome(t, home, levels, top, i, 0);
    SlotHome(t, home, levels, top, j, 0);
    if Reduced(i, levels, top) == Reduced(j, levels, top) {
      assert Key(i, 0, levels, top) == Key(j, 0, levels, top) && Digit(i, 0) == Digit(j, 0);
      SamePath(t, levels, top, i, j, 0);
    }
  }

  lemma {:induction false} SamePath(t: Tree, levels: nat, top: nat, i: nat, j: nat, h: nat)
    requires h < levels && top > 0 && |t.root| == top && Key(i, h, levels, top) == Key(j, h, levels, top)
    ensures SlotAt(t, i, h, levels) == SlotAt(t, j, h, levels)
    decreases levels - h
  {
    if h == levels - 1 {
    } else {
      assert Key(i, h + 1, levels, top) == Key(j, h + 1, levels, top) && Digit(i, h + 1) == Digit(j, h + 1);
      SamePath(t, levels, top, i, j, h + 1);
    }
  }

  // ---- Growing ----

  /** A fresh node is stored in an empty slot. */
  function Hang(t: Tree, s: Slot, p: Ptr, n: Node): Tree
    requires ValidSlot(t, s) && p !in t.nodes
  {
    Put(t.(nodes := t.nodes[p := n]), s, p)
  }

  ghost predicate Empty(n: Node, h: nat) {
    NodeOk(n, h) && (n.Table? ==> forall d | 0 <= d < |n.slots| :: n.slots[d] == None)
  }

  lemma HangGet(t: Tree, s: Slot, p: Ptr, n: Node, r: Slot)
    requires ValidSlot(t, s) && p !in t.nodes && (n.Table? ==> forall d | 0 <= d < |n.slots| :: n.slots[d] == None)
    ensures Get(Hang(t, s, p, n), r) == if r == s then Some(p) else if r.NodeSlot? && r.p == p then None else Get(t, r)
    ensures ValidSlot(t, r) ==> ValidSlot(Hang(t, s, p, n), r)
  {
  }

  lemma HangWf(t: Tree, home: map<Ptr, Home>, levels: nat, top: nat, s: Slot, p: Ptr, n: Node)
    requires Wf(t, home, levels, top) && ValidSlot(t, s) && Get(t, s) == None && p !in t.nodes
    requires Below(s, home, levels).h < levels && Empty(n, Below(s, home, levels).h)
    ensures Wf(Hang(t, s, p, n), home[p := Below(s, home, levels)], levels, top)
  {
    hide Put, ValidSlot, Get;
    var t', home' := Hang(t, s, p, n), home[p := Below(s, home, levels)];
    HangNodes(t, s, p, n);
    forall r | Get(t', r).Some? ensures Get(t', r).value in t'.nodes && home'[Get(t', r).value] == Below(r, home', levels) {
      HangGet(t, s, p, n, r);
      SlotNode(t, s);
      SlotNode(t, r);
    }
  }

  lemma SlotNode(t: Tree, s: Slot)
    ensures s.NodeSlot? && (ValidSlot(t, s) || Get(t, s).Some?) ==> s.p in t.nodes
  {
  }

  lemma HangNodes(t: Tree, s: Slot, p: Ptr, n: Node)
    requires ValidSlot(t, s) && p !in t.nodes
    ensures var t' := Hang(t, s, p, n);
      && t'.nodes.Keys == t.nodes.Keys + {p} && |t'.root| == |t.root| && t'.nodes[p] == n
      && forall q | q in t.nodes ::
           if t.nodes[q].Table? then t'.nodes[q].Table? && |t'.nodes[q].slots| == |t.nodes[q].slots| else t'.nodes[q] == t.nodes[q]
  {
  }

  /** Paths that do not pass the slot stay; those that do now reach the new node. */
  lemma {:induction false} HangPath(t: Tree, home: map<Ptr, Home>, levels: nat, top: nat, s: Slot, p: Ptr, n: Node, index: nat, h: nat)
    requires Wf(t, home, levels, top) && ValidSlot(t, s) && Get(t, s) == None && p !in t.nodes && h < levels
    requires Below(s, home, levels).h < levels && Empty(n, Below(s, home, levels).h)
    ensures var h0 := Below(s, home, levels).h;
            var was, now := SlotAt(t, index, h, levels), SlotAt(Hang(t, s, p, n), index, h, levels);
            if h < h0 && SlotAt(t, index, h0, levels) == Some(s)
            then was == None && now == (if h == h0 - 1 then Some(NodeSlot(p, Digit(index, h0))) else None)
            else was == now
    decreases levels - h
  {
    hide Put, ValidSlot, Get, NodeOk;
    HangNodes(t, s, p, n);
    if h == levels - 1 {
    } else {
      HangPath(t, home, levels, top, s, p, n, index, h + 1);
      SlotHome(t, home, levels, top, index, h + 1);
      var up := SlotAt(Hang(t, s, p, n), index, h + 1, levels);
      if up.Some? { HangGet(t, s, p, n, up.value); SlotNode(t, up.value); }
    }
  }

  /** A new table changes no lookup. */
  lemma HangTable(t: Tree, home: map<Ptr, Home>, levels: nat, top: nat, s: Slot, p: Ptr, n: Node, index: nat)
    requires Wf(t, home, levels, top) && ValidSlot(t, s) && Get(t, s) == None && p !in t.nodes
    requires 0 < Below(s, home, levels).h < levels && Empty(n, Below(s, home, levels).h)
    ensures Find(Hang(t, s, p, n), index, levels) == Find(t, index, levels)
  {
    hide Put, ValidSlot, Get, NodeOk, SlotAt;
    HangNodes(t, s, p, n);
    HangPath(t, home, levels, top, s, p, n, index, 0);
    SlotHome(t, home, levels, top, index, 0);
    var now := SlotAt(Hang(t, s, p, n), index, 0, levels);
    if now.Some? { HangGet(t, s, p, n, now.value); SlotNode(t, now.value); }
  }

  /** A new leaf is found exactly by the indices whose path ends in its slot. */
  lemma HangLeaf(t: Tree, home: map<Ptr, Home>, levels: nat, top: nat, s: Slot, p: Ptr, n: Node, index: nat, j: nat)
    requires Wf(t, home, levels, top) && Get(t, s) == None && p !in t.nodes && levels > 0
    requires SlotAt(t, index, 0, levels) == Some(s) && ValidSlot(t, s) && Empty(n, 0)
    ensures Find(Hang(t, s, p, n), j, levels) ==
            if Key(j, 0, levels, top) == Key(index, 0, levels, top) then Some(DescPtr(p, Digit(j, 0))) else Find(t, j, levels)
  {
    hide Put, ValidSlot, Get, NodeOk, SlotAt, Key;
    HangNodes(t, s, p, n);
    SlotHome(t, home, levels, top, index, 0);
    SlotHome(t, home, levels, top, j, 0);
    HangPath(t, home, levels, top, s, p, n, j, 0);
    if Key(j, 0, levels, top) == Key(index, 0, levels, top) { SamePath(t, levels, top, index, j, 0); }
    var now := SlotAt(Hang(t, s, p, n), j, 0, levels);
    if now.Some? { HangGet(t, s, p, n, now.value); SlotNode(t, now.value); }
  }

  ghost predicate SameFinds(t: Tree, t': Tree, levels: nat) {
    levels > 0 && |t.root| > 0 && |t'.root| > 0 && forall j :: Find(t', j, levels) == Find(t, j, levels)
  }

  ghost predicate SameLeaves(t: Tree, t': Tree) {
    forall p | p in t.nodes && t.nodes[p].Leaf? :: p in t'.nodes && t'.nodes[p] == t.nodes[p]
  }

  /** The loop over the levels: goes down to the slot of the leaf, hanging missing tables if `alloc` says so.
      `next` is the next address that the allocator gives out. */
  method Descend(t: Tree, next: Ptr, index: nat, alloc: bool, levels: nat, ghost home: map<Ptr, Home>, ghost top: nat)
    returns (s: Option<Slot>, t': Tree, next': Ptr, ghost home': map<Ptr, Home>)
    requires Wf(t, home, levels, top) && forall p | p in t.nodes :: p < next
    ensures Wf(t', home', levels, top) && (forall p | p in t'.nodes :: p < next') && SameFinds(t, t', levels) && SameLeaves(t, t')
    ensures s == SlotAt(t', index, 0, levels) && (alloc ==> s.Some?) && (!alloc ==> t' == t)
  {
    hide Wf, Put, Get, ValidSlot, SlotAt, Find, NodeOk;
    t', next', home' := t, next, home;
    WfRoot(t, home, levels, top);
    RootSlotAt(t, index, levels);
    var lp, h := RootSlot(Prefix(index, levels) % |t.root|), levels - 1;
    while h > 0
      invariant 0 <= h < levels && Wf(t', home', levels, top) && |t'.root| == |t.root| > 0 && forall p | p in t'.nodes :: p < next'
      invariant SameFinds(t, t', levels) && SameLeaves(t, t') && (!alloc ==> t' == t)
      invariant SlotAt(t', index, h, levels) == Some(lp)
    {
      SlotHome(t', home', levels, top, index, h);
      var p := Get(t', lp);
      if p.None? {
        PathEnds(t', index, h, levels);
        if !alloc {
          return None, t', next', home';
        }
        var n := Table(seq(L2_SIZE, _ => None));
        EmptyTable(n, h);
        HangTables(t', home', levels, top, lp, next', n);
        HangWf(t', home', levels, top, lp, next', n);
        HangPath(t', home', levels, top, lp, next', n, index, h);
        HangGet(t', lp, next', n, lp);
        HangNodes(t', lp, next', n);
        home' := home'[next' := Below(lp, home', levels)];
        t' := Hang(t', lp, next', n);
        p := Some(next');
        next' := next' + 1;
      }
      PathOn(t', index, h, levels);
      lp, h := NodeSlot(p.value, Digit(index, h)), h - 1;
    }
    s := Some(lp);
  }

  lemma WfRoot(t: Tree, home: map<Ptr, Home>, levels: nat, top: nat)
    requires Wf(t, home, levels, top)
    ensures levels > 0 && |t.root| == top > 0
  {
  }

  lemma RootSlotAt(t: Tree, index: nat, levels: nat)
    requires levels > 0 && |t.root| > 0
    ensures SlotAt(t, index, levels - 1, levels) == Some(RootSlot(Prefix(index, levels) % |t.root|))
  {
  }

  lemma PathOn(t: Tree, index: nat, h: nat, levels: nat)
    requires 0 < h < levels && |t.root| > 0
    ensures var s := SlotAt(t, index, h, levels);
      s.Some? && Get(t, s.value).Some? ==> SlotAt(t, index, h - 1, levels) == Some(NodeSlot(Get(t, s.value).value, Digit(index, h)))
  {
  }

  lemma {:induction false} PathEnds(t: Tree, index: nat, h: nat, levels: nat)
    requires 0 < h < levels && |t.root| > 0
    requires var s := SlotAt(t, index, h, levels); s.None? || Get(t, s.value).None?
    ensures SlotAt(t, index, 0, levels) == None
  {
    assert SlotAt(t, index, h - 1, levels) == None;
    if h == 1 {
    } else {
      PathEnds(t, index, h - 1, levels);
    }
  }

  lemma EmptyTable(n: Node, h: nat)
    requires h > 0 && n == Table(seq(L2_SIZE, _ => None))
    ensures Empty(n, h)
  {
  }

  lemma HangTables(t: Tree, home: map<Ptr, Home>, levels: nat, top: nat, s: Slot, p: Ptr, n: Node)
    requires Wf(t, home, levels, top) && ValidSlot(t, s) && Get(t, s) == None && p !in t.nodes
    requires 0 < Below(s, home, levels).h < levels && Empty(n, Below(s, home, levels).h)
    ensures SameFinds(t, Hang(t, s, p, n), levels)
  {
    hide Put, ValidSlot, Get, NodeOk, Find;
    HangNodes(t, s, p, n);
    forall j ensures Find(Hang(t, s, p, n), j, levels) == Find(t, j, levels) {
      HangTable(t, home, levels, top, s, p, n, j);
    }
  }

  /** page_find_alloc: looks up the descriptor, or makes it when `alloc` says so. Then the indices of its leaf
      are found too, with clear descriptors, and all other lookups and descriptors are as before. */
  method FindAlloc(t: Tree, next: Ptr, index: nat, alloc: bool, levels: nat, ghost home: map<Ptr, Home>, ghost top: nat)
    returns (r: Option<DescPtr>, t': Tree, next': Ptr, ghost home': map<Ptr, Home>)
    requires Wf(t, home, levels, top) && forall p | p in t.nodes :: p < next
    ensures Wf(t', home', levels, top) && (forall p | p in t'.nodes :: p < next') && SameLeaves(t, t')
    ensures r == Find(t', index, levels) && (alloc ==> r.Some?) && (!alloc ==> t' == t)
    ensures forall j :: Find(t', j, levels) ==
              if Find(t, index, levels).None? && r.Some? && Key(j, 0, levels, top) == Key(index, 0, levels, top)
              then Some(DescPtr(r.value.leaf, Digit(j, 0))) else Find(t, j, levels)
    ensures Find(t, index, levels).None? && r.Some? ==> r.value.leaf in t'.nodes && t'.nodes[r.value.leaf] == Leaf(seq(L2_SIZE, _ => ZERO))
  {
    hide Wf, Put, Get, ValidSlot, SlotAt, Find, NodeOk, Key;
    var s;
    s, t', next', home' := Descend(t, next, index, alloc, levels, home, top);
    WfRoot(t', home', levels, top);
    FindIs(t', index, levels);
    if s.None? {
      return None, t', next', home';
    }
    var p := Get(t', s.value);
    if p.None? {
      if !alloc {
        return None, t', next', home';
      }
      SlotHome(t', home', levels, top, index, 0);
      var n := Leaf(seq(L2_SIZE, _ => ZERO));
      EmptyLeaf(n);
      HangNodes(t', s.value, next', n);
      HangWf(t', home', levels, top, s.value, next', n);
      forall j ensures Find(Hang(t', s.value, next', n), j, levels) ==
          if Key(j, 0, levels, top) == Key(index, 0, levels, top) then Some(DescPtr(next', Digit(j, 0))) else Find(t', j, levels)
      {
        HangLeaf(t', home', levels, top, s.value, next', n, index, j);
      }
      home' := home'[next' := Below(s.value, home', levels)];
      t' := Hang(t', s.value, next', n);
      p := Some(next');
      next' := next' + 1;
    }
    r := Some(DescPtr(p.value, Digit(index, 0)));
  }

  lemma FindIs(t: Tree, index: nat, levels: nat)
    requires levels > 0 && |t.root| > 0
    ensures var s := SlotAt(t, index, 0, levels);
      Find(t, index, levels) == if s.None? || Get(t, s.value).None? then None else Some(DescPtr(Get(t, s.value).value, Digit(index, 0)))
  {
  }

  lemma EmptyLeaf(n: Node)
    requires n == Leaf(seq(L2_SIZE, _ => ZERO))
    ensures Empty(n, 0)
  {
  }

  // ---- Flushing ----

  ghost predicate IsClear(n: Node) {
    n.Leaf? && forall d | 0 <= d < |n.descs| :: n.descs[d] == ZERO
  }

  /** Only descriptors change, and only by being cleared. */
  ghost predicate Clears(t: Tree, t': Tree) {
    && t'.root == t.root && t'.nodes.Keys == t.nodes.Keys
    && forall p | p in t.nodes :: t'.nodes[p] == t.nodes[p] || (t.nodes[p].Leaf? && IsClear(t'.nodes[p]) && |t'.nodes[p].descs| == |t.nodes[p].descs|)
  }

  lemma ClearsGet(t: Tree, t': Tree, s: Slot)
    requires Clears(t, t')
    ensures ValidSlot(t', s) == ValidSlot(t, s) && Get(t', s) == Get(t, s)
  {
  }

  lemma {:induction false} ClearsPath(t: Tree, t': Tree, index: nat, h: nat, levels: nat)
    requires Clears(t, t') && h < levels && |t.root| > 0
    ensures SlotAt(t', index, h, levels) == SlotAt(t, index, h, levels)
    decreases levels - h
  {
    hide Clears;
    assert t'.root == t.root by { ClearsRoot(t, t'); }
    if h == levels - 1 {
    } else {
      ClearsPath(t, t', index, h + 1, levels);
      var up := SlotAt(t, index, h + 1, levels);
      if up.Some? { ClearsGet(t, t', up.value); }
    }
  }

  lemma ClearsRoot(t: Tree, t': Tree)
    requires Clears(t, t')
    ensures t'.root == t.root
  {
  }

  lemma ClearsWf(t: Tree, t': Tree, home: map<Ptr, Home>, levels: nat, top: nat)
    requires Clears(t, t') && Wf(t, home, levels, top)
    ensures Wf(t', home, levels, top)
  {
    hide Get, ValidSlot;
    forall s | Get(t', s).Some? ensures Get(t', s).value in t'.nodes && home[Get(t', s).value] == Below(s, home, levels) {
      ClearsGet(t, t', s);
    }
  }

  lemma ClearsMore(t: Tree, t': Tree, t'': Tree)
    requires Clears(t, t') && Clears(t', t'')
    ensures Clears(t, t'')
    ensures forall p | p in t.nodes && IsClear(t'.nodes[p]) :: IsClear(t''.nodes[p])
  {
  }

  /** The leaf that an index leads to is clear. */
  ghost predicate ClearAt(t: Tree, index: nat, levels: nat)
    requires levels > 0 && |t.root| > 0
  {
    var r := Find(t, index, levels);
    r.Some? ==> r.value.leaf in t.nodes && IsClear(t.nodes[r.value.leaf])
  }

  lemma StaysClear(t: Tree, t': Tree, index: nat, levels: nat)
    requires Clears(t, t') && levels > 0 && |t.root| > 0 && ClearAt(t, index, levels)
    ensures |t'.root| > 0 && ClearAt(t', index, levels)
  {
    ClearsPath(t, t', index, 0, levels);
    var s := SlotAt(t, index, 0, levels);
    if s.Some? { ClearsGet(t, t', s.value); }
  }

  /** page_flush_tb_1 on a leaf: every descriptor is cleared. */
  method FlushLeaf(t: Tree, p: Ptr) returns (t': Tree)
    requires p in t.nodes && t.nodes[p].Leaf?
    ensures Clears(t, t') && IsClear(t'.nodes[p])
  {
    var descs := t.nodes[p].descs;
    for i := 0 to |descs|
      invariant |descs| == |t.nodes[p].descs|
      invariant forall j | 0 <= j < i :: descs[j] == ZERO
    {
      descs := descs[i := ZERO];
    }
    t' := t.(nodes := t.nodes[p := Leaf(descs)]);
  }

  /** page_flush_tb_1: everything below a slot is cleared, at any depth. */
  method FlushBelow(t: Tree, s: Slot, h: nat, levels: nat, ghost home: map<Ptr, Home>, ghost top: nat) returns (t': Tree)
    requires Wf(t, home, levels, top) && ValidSlot(t, s) && h < levels && Below(s, home, levels).h == h
    ensures Wf(t', home, levels, top) && Clears(t, t')
    ensures forall index | SlotAt(t', index, h, levels) == Some(s) :: ClearAt(t', index, levels)
    decreases h
  {
    hide Wf, SlotAt, Get, ValidSlot, Clears, IsClear, Find;
    WfRoot(t, home, levels, top);
    NothingCleared(t);
    t' := t;
    var c := Get(t, s);
    if c.None? {
      forall index | SlotAt(t, index, h, levels) == Some(s) ensures ClearAt(t, index, levels) {
        EndsHere(t, index, h, levels);
      }
      return;
    }
    Child(t, home, levels, top, s);
    if h == 0 {
      t' := FlushLeaf(t, c.value);
      ClearsWf(t, t', home, levels, top);
      WfRoot(t', home, levels, top);
      ClearsGet(t, t', s);
      ClearsKeys(t, t');
      forall index | SlotAt(t', index, 0, levels) == Some(s) ensures ClearAt(t', index, levels) {
        FindIs(t', index, levels);
      }
    } else {
      for d := 0 to L2_SIZE
        invariant Wf(t', home, levels, top) && Clears(t, t') && |t'.root| > 0 && Get(t', s) == c && ValidSlot(t', s)
        invariant forall index | SlotAt(t', index, h, levels) == Some(s) && Digit(index, h) < d :: ClearAt(t', index, levels)
      {
        ghost var was := t';
        Child(t', home, levels, top, s);
        t' := FlushBelow(t', NodeSlot(c.value, d), h - 1, levels, home, top);
        WfRoot(t', home, levels, top);
        ClearsMore(t, was, t');
        ClearsGet(was, t', s);
        forall index | SlotAt(t', index, h, levels) == Some(s) && Digit(index, h) < d + 1 ensures ClearAt(t', index, levels) {
          ClearsPath(was, t', index, h, levels);
          if Digit(index, h) < d {
            StaysClear(was, t', index, levels);
          } else {
            PathOn(t', index, h, levels);
          }
        }
      }
    }
  }

  lemma NothingCleared(t: Tree)
    ensures Clears(t, t)
  {
  }

  lemma ClearsKeys(t: Tree, t': Tree)
    requires Clears(t, t')
    ensures t'.nodes.Keys == t.nodes.Keys
  {
  }

  lemma EndsHere(t: Tree, index: nat, h: nat, levels: nat)
    requires h < levels && |t.root| > 0
    requires var s := SlotAt(t, index, h, levels); s.Some? && Get(t, s.value).None?
    ensures ClearAt(t, index, levels)
  {
    if h > 0 { PathEnds(t, index, h, levels); }
  }

  lemma Child(t: Tree, home: map<Ptr, Home>, levels: nat, top: nat, s: Slot)
    requires Wf(t, home, levels, top) && Get(t, s).Some? && Below(s, home, levels).h < levels
    ensures var c, b := Get(t, s).value, Below(s, home, levels);
      && c in t.nodes && (b.h == 0 ==> t.nodes[c].Leaf?)
      && forall d | 0 <= d < L2_SIZE && b.h > 0 :: ValidSlot(t, NodeSlot(c, d)) && Below(NodeSlot(c, d), home, levels).h == b.h - 1
  {
    var c := Get(t, s).value;
    assert NodeOk(t.nodes[c], home[c].h);
  }

  // ---- The map ----

  class Pages {
    const levels: nat
    var tree: Tree
    var next: Ptr
    ghost var home: map<Ptr, Home>

    ghost predicate Valid()
      reads this
    {
      Wf(tree, home, levels, |tree.root|) && forall p | p in tree.nodes :: p < next
    }

    constructor (levels: nat, top: nat)
      requires levels > 0 && top > 0
      ensures Valid() && this.levels == levels && |tree.root| == top && forall index :: Find(tree, index, levels) == None
    {
      this.levels := levels;
      tree, next, home := Tree(seq(top, _ => None), map[]), 0, map[];
      new;
      forall index ensures Find(tree, index, levels) == None {
        if levels > 1 { PathEnds(tree, index, levels - 1, levels); }
      }
    }

    /** page_find_alloc */
    method FindOrAlloc(index: nat, alloc: bool) returns (r: Option<DescPtr>)
      requires Valid()
      modifies `tree, `next, `home
      ensures Valid() && |tree.root| == |old(tree).root| && SameLeaves(old(tree), tree)
      ensures r == Find(tree, index, levels) && (alloc ==> r.Some?) && (!alloc ==> tree == old(tree))
      ensures forall j :: Find(tree, j, levels) ==
                if Find(old(tree), index, levels).None? && r.Some? && Key(j, 0, levels, |tree.root|) == Key(index, 0, levels, |tree.root|)
                then Some(DescPtr(r.value.leaf, Digit(j, 0))) else Find(old(tree), j, levels)
      ensures Find(old(tree), index, levels).None? && r.Some? ==> r.value.leaf in tree.nodes && IsClear(tree.nodes[r.value.leaf])
    {
      hide Wf, Find, Key;
      ghost var top := |tree.root|;
      r, tree, next, home := FindAlloc(tree, next, index, alloc, levels, home, top);
      WfRoot(tree, home, levels, top);
    }

    /** page_flush_tb: no descriptor that can be found leads to a TB any more. */
    method Flush()
      requires Valid()
      modifies `tree
      ensures Valid() && |tree.root| > 0 && Clears(old(tree), tree) && forall index :: ClearAt(tree, index, levels)
    {
      hide Wf, Find, Clears, SlotAt;
      ghost var top := |tree.root|;
      WfRoot(tree, home, levels, top);
      NothingCleared(tree);
      for i := 0 to |tree.root|
        invariant Wf(tree, home, levels, top) && Clears(old(tree), tree) && |tree.root| == top > 0 && levels > 0
        invariant tree.nodes.Keys == old(tree).nodes.Keys
        invariant forall index | Prefix(index, levels) % top < i :: ClearAt(tree, index, levels)
      {
        ghost var was := tree;
        tree := FlushBelow(tree, RootSlot(i), levels - 1, levels, home, top);
        WfRoot(tree, home, levels, top);
        ClearsMore(old(tree), was, tree);
        ClearsKeys(was, tree);
        forall index | Prefix(index, levels) % top < i + 1 ensures ClearAt(tree, index, levels) {
          RootSlotAt(tree, index, levels);
          if Prefix(index, levels) % top < i { StaysClear(was, tree, index, levels); }
        }
      }
    }
  }
}

/** When the TLB of an execution state leads out of its address space (klee/lib/Core/AddressSpace.cpp,
    libs2ecore/src/S2EExecutionState.cpp, S2EExecutionStateTlb.cpp, AddressSpaceCache.cpp).

    Splitting an object can leave TLB entries behind that lead to an object which the address space no longer
    has. So can unbinding an object and binding another in its place, because neither the TLB nor the cache in
    front of the address space is told. Other states are not affected, as `CopyOnWrite` shows, but the state
    itself is.
 */
module Detachment {
  import opened Wrappers
  import opened Tlb
  import opened StateTlb
  import opened CopyOnWrite

  /** The TLB and the cache lead only to objects of the address space. */
  ghost predicate Attached(st: State, objs: map<ObjId, Obj>) {
    && (forall c | c in st.entries && st.entries[c].obj.Some? && st.entries[c].obj.value in objs ::
          Holds(st, objs[st.entries[c].obj.value].host, st.entries[c].obj.value))
    && CacheAgrees(st)
  }

  ghost predicate CacheAgrees(st: State) {
    forall h | h in st.cached :: Holds(st, h, st.cached[h])
  }

  // ---- Entries of objects that are no longer bound ----

  /** The step takes an object out of the address space that the TLB or the cache still leads to. */
  ghost predicate Detaches(w: World, op: Op)
    requires Enabled(w, op)
  {
    var st := w.states[op.s];
    match op
    case Bind(_, _, obj) => Leaves(st, obj.host)
    case Unbind(_, h) => Leaves(st, h)
    case _ => false
  }

  /** Some entry leads to the object at `h`. */
  ghost predicate LedTo(st: State, h: VAddr) {
    h in st.objects && exists c | c in st.entries :: st.entries[c].obj == Some(st.objects[h])
  }

  ghost predicate Leaves(st: State, h: VAddr) {
    LedTo(st, h) || (h in st.objects && h in st.cached && st.cached[h] == st.objects[h])
  }

  ghost predicate AllAttached(w: World) {
    forall s | s in w.states :: Attached(w.states[s], w.objs)
  }

  /** TLBs and caches keep leading into the address spaces if and only if no object with an entry or a cache slot is
      unbound or replaced. */
  lemma AttachedExact(w: World, op: Op)
    requires Inv(w) && AllAttached(w) && Enabled(w, op)
    ensures AllAttached(Apply(w, op)) <==> !Detaches(w, op)
  {
    hide Known, Fresh, Attached, Detaches, StateOk, CopyOnWrite.Apart, ObjsOk;
    var w' := Apply(w, op);
    HostsStay(w, op);
    forall t | t in w.states && t != op.s ensures t in w'.states && w'.states[t] == w.states[t] && Attached(w'.states[t], w'.objs) {
      StillAttached(w.states[t], w.objs, w'.objs);
    }
    OwnAttached(w, op);
  }

  ghost predicate SameHosts(objs: map<ObjId, Obj>, objs': map<ObjId, Obj>) {
    forall o | o in objs :: o in objs' && objs'[o].host == objs[o].host
  }

  lemma HostsStay(w: World, op: Op)
    requires Enabled(w, op)
    ensures SameHosts(w.objs, Apply(w, op).objs)
  {
    hide Redirected;
  }

  lemma StillAttached(st: State, objs: map<ObjId, Obj>, objs': map<ObjId, Obj>)
    requires StateOk(st, objs) && SameHosts(objs, objs')
    ensures Attached(st, objs') <==> Attached(st, objs)
  {
    hide Known;
  }

  lemma OwnAttached(w: World, op: Op)
    requires Inv(w) && AllAttached(w) && Enabled(w, op)
    ensures op.s in Apply(w, op).states ==> (Attached(Apply(w, op).states[op.s], Apply(w, op).objs) <==> !Detaches(w, op))
    ensures op.Kill? ==> !Detaches(w, op) && op.s !in Apply(w, op).states
    ensures op.Clone? ==> op.child in Apply(w, op).states && Attached(Apply(w, op).states[op.child], Apply(w, op).objs)
    ensures !op.Kill? ==> op.s in Apply(w, op).states
    ensures forall t | t in Apply(w, op).states :: t in w.states || (op.Clone? && t == op.child)
  {
    hide Known, Attached, StateOk, CopyOnWrite.Apart, ObjsOk, Leaves, Redirected, Refill;
    var st, w' := w.states[op.s], Apply(w, op);
    HostsStay(w, op);
    OwnHosts(st, w.objs);
    match op
    case Clone(s, child) => ForkedAttached(st, w.objs);
    case Kill(_) =>
    case Bind(s, o, obj) => BoundAttached(st, w.objs, o, obj);
    case Unbind(s, h) => UnboundAttached(st, w.objs, h);
    case Fill(s, c, virt, h) =>
      var o := Lookup(st, h).value;
      RefillObj(st.entries[c], virt, o, w.objs[o], st.key);
      FillAttached(st, w.objs, c, w'.states[s].entries[c], h);
    case Drop(s, c) => EntryAttached(st, w.objs, c, EMPTY, 0);
    case MakeWriteable(s, h, n, buffer) =>
      if !IsOwned(st, w.objs, h) { ReplacedAttached(st, w.objs, w'.objs, h, n); }
    case FastStore(s, c, offset, value) => StillAttached(st, w.objs, w'.objs);
    case SlowStore(s, h, offset, value, concrete) => ReplacedAttached(st, w.objs, w'.objs, h, st.objects[h]);
  }

  lemma OwnHosts(st: State, objs: map<ObjId, Obj>)
    requires StateOk(st, objs)
    ensures forall h | h in st.objects && st.objects[h] in objs :: objs[st.objects[h]].host == h
  {
    hide Known, Fits;
  }

  lemma ForkedAttached(st: State, objs: map<ObjId, Obj>)
    requires Attached(st, objs)
    ensures Attached(Forked(st), objs) && Attached(Born(st), objs)
  {
    forall c | c in st.entries ensures Forked(st).entries[c].obj == st.entries[c].obj {}
  }

  lemma BoundAttached(st: State, objs: map<ObjId, Obj>, o: ObjId, obj: Obj)
    requires StateOk(st, objs) && Attached(st, objs) && o !in objs
    ensures Attached(Bound(st, o, obj.host), objs[o := obj]) <==> !Leaves(st, obj.host)
  {
    var h, st', objs' := obj.host, Bound(st, o, obj.host), objs[o := obj];
    forall c | c in st.entries && st.entries[c].obj.Some? ensures st.entries[c].obj.value in objs && st.entries[c].obj.value != o {
      assert st.entries[c].obj.value in Known(st);
    }
    if LedTo(st, h) {
      var c :| c in st.entries && st.entries[c].obj == Some(st.objects[h]);
      assert !Holds(st', objs'[st.objects[h]].host, st.objects[h]);
    }
    forall g | g in st.cached ensures st.cached[g] in objs && st.cached[g] != o { assert st.cached[g] in Known(st); }
    assert h in st.cached ==> !CacheAgrees(st');
  }

  lemma UnboundAttached(st: State, objs: map<ObjId, Obj>, h: VAddr)
    requires StateOk(st, objs) && Attached(st, objs) && h in st.objects
    ensures Attached(Unbound(st, h), objs) <==> !Leaves(st, h)
  {
    forall c | c in st.entries && st.entries[c].obj.Some? ensures st.entries[c].obj.value in objs {
      assert st.entries[c].obj.value in Known(st);
    }
    if LedTo(st, h) {
      var c :| c in st.entries && st.entries[c].obj == Some(st.objects[h]);
      assert !Holds(Unbound(st, h), objs[st.objects[h]].host, st.objects[h]);
    }
    assert h in st.cached ==> !CacheAgrees(Unbound(st, h));
  }

  lemma FillAttached(st: State, objs: map<ObjId, Obj>, c: Coord, e: Entry, h: VAddr)
    requires StateOk(st, objs) && Attached(st, objs) && Lookup(st, h).Some? && e.obj == Lookup(st, h)
    ensures Attached(Remembering(WithEntry(st, c, e), h, e.obj.value), objs)
  {
    hide Known;
    EntryAttached(st, objs, c, e, h);
  }

  lemma EntryAttached(st: State, objs: map<ObjId, Obj>, c: Coord, e: Entry, h: VAddr)
    requires StateOk(st, objs) && Attached(st, objs) && (e.obj.Some? ==> h in st.objects && e.obj.value == st.objects[h])
    ensures Attached(WithEntry(st, c, e), objs)
  {
    hide Known;
  }

  lemma ReplacedAttached(st: State, objs: map<ObjId, Obj>, objs': map<ObjId, Obj>, h: VAddr, n: ObjId)
    requires StateOk(st, objs) && Attached(st, objs) && SameHosts(objs, objs') && h in st.objects
    requires st.objects[h] in objs && n in objs' && objs'[n].host == h
    ensures st.objects[h] in objs' && Attached(Replaced(st, h, n, objs'), objs')
  {
    hide Redirect;
    var o, st' := st.objects[h], Replaced(st, h, n, objs');
    forall c | c in st'.entries && st'.entries[c].obj.Some? && st'.entries[c].obj.value in objs'
      ensures Holds(st', objs'[st'.entries[c].obj.value].host, st'.entries[c].obj.value)
    {
      RedirectObj(st.entries[c], objs'[o], n, objs'[n], st.key);
      if st.entries[c].obj.Some? { assert st.entries[c].obj.value in Known(st); }
    }
  }

  /** What is lost otherwise: whatever is stored through an entry can be read back from the page that the entry stands
      for if and only if that page still is the entry's object. */
  lemma FastStoreLands(w: World, s: StateId, c: Coord, offset: nat)
    requires Inv(w) && Enabled(w, FastStore(s, c, offset, 0))
    ensures w.states[s].entries[c].obj.value in w.objs
    ensures var o := w.states[s].entries[c].obj.value;
            (forall value: bv8 :: ReadsBack(Apply(w, FastStore(s, c, offset, value)), s, w.objs[o].host, offset, value)) <==>
            Holds(w.states[s], w.objs[o].host, o)
  {
    hide Known, StoreAt, MemoryOf, CopyOnWrite.Apart, StateOk, ObjsOk;
    var st := w.states[s];
    EntryTarget(w, s, c);
    var o := st.entries[c].obj.value;
    var h := w.objs[o].host;
    forall value: bv8 ensures s in View(w) && View(Apply(w, FastStore(s, c, offset, value))) == if Holds(st, h, o)
                           then PlainApply(View(w), PlainStore(s, h, offset, value)) else View(w) {
      FastStoreRefines(w, s, c, offset, value);
    }
    if Holds(st, h, o) {
      Seen(st, w.objs, h);
    } else {
      assert !(ReadsBack(Apply(w, FastStore(s, c, offset, 0)), s, h, offset, 0) && ReadsBack(Apply(w, FastStore(s, c, offset, 1)), s, h, offset, 1));
    }
  }

  ghost predicate ReadsBack(w: World, s: StateId, h: VAddr, offset: nat, value: bv8) {
    s in View(w) && h in View(w)[s] && offset < |View(w)[s][h]| && View(w)[s][h][offset] == value
  }

  // ---- Splitting ----

  datatype SplitState = SplitState(state: State, objs: map<ObjId, Obj>)

  /** splitMemoryObject, as far as the TLB can tell. `copy` is the private copy that getWriteable makes unless the
      state owns the object. `piece` is the first of the pieces, which share the copy's buffer and have no owner when
      the split is reported. What is reported is the split of the original object. */
  ghost function SplitOff(st: State, objs: map<ObjId, Obj>, h: VAddr, copy: ObjId, buffer: VAddr, piece: ObjId): SplitState
    requires h in st.objects && st.objects[h] in objs
  {
    var o := st.objects[h];
    var own := IsOwned(st, objs, h);
    var objs1 := if own then objs else objs[copy := objs[o].(owner := st.key, buffer := buffer)];
    var st1 := if own then st else Replaced(st, h, copy, objs1);
    var first := objs1[st1.objects[h]];
    var entries := Redirected(st1.entries, o, piece, objs1[piece := first.(owner := 0)], st.key);
    SplitState(State(st.key, st1.objects[h := piece], entries, st.cached - {h}), objs1[piece := first.(owner := st.key)])
  }

  /** The TLB follows the split if and only if the state owned the object or no entry led to it. */
  lemma SplitExact(st: State, objs: map<ObjId, Obj>, h: VAddr, copy: ObjId, buffer: VAddr, piece: ObjId)
    requires StateOk(st, objs) && Attached(st, objs) && h in st.objects && copy !in objs && piece !in objs && copy != piece
    ensures st.objects[h] in objs
    ensures var w := SplitOff(st, objs, h, copy, buffer, piece);
            Attached(w.state, w.objs) <==> IsOwned(st, objs, h) || !LedTo(st, h)
  {
    hide Known, Fits, SplitOff, HostsFit, CacheAgrees;
    SplitEntries(st, objs, h, copy, buffer, piece);
    var o, w := st.objects[h], SplitOff(st, objs, h, copy, buffer, piece);
    var st' := w.state;
    CacheWithout(st, st', h);
    if LedTo(st, h) && !IsOwned(st, objs, h) {
      var c :| c in st.entries && st.entries[c].obj == Some(o);
      assert st'.entries[c].obj == Some(copy) && !Holds(st', w.objs[copy].host, copy);
    } else {
      forall c | c in st'.entries && st'.entries[c].obj.Some? && st'.entries[c].obj.value in w.objs
        ensures Holds(st', w.objs[st'.entries[c].obj.value].host, st'.entries[c].obj.value)
      {
        if st.entries[c].obj != Some(o) {
          assert st.entries[c].obj.value in Known(st);
          assert Holds(st, objs[st.entries[c].obj.value].host, st.entries[c].obj.value);
        }
      }
    }
  }

  lemma CacheWithout(st: State, st': State, h: VAddr)
    requires CacheAgrees(st) && st'.cached == st.cached - {h} && forall g | g in st.objects && g != h :: Holds(st', g, st.objects[g])
    ensures CacheAgrees(st')
  {
  }

  /** What becomes of the entries: those of the object lead to its first piece, or stay with the private copy. */
  lemma SplitEntries(st: State, objs: map<ObjId, Obj>, h: VAddr, copy: ObjId, buffer: VAddr, piece: ObjId)
    requires StateOk(st, objs) && h in st.objects && copy !in objs && piece !in objs && copy != piece
    ensures st.objects[h] in objs
    ensures var w := SplitOff(st, objs, h, copy, buffer, piece);
            var n := if IsOwned(st, objs, h) then piece else copy;
            && w.state.objects == st.objects[h := piece] && w.state.key == st.key && w.state.entries.Keys == st.entries.Keys
            && w.state.cached == st.cached - {h}
            && (forall c | c in st.entries :: w.state.entries[c].obj == if st.entries[c].obj == Some(st.objects[h]) then Some(n) else st.entries[c].obj)
            && (forall c | c in st.entries && st.entries[c].obj == Some(st.objects[h]) :: w.state.entries[c].symb == !objs[st.objects[h]].concrete)
            && n in w.objs && w.objs[n].host == h && w.objs[n].concrete == objs[st.objects[h]].concrete && w.objs[n].data == objs[st.objects[h]].data
            && piece in w.objs && w.objs[piece].host == h && w.objs[piece].concrete == objs[st.objects[h]].concrete && w.objs[piece].data == objs[st.objects[h]].data
            && w.objs[n].owner == w.objs[piece].owner == st.key
            && w.objs[n].buffer == w.objs[piece].buffer == (if IsOwned(st, objs, h) then objs[st.objects[h]].buffer else buffer)
            && (forall p | p in objs :: p in w.objs && w.objs[p] == objs[p]) && w.objs.Keys <= objs.Keys + {copy, piece}
  {
    assert st.objects[h] in Known(st);
    hide Known, Fits;
  }

  /** What goes wrong then: when a store makes the page symbolic, or concrete again, updateTlb looks for the entries of
      the piece, and those of the copy keep the old flag. Accesses through them bypass the symbolic bytes. */
  lemma SplitStatus(st: State, objs: map<ObjId, Obj>, h: VAddr, copy: ObjId, buffer: VAddr, piece: ObjId)
    requires StateOk(st, objs) && Attached(st, objs) && h in st.objects && copy !in objs && piece !in objs && copy != piece
    ensures st.objects[h] in objs
    ensures var w := SplitOff(st, objs, h, copy, buffer, piece);
            var turned := w.objs[piece := w.objs[piece].(concrete := !w.objs[piece].concrete)];
            StatusFits(Replaced(w.state, h, piece, turned), turned, h) <==> IsOwned(st, objs, h) || !LedTo(st, h)
  {
    hide Known, Fits, SplitOff;
    SplitEntries(st, objs, h, copy, buffer, piece);
    var o, w := st.objects[h], SplitOff(st, objs, h, copy, buffer, piece);
    var turned := w.objs[piece := w.objs[piece].(concrete := !w.objs[piece].concrete)];
    var st' := Replaced(w.state, h, piece, turned);
    forall c | c in st.entries && st.entries[c].obj.Some? ensures st.entries[c].obj.value in objs { assert st.entries[c].obj.value in Known(st); }
    if LedTo(st, h) {
      var c :| c in st.entries && st.entries[c].obj == Some(o);
      if !IsOwned(st, objs, h) { assert st'.entries[c].obj == Some(copy) && st'.entries[c].symb == !objs[o].concrete; }
    } else {
      forall c | c in st.entries && st.entries[c].obj.Some? ensures objs[st.entries[c].obj.value].host != h {
        assert Holds(st, objs[st.entries[c].obj.value].host, st.entries[c].obj.value);
      }
    }
  }

  /** The entries for a page tell whether all of it is concrete. */
  ghost predicate StatusFits(st: State, objs: map<ObjId, Obj>, h: VAddr) {
    forall c | c in st.entries && st.entries[c].obj.Some? && st.entries[c].obj.value in objs && objs[st.entries[c].obj.value].host == h ::
      h in st.objects && st.objects[h] in objs && st.entries[c].symb == !objs[st.objects[h]].concrete
  }

  /** What else goes wrong: after a fork getWriteable gives the pieces a new buffer, updateTlb looks for the entries of
      the piece again, and those of the copy keep leading to the old buffer. Whatever is stored to the page then is
      loaded through its entries if and only if the state owned the object that was split or no entry led to it. */
  lemma SplitLoads(st: State, objs: map<ObjId, Obj>, h: VAddr, copy: ObjId, buffer: VAddr, piece: ObjId, n: ObjId, again: VAddr, offset: nat)
    requires StateOk(st, objs) && Attached(st, objs) && ObjsOk(objs) && h in st.objects && offset < PAGE_SIZE
    requires copy !in objs && piece !in objs && n !in objs && copy != piece && n != copy && n != piece
    ensures st.objects[h] in objs
    ensures var w := SplitOff(st, objs, h, copy, buffer, piece);
            (forall value: bv8 :: LoadsAll(StoredAfterFork(w, h, piece, n, again, offset, value), h, offset, value)) <==>
            IsOwned(st, objs, h) || !LedTo(st, h)
  {
    hide Known, Fits, SplitOff, StoredAfterFork, HostsFit;
    SplitEntries(st, objs, h, copy, buffer, piece);
    var o, w := st.objects[h], SplitOff(st, objs, h, copy, buffer, piece);
    assert ObjOk(objs[o]);
    if LedTo(st, h) && !IsOwned(st, objs, h) {
      var c :| c in st.entries && st.entries[c].obj == Some(o);
      var was := objs[o].data[offset];
      AfterFork(w, h, piece, n, again, offset, was ^ 1);
      assert was ^ 1 != was;
      assert !LoadsAll(StoredAfterFork(w, h, piece, n, again, offset, was ^ 1), h, offset, was ^ 1);
    } else {
      forall value: bv8 ensures LoadsAll(StoredAfterFork(w, h, piece, n, again, offset, value), h, offset, value) {
        AfterFork(w, h, piece, n, again, offset, value);
        forall c | c in st.entries && st.entries[c].obj.Some? && st.entries[c].obj != Some(o)
          ensures st.entries[c].obj.value in objs && objs[st.entries[c].obj.value].host != h
        {
          assert st.entries[c].obj.value in Known(st);
          assert Holds(st, objs[st.entries[c].obj.value].host, st.entries[c].obj.value);
        }
      }
    }
  }

  /** A fork, getWriteable for the piece, and a store to it. */
  ghost function StoredAfterFork(w: SplitState, h: VAddr, piece: ObjId, n: ObjId, again: VAddr, offset: nat, value: bv8): SplitState
    requires piece in w.objs && h in w.state.objects && w.state.objects[h] == piece
  {
    var st := Forked(w.state);
    var objs := w.objs[n := Written(w.objs[piece].(owner := st.key, buffer := again), offset, value, true)];
    SplitState(Replaced(st, h, n, objs), objs)
  }

  /** Loads through the entries for the page give `value`. An entry leads to the buffer of its object. */
  ghost predicate LoadsAll(w: SplitState, h: VAddr, offset: nat, value: bv8) {
    forall c | c in w.state.entries && w.state.entries[c].obj.Some? && w.state.entries[c].obj.value in w.objs
               && w.objs[w.state.entries[c].obj.value].host == h ::
      var data := w.objs[w.state.entries[c].obj.value].data; offset < |data| && data[offset] == value
  }

  lemma AfterFork(w: SplitState, h: VAddr, piece: ObjId, n: ObjId, again: VAddr, offset: nat, value: bv8)
    requires piece in w.objs && h in w.state.objects && w.state.objects[h] == piece && n !in w.objs && offset < |w.objs[piece].data|
    ensures var r := StoredAfterFork(w, h, piece, n, again, offset, value);
      && r.state.entries.Keys == w.state.entries.Keys
      && (forall c | c in w.state.entries :: r.state.entries[c].obj == if w.state.entries[c].obj == Some(piece) then Some(n) else w.state.entries[c].obj)
      && (forall p | p in w.objs :: p in r.objs && r.objs[p] == w.objs[p])
      && n in r.objs && r.objs[n].host == w.objs[piece].host && offset < |r.objs[n].data| && r.objs[n].data[offset] == value
  {
    hide Redirect;
    var f, r := Forked(w.state), StoredAfterFork(w, h, piece, n, again, offset, value);
    forall c | c in w.state.entries ensures c in r.state.entries
      && r.state.entries[c].obj == if w.state.entries[c].obj == Some(piece) then Some(n) else w.state.entries[c].obj
    {
      assert f.entries[c].obj == w.state.entries[c].obj;
      RedirectObj(f.entries[c], r.objs[piece], n, r.objs[n], f.key);
    }
  }

  // ---- Runs ----

  /** A page that is bound, shared after a fork, and in the TLB. */
  function Page(): Obj { Obj(PAGE_SIZE, 0, false, 1, true, seq(PAGE_SIZE, _ => 0)) }

  function Mine(key: nat, e: Entry): State { State(key, map[PAGE_SIZE := 0], map[Coord(0, 0) := e], map[]) }

  lemma Bindings(w0: World, w1: World)
    requires w0 == World(map[], map[0 := State(1, map[], map[Coord(0, 0) := EMPTY], map[])]) && w1 == World(map[0 := Page()], map[0 := Mine(1, EMPTY)])
    ensures Init(w0) && AllAttached(w0) && Enabled(w0, Bind(0, 0, Page())) && w1 == Apply(w0, Bind(0, 0, Page()))
  {
    hide Known;
    assert w0.states[0 := Mine(1, EMPTY)] == w1.states;
  }

  lemma Forks(w1: World, w2: World)
    requires w1 == World(map[0 := Page()], map[0 := Mine(1, EMPTY)])
    requires var e := EMPTY.(notOurs := true); w2 == World(map[0 := Page()], map[0 := Mine(2, e), 1 := Mine(2, e)])
    ensures Enabled(w1, Clone(0, 1)) && w2 == Apply(w1, Clone(0, 1))
  {
    var e := EMPTY.(notOurs := true);
    assert NoneOurs(map[Coord(0, 0) := EMPTY]) == map[Coord(0, 0) := e];
    assert w1.states[0 := Mine(2, e)][1 := Mine(2, e)] == w2.states;
  }

  lemma Enters(w2: World, w3: World)
    requires var e := EMPTY.(notOurs := true); w2 == World(map[0 := Page()], map[0 := Mine(2, e), 1 := Mine(2, e)])
    requires w3 == w2.(states := w2.states[0 := Remembering(Mine(2, Entry(Some(0), 0, 0, true, false)), PAGE_SIZE, 0)])
    ensures Enabled(w2, Fill(0, Coord(0, 0), 0, PAGE_SIZE)) && w3 == Apply(w2, Fill(0, Coord(0, 0), 0, PAGE_SIZE))
  {
    var e := Entry(Some(0), 0, 0, true, false);
    assert map[Coord(0, 0) := EMPTY.(notOurs := true)][Coord(0, 0) := e] == map[Coord(0, 0) := e];
  }

  /** A run that gets there: a page is bound, the state forks, and the page enters the TLB. Were it split now, the
      entry would lead to an object that is not in the address space. */
  lemma SplitDetaches() returns (worlds: seq<World>, ops: seq<Op>)
    ensures IsRun(worlds, ops) && |ops| == 3
    ensures var w := worlds[3];
            && Inv(w) && AllAttached(w) && 0 in w.states && PAGE_SIZE in w.states[0].objects && w.states[0].objects[PAGE_SIZE] in w.objs
            && !IsOwned(w.states[0], w.objs, PAGE_SIZE) && LedTo(w.states[0], PAGE_SIZE)
            && var split := SplitOff(w.states[0], w.objs, PAGE_SIZE, 1, 0, 2); !Attached(split.state, split.objs)
  {
    hide Redirected, SplitOff, Attached, Apply, Enabled, Init, Inv, Detaches;
    var e := EMPTY.(notOurs := true);
    var w0, w1 := World(map[], map[0 := State(1, map[], map[Coord(0, 0) := EMPTY], map[])]), World(map[0 := Page()], map[0 := Mine(1, EMPTY)]);
    var w2 := World(map[0 := Page()], map[0 := Mine(2, e), 1 := Mine(2, e)]);
    var w3 := w2.(states := w2.states[0 := Remembering(Mine(2, Entry(Some(0), 0, 0, true, false)), PAGE_SIZE, 0)]);
    Bindings(w0, w1);
    Forks(w1, w2);
    Enters(w2, w3);
    worlds, ops := [w0, w1, w2, w3], [Bind(0, 0, Page()), Clone(0, 1), Fill(0, Coord(0, 0), 0, PAGE_SIZE)];
    RunInv(worlds, ops, 3);
    SharedPage(w3);
    SplitExact(w3.states[0], w3.objs, PAGE_SIZE, 1, 0, 2);
  }

  lemma SharedPage(w: World)
    requires Inv(w) && w.objs == map[0 := Page()] && 0 in w.states && w.states[0] == Remembering(Mine(2, Entry(Some(0), 0, 0, true, false)), PAGE_SIZE, 0)
    requires forall s | s in w.states && s != 0 :: w.states[s] == Mine(2, EMPTY.(notOurs := true))
    ensures StateOk(w.states[0], w.objs) && AllAttached(w) && !IsOwned(w.states[0], w.objs, PAGE_SIZE) && LedTo(w.states[0], PAGE_SIZE)
  {
    hide Known;
    assert w.states[0].entries[Coord(0, 0)].obj == Some(0);
  }

  /** Another object for the same page. */
  function Other(): Obj { Page().(buffer := PAGE_SIZE) }

  /** One state with a page bound and one TLB entry. */
  function Lone(objs: map<ObjId, Obj>, bound: ObjId, e: Entry, cached: map<VAddr, ObjId>): World {
    World(objs, map[0 := State(1, map[PAGE_SIZE := bound], map[Coord(0, 0) := e], cached)])
  }

  lemma LoneFill(objs: map<ObjId, Obj>, bound: ObjId, cached: map<VAddr, ObjId>)
    requires 0 in objs && objs[0] == Page() && (if PAGE_SIZE in cached then cached[PAGE_SIZE] == 0 else bound == 0)
    ensures var w := Lone(objs, bound, EMPTY, cached);
      && Enabled(w, Fill(0, Coord(0, 0), 0, PAGE_SIZE))
      && Apply(w, Fill(0, Coord(0, 0), 0, PAGE_SIZE)) == Lone(objs, bound, Entry(Some(0), 0, 0, false, false), cached[PAGE_SIZE := 0])
  {
    var w, e := Lone(objs, bound, EMPTY, cached), Entry(Some(0), 0, 0, false, false);
    assert map[Coord(0, 0) := EMPTY][Coord(0, 0) := e] == map[Coord(0, 0) := e];
    assert w.states[0 := State(1, map[PAGE_SIZE := bound], map[Coord(0, 0) := e], cached[PAGE_SIZE := 0])] ==
           Lone(objs, bound, e, cached[PAGE_SIZE := 0]).states;
  }

  lemma LoneDrop(objs: map<ObjId, Obj>, e: Entry, cached: map<VAddr, ObjId>)
    ensures var w := Lone(objs, 0, e, cached);
      Enabled(w, Drop(0, Coord(0, 0))) && Apply(w, Drop(0, Coord(0, 0))) == Lone(objs, 0, EMPTY, cached)
  {
    assert map[Coord(0, 0) := e][Coord(0, 0) := EMPTY] == map[Coord(0, 0) := EMPTY];
    assert Lone(objs, 0, e, cached).states[0 := State(1, map[PAGE_SIZE := 0], map[Coord(0, 0) := EMPTY], cached)] == Lone(objs, 0, EMPTY, cached).states;
  }

  lemma LoneBind(cached: map<VAddr, ObjId>)
    ensures var w := Lone(map[0 := Page()], 0, EMPTY, cached);
      Enabled(w, Bind(0, 1, Other())) && Apply(w, Bind(0, 1, Other())) == Lone(map[0 := Page(), 1 := Other()], 1, EMPTY, cached)
  {
    var w := Lone(map[0 := Page()], 0, EMPTY, cached);
    assert map[0 := Page()][1 := Other()] == map[0 := Page(), 1 := Other()];
    assert map[PAGE_SIZE := 0 as ObjId][PAGE_SIZE := 1] == map[PAGE_SIZE := 1];
    assert w.states[0 := State(1, map[PAGE_SIZE := 1], map[Coord(0, 0) := EMPTY], cached)] == Lone(map[0 := Page(), 1 := Other()], 1, EMPTY, cached).states;
  }

  /** A run that gets there without a split, and without an entry for the page when it is bound again: the page enters
      the TLB, leaves it, is bound to another object, and enters the TLB again. The cache answers with the old object, so
      that the entry leads out of the address space. */
  lemma BindDetaches() returns (worlds: seq<World>, ops: seq<Op>)
    ensures IsRun(worlds, ops) && |ops| == 5
    ensures ops[3].Bind? && 0 in worlds[3].states && !LedTo(worlds[3].states[0], PAGE_SIZE) && AllAttached(worlds[3])
    ensures var w := worlds[5];
            && Inv(w) && 0 in w.states && !Attached(w.states[0], w.objs) && Holds(w.states[0], PAGE_SIZE, 1)
            && Coord(0, 0) in w.states[0].entries && w.states[0].entries[Coord(0, 0)].obj == Some(0)
  {
    hide Apply, Enabled, Init, Inv, Attached, Detaches;
    var objs, e, cached := map[0 := Page()], Entry(Some(0), 0, 0, false, false), map[PAGE_SIZE := 0];
    var w0 := World(map[], map[0 := State(1, map[], map[Coord(0, 0) := EMPTY], map[])]);
    var w1, w2, w3 := Lone(objs, 0, EMPTY, map[]), Lone(objs, 0, e, cached), Lone(objs, 0, EMPTY, cached);
    var both := map[0 := Page(), 1 := Other()];
    var w4, w5 := Lone(both, 1, EMPTY, cached), Lone(both, 1, e, cached);
    Bindings(w0, w1);
    LoneFill(objs, 0, map[]);
    LoneDrop(objs, e, cached);
    LoneBind(cached);
    LoneFill(both, 1, cached);
    assert cached[PAGE_SIZE := 0] == cached && map[][PAGE_SIZE := 0] == cached;
    worlds, ops := [w0, w1, w2, w3, w4, w5], [Bind(0, 0, Page()), Fill(0, Coord(0, 0), 0, PAGE_SIZE), Drop(0, Coord(0, 0)),
                                             Bind(0, 1, Other()), Fill(0, Coord(0, 0), 0, PAGE_SIZE)];
    RunInv(worlds, ops, 5);
    LoneAttached(objs, both, e, cached);
  }

  lemma LoneAttached(objs: map<ObjId, Obj>, both: map<ObjId, Obj>, e: Entry, cached: map<VAddr, ObjId>)
    requires cached == map[PAGE_SIZE := 0] && 0 in both && both[0] == Page() && e.obj == Some(0)
    ensures AllAttached(Lone(objs, 0, EMPTY, cached)) && !Attached(Lone(both, 1, e, cached).states[0], both)
  {
    var st := Lone(both, 1, e, cached).states[0];
    assert PAGE_SIZE in st.cached && st.cached[PAGE_SIZE] == 0 && !Holds(st, PAGE_SIZE, 0);
  }
}

/** Copy-on-write isolation of execution states (klee/lib/Core/AddressSpace.cpp,
    libs2ecore/src/S2EExecutionState.cpp, S2EExecutionStateTlb.cpp, AddressSpaceCache.cpp).

    States share object states until one of them writes. Stores of translated code go
    straight to a host address taken from the TLB, so sharing is safe only because of the
    not-ours flag and the owner keys. Seen from outside, each state has a memory of its own:
    the machine refines one in which a fork copies the whole memory.
 */
module CopyOnWrite {
  import opened Wrappers
  import opened Tlb
  import opened StateTlb

  type StateId = nat

  /** cowKey, the address space, the state's TLB, and the cache in front of the address space that TLB fills ask. */
  datatype State = State(key: nat, objects: map<VAddr, ObjId>, entries: Entries, cached: map<VAddr, ObjId>)

  datatype World = World(objs: map<ObjId, Obj>, states: map<StateId, State>)

  // ---- What a state sees ----

  type Memory = map<VAddr, seq<bv8>>

  ghost function MemoryOf(st: State, objs: map<ObjId, Obj>): Memory {
    map h | h in st.objects && st.objects[h] in objs :: objs[st.objects[h]].data
  }

  ghost function View(w: World): map<StateId, Memory> {
    map s | s in w.states :: MemoryOf(w.states[s], w.objs)
  }

  // ---- Invariant ----

  ghost predicate ObjOk(o: Obj) {
    !o.shared && |o.data| == PAGE_SIZE && o.buffer + PAGE_SIZE <= ADDRESSES
  }

  /** The buffers do not overlap. */
  predicate ApartBuffers(a: Obj, b: Obj) {
    a.buffer + PAGE_SIZE <= b.buffer || b.buffer + PAGE_SIZE <= a.buffer
  }

  ghost predicate ObjsOk(objs: map<ObjId, Obj>) {
    && (forall o | o in objs :: ObjOk(objs[o]))
    && (forall o, p | o in objs && p in objs && o != p :: ApartBuffers(objs[o], objs[p]))
  }

  predicate Holds(st: State, h: VAddr, o: ObjId) {
    h in st.objects && st.objects[h] == o
  }

  /** The objects that the state has a pointer to, in its address space, its cache or its TLB. */
  ghost function Known(st: State): (r: set<ObjId>)
    ensures forall h | h in st.objects :: st.objects[h] in r
    ensures forall h | h in st.cached :: st.cached[h] in r
    ensures forall c | c in st.entries && st.entries[c].obj.Some? :: st.entries[c].obj.value in r
    ensures forall o | o in r :: (exists h | h in st.objects :: st.objects[h] == o) || (exists h | h in st.cached :: st.cached[h] == o)
                                 || exists c | c in st.entries :: st.entries[c].obj == Some(o)
  {
    st.objects.Values + st.cached.Values + set c | c in st.entries && st.entries[c].obj.Some? :: st.entries[c].obj.value
  }

  /** Objects are found at the host addresses that they stand for. */
  ghost predicate HostsFit(m: map<VAddr, ObjId>, objs: map<ObjId, Obj>) {
    forall h | h in m && m[h] in objs :: objs[m[h]].host == h
  }

  /** No object that the state knows is newer than its key. */
  ghost predicate StateOk(st: State, objs: map<ObjId, Obj>) {
    && (forall o | o in Known(st) :: o in objs && objs[o].owner <= st.key)
    && HostsFit(st.objects, objs) && HostsFit(st.cached, objs)
    && Fits(st.entries, objs, st.key)
  }

  /** What two states know is older than both: neither owns it. */
  ghost predicate Apart(a: State, b: State, objs: map<ObjId, Obj>) {
    forall o | o in Known(a) && o in Known(b) && o in objs :: objs[o].owner < a.key && objs[o].owner < b.key
  }

  ghost predicate StatesOk(states: map<StateId, State>, objs: map<ObjId, Obj>) {
    && (forall s | s in states :: StateOk(states[s], objs))
    && (forall s, t | s in states && t in states && s != t :: Apart(states[s], states[t], objs))
  }

  ghost predicate Inv(w: World) {
    ObjsOk(w.objs) && StatesOk(w.states, w.objs)
  }

  // ---- Steps ----

  datatype Op =
    | Clone(s: StateId, child: StateId)
    | Kill(s: StateId)
    | Bind(s: StateId, o: ObjId, obj: Obj)
    | Unbind(s: StateId, h: VAddr)
    | Fill(s: StateId, c: Coord, virt: VAddr, h: VAddr)
    | Drop(s: StateId, c: Coord)
    | MakeWriteable(s: StateId, h: VAddr, n: ObjId, buffer: VAddr)
    | FastStore(s: StateId, c: Coord, offset: nat, value: bv8)
    | SlowStore(s: StateId, h: VAddr, offset: nat, value: bv8, concrete: bool)

  ghost predicate Fresh(objs: map<ObjId, Obj>, n: ObjId, obj: Obj) {
    n !in objs && ObjOk(obj) && forall o | o in objs :: ApartBuffers(objs[o], obj)
  }

  predicate IsOwned(st: State, objs: map<ObjId, Obj>, h: VAddr) {
    h in st.objects && st.objects[h] in objs && objs[st.objects[h]].owner == st.key
  }

  /** AddressSpaceCache::get: the cache answers first, and the address space only what the cache does not have. */
  function Lookup(st: State, h: VAddr): Option<ObjId> {
    if h in st.cached then Some(st.cached[h]) else if h in st.objects then Some(st.objects[h]) else None
  }

  ghost predicate Enabled(w: World, op: Op) {
    op.s in w.states &&
    var st := w.states[op.s];
    match op
    case Clone(s, child) => child !in w.states
    case Kill(_) => true
    case Bind(s, o, obj) => Fresh(w.objs, o, obj) && obj.owner == st.key && obj.host > 0
    case Unbind(s, h) => h in st.objects
    case Fill(s, c, virt, h) => c in st.entries && Lookup(st, h).Some? && Lookup(st, h).value in w.objs
    case Drop(s, c) => c in st.entries
    case MakeWriteable(s, h, n, buffer) =>
      h in st.objects && st.objects[h] in w.objs && Fresh(w.objs, n, w.objs[st.objects[h]].(owner := st.key, buffer := buffer))
    // the entry's address has neither the not-ours nor the symbolic flag
    case FastStore(s, c, offset, _) =>
      c in st.entries && st.entries[c].obj.Some? && !st.entries[c].notOurs && !st.entries[c].symb && offset < PAGE_SIZE
    // only what getWriteable returned is written
    case SlowStore(s, h, offset, _, _) => IsOwned(st, w.objs, h) && offset < PAGE_SIZE
  }

  /** A store to host address `p`, whatever object has it. */
  function StoreAt(objs: map<ObjId, Obj>, p: nat, value: bv8): map<ObjId, Obj> {
    map o | o in objs ::
      if objs[o].buffer <= p < objs[o].buffer + |objs[o].data| then objs[o].(data := objs[o].data[p - objs[o].buffer := value]) else objs[o]
  }

  /** What is left of a state after a fork. */
  function Forked(st: State): State {
    // copying the address space bumps the key of the original, and the copy takes the same
    State(st.key + 1, st.objects, NoneOurs(st.entries), st.cached)
  }

  /** Its child, which starts with an empty cache. */
  function Born(st: State): State {
    Forked(st).(cached := map[])
  }

  function Bound(st: State, o: ObjId, h: VAddr): State {
    st.(objects := st.objects[h := o])
  }

  /** Neither binding over an object nor unbinding one tells the TLB or the cache: addressSpaceChangeUpdateTlb returns
      early. */
  function Unbound(st: State, h: VAddr): State {
    st.(objects := st.objects - {h})
  }

  function WithEntry(st: State, c: Coord, e: Entry): State {
    st.(entries := st.entries[c := e])
  }

  function Remembering(st: State, h: VAddr, o: ObjId): State {
    st.(cached := st.cached[h := o])
  }

  /** updateTlb for the object at `h`, and if getWriteable put copy `n` in its place, invalidate for the cache. */
  function Replaced(st: State, h: VAddr, n: ObjId, objs: map<ObjId, Obj>): State
    requires h in st.objects && st.objects[h] in objs && n in objs
  {
    st.(objects := st.objects[h := n], entries := Redirected(st.entries, st.objects[h], n, objs, st.key),
        cached := if n == st.objects[h] then st.cached else st.cached - {h})
  }

  function Written(obj: Obj, offset: nat, value: bv8, concrete: bool): Obj {
    obj.(data := if offset < |obj.data| then obj.data[offset := value] else obj.data, concrete := concrete)
  }

  ghost function Apply(w: World, op: Op): World
    requires Enabled(w, op)
  {
    var st := w.states[op.s];
    match op
    case Clone(s, child) => w.(states := w.states[s := Forked(st)][child := Born(st)])
    case Kill(s) => w.(states := w.states - {s})
    case Bind(s, o, obj) => World(w.objs[o := obj], w.states[s := Bound(st, o, obj.host)])
    case Unbind(s, h) => w.(states := w.states[s := Unbound(st, h)])
    case Fill(s, c, virt, h) =>
      var o := Lookup(st, h).value;
      w.(states := w.states[s := Remembering(WithEntry(st, c, Refill(st.entries[c], virt, o, w.objs[o], st.key)), h, o)])
    case Drop(s, c) => w.(states := w.states[s := WithEntry(st, c, EMPTY)])
    case MakeWriteable(s, h, n, buffer) =>
      if IsOwned(st, w.objs, h) then w
      else
        var objs := w.objs[n := w.objs[st.objects[h]].(owner := st.key, buffer := buffer)];
        World(objs, w.states[s := Replaced(st, h, n, objs)])
    case FastStore(s, c, offset, value) =>
      // the guest address goes through the addend
      w.(objs := StoreAt(w.objs, Sum(st.entries[c].addend, st.entries[c].virt) + offset, value))
    case SlowStore(s, h, offset, value, concrete) =>
      var o := st.objects[h];
      var objs := w.objs[o := Written(w.objs[o], offset, value, concrete)];
      World(objs, w.states[s := Replaced(st, h, o, objs)])
  }

  // ---- The machine it refines ----

  datatype PlainOp = PlainFork(s: StateId, child: StateId) | PlainKill(s: StateId) | PlainBind(s: StateId, h: VAddr, data: seq<bv8>)
                   | PlainUnbind(s: StateId, h: VAddr)
                   | PlainStore(s: StateId, h: VAddr, offset: nat, value: bv8) | PlainSkip

  ghost function PlainApply(m: map<StateId, Memory>, op: PlainOp): map<StateId, Memory> {
    match op
    case PlainFork(s, child) => if s in m then m[child := m[s]] else m
    case PlainKill(s) => m - {s}
    case PlainBind(s, h, data) => if s in m then var mine: Memory := m[s][h := data]; m[s := mine] else m
    case PlainUnbind(s, h) => if s in m then var mine: Memory := m[s] - {h}; m[s := mine] else m
    case PlainStore(s, h, offset, value) =>
      if s in m && h in m[s] && offset < |m[s][h]|
      then var mine: Memory := m[s][h := m[s][h][offset := value]]; m[s := mine]
      else m
    case PlainSkip => m
  }

  /** What the step does to the memories. A fast store writes the page of its entry's object, if the state still has it. */
  ghost function Effect(w: World, op: Op): PlainOp
    requires Enabled(w, op)
  {
    match op
    case Clone(s, child) => PlainFork(s, child)
    case Kill(s) => PlainKill(s)
    case Bind(s, o, obj) => PlainBind(s, obj.host, obj.data)
    case Unbind(s, h) => PlainUnbind(s, h)
    case Fill(_, _, _, _) => PlainSkip
    case Drop(_, _) => PlainSkip
    case MakeWriteable(_, _, _, _) => PlainSkip
    case FastStore(s, c, offset, value) =>
      var o := w.states[s].entries[c].obj.value;
      if o in w.objs && Holds(w.states[s], w.objs[o].host, o) then PlainStore(s, w.objs[o].host, offset, value) else PlainSkip
    case SlowStore(s, h, offset, value, _) => PlainStore(s, h, offset, value)
  }

  // ---- Proofs: one state ----

  /** The objects that a state knows stay the same. */
  ghost predicate Keeps(st: State, objs: map<ObjId, Obj>, objs': map<ObjId, Obj>) {
    && (forall o | o in objs :: o in objs')
    && (forall o | o in Known(st) && o in objs :: objs'[o] == objs[o])
  }

  lemma KeptState(st: State, objs: map<ObjId, Obj>, objs': map<ObjId, Obj>)
    requires StateOk(st, objs) && Keeps(st, objs, objs')
    ensures StateOk(st, objs') && MemoryOf(st, objs') == MemoryOf(st, objs)
  {
    hide Known;
    forall c | c in st.entries ensures EntryFits(st.entries[c], objs', st.key) {
      assert EntryFits(st.entries[c], objs, st.key);
    }
  }

  lemma KeptApart(a: State, b: State, objs: map<ObjId, Obj>, objs': map<ObjId, Obj>)
    requires StateOk(a, objs) && Apart(a, b, objs) && Keeps(a, objs, objs')
    ensures Apart(a, b, objs')
  {
    hide Known;
  }

  /** A state that learns of no objects but `n`, which the other does not know, stays apart. */
  lemma LearnsApart(a: State, st: State, st': State, objs: map<ObjId, Obj>, n: ObjId)
    requires Apart(a, st, objs) && st'.key == st.key && Known(st') <= Known(st) + {n} && n !in Known(a)
    ensures Apart(a, st', objs)
  {
    hide Known;
  }

  lemma ForgetsApart(a: State, st: State, st': State, objs: map<ObjId, Obj>)
    requires Apart(a, st, objs) && st'.key == st.key && Known(st') <= Known(st)
    ensures Apart(a, st', objs)
  {
    hide Known;
  }

  /** A step of state `s` that keeps the objects of all others and leaves `s` itself in order. */
  lemma OneState(w: World, s: StateId, st: State, objs: map<ObjId, Obj>)
    requires StatesOk(w.states, w.objs) && s in w.states && StateOk(st, objs)
    requires forall t | t in w.states && t != s :: Keeps(w.states[t], w.objs, objs) && Apart(w.states[t], st, objs)
    ensures StatesOk(w.states[s := st], objs)
    ensures View(World(objs, w.states[s := st])) == View(w)[s := MemoryOf(st, objs)]
  {
    hide StateOk, Apart, Keeps, Known;
    var states := w.states[s := st];
    forall t | t in states && t != s ensures StateOk(states[t], objs) && MemoryOf(states[t], objs) == MemoryOf(w.states[t], w.objs) {
      KeptState(w.states[t], w.objs, objs);
    }
    forall t, u | t in states && u in states && t != u ensures Apart(states[t], states[u], objs) {
      if t == s {
        Swap(states[u], st, objs);
      } else if u != s {
        KeptApart(w.states[t], w.states[u], w.objs, objs);
      }
    }
  }

  lemma Swap(a: State, b: State, objs: map<ObjId, Obj>)
    requires Apart(a, b, objs)
    ensures Apart(b, a, objs)
  {
  }

  /** An object that state `s` owns is known to no other state. */
  lemma OwnedAlone(w: World, s: StateId, o: ObjId, t: StateId)
    requires Inv(w) && s in w.states && t in w.states && s != t && o in Known(w.states[s]) && o in w.objs
    requires w.objs[o].owner == w.states[s].key
    ensures o !in Known(w.states[t])
  {
    hide Fits, ObjsOk, Known;
    assert Apart(w.states[s], w.states[t], w.objs);
  }

  // ---- Proofs: the steps ----

  lemma ForkedOk(st: State, objs: map<ObjId, Obj>)
    requires StateOk(st, objs)
    ensures StateOk(Forked(st), objs) && MemoryOf(Forked(st), objs) == MemoryOf(st, objs)
    ensures StateOk(Born(st), objs) && MemoryOf(Born(st), objs) == MemoryOf(st, objs)
    ensures Apart(Forked(st), Born(st), objs) && Apart(Born(st), Forked(st), objs)
  {
    ForkedKnows(st);
    hide Known;
    forall c | c in st.entries ensures EntryFits(Forked(st).entries[c], objs, st.key + 1) {
      assert EntryFits(st.entries[c], objs, st.key);
    }
  }

  lemma ForkedKnows(st: State)
    ensures Known(Forked(st)) == Known(st) && Known(Born(st)) <= Known(st)
  {
    forall c | c in st.entries ensures c in Forked(st).entries && Forked(st).entries[c].obj == st.entries[c].obj {}
  }

  lemma ForkedApart(a: State, st: State, objs: map<ObjId, Obj>)
    requires Apart(a, st, objs)
    ensures Apart(a, Forked(st), objs) && Apart(a, Born(st), objs)
  {
    ForkedKnows(st);
    hide Known;
  }

  lemma CloneRefines(w: World, s: StateId, child: StateId)
    requires Inv(w) && s in w.states && child !in w.states
    ensures var w' := w.(states := w.states[s := Forked(w.states[s])][child := Born(w.states[s])]);
            Inv(w') && View(w') == PlainApply(View(w), PlainFork(s, child))
  {
    hide StateOk, Apart, ObjsOk, Forked, Born, MemoryOf, Known;
    var st, forked, born := w.states[s], Forked(w.states[s]), Born(w.states[s]);
    ForkedOk(st, w.objs);
    var states := w.states[s := forked][child := born];
    forall t | t in states ensures StateOk(states[t], w.objs) {}
    forall t | t in w.states && t != s
      ensures Apart(w.states[t], forked, w.objs) && Apart(forked, w.states[t], w.objs)
      ensures Apart(w.states[t], born, w.objs) && Apart(born, w.states[t], w.objs)
    {
      ForkedApart(w.states[t], st, w.objs);
      Swap(w.states[t], forked, w.objs);
      Swap(w.states[t], born, w.objs);
    }
    assert View(w.(states := states)) == View(w)[child := View(w)[s]];
  }

  lemma KillRefines(w: World, s: StateId)
    requires Inv(w)
    ensures Inv(w.(states := w.states - {s})) && View(w.(states := w.states - {s})) == PlainApply(View(w), PlainKill(s))
  {
    hide StateOk, Apart, ObjsOk, MemoryOf;
  }

  lemma AddedObj(objs: map<ObjId, Obj>, n: ObjId, obj: Obj)
    requires ObjsOk(objs) && Fresh(objs, n, obj)
    ensures ObjsOk(objs[n := obj])
  {
  }

  lemma BoundKnows(st: State, o: ObjId, h: VAddr)
    ensures Known(Bound(st, o, h)) <= Known(st) + {o}
    ensures Known(Unbound(st, h)) <= Known(st)
  {
  }

  lemma BoundOk(st: State, objs: map<ObjId, Obj>, o: ObjId, obj: Obj)
    requires StateOk(st, objs) && o !in objs && obj.owner == st.key
    ensures StateOk(Bound(st, o, obj.host), objs[o := obj]) && Keeps(st, objs, objs[o := obj])
    ensures MemoryOf(Bound(st, o, obj.host), objs[o := obj]) == MemoryOf(st, objs)[obj.host := obj.data]
  {
    hide Fits, Known, MemoryOf;
    NewUnknown(st, objs, o, obj);
    KeptState(st, objs, objs[o := obj]);
    BoundKnows(st, o, obj.host);
    BoundMemory(st, objs, o, obj);
  }

  lemma BoundMemory(st: State, objs: map<ObjId, Obj>, o: ObjId, obj: Obj)
    requires StateOk(st, objs) && o !in objs
    ensures MemoryOf(Bound(st, o, obj.host), objs[o := obj]) == MemoryOf(st, objs)[obj.host := obj.data]
  {
    hide Fits;
    forall h | h in st.objects ensures st.objects[h] in objs && st.objects[h] != o { assert st.objects[h] in Known(st); }
  }

  /** A new object is unknown to the other states. */
  lemma NewUnknown(a: State, objs: map<ObjId, Obj>, n: ObjId, obj: Obj)
    requires StateOk(a, objs) && n !in objs
    ensures Keeps(a, objs, objs[n := obj]) && n !in Known(a)
  {
    hide Known;
  }

  /** A new object is bound, in the place of the one that was there, if any. */
  lemma BindRefines(w: World, s: StateId, o: ObjId, obj: Obj)
    requires Inv(w) && s in w.states && Fresh(w.objs, o, obj) && obj.owner == w.states[s].key
    ensures var w' := World(w.objs[o := obj], w.states[s := Bound(w.states[s], o, obj.host)]);
            Inv(w') && View(w') == PlainApply(View(w), PlainBind(s, obj.host, obj.data))
  {
    hide StateOk, Apart, ObjsOk, ObjOk, MemoryOf, Keeps, Known;
    var st, objs := w.states[s], w.objs[o := obj];
    AddedObj(w.objs, o, obj);
    BoundOk(st, w.objs, o, obj);
    BoundKnows(st, o, obj.host);
    forall t | t in w.states && t != s ensures Keeps(w.states[t], w.objs, objs) && Apart(w.states[t], Bound(st, o, obj.host), objs) {
      NewUnknown(w.states[t], w.objs, o, obj);
      KeptApart(w.states[t], st, w.objs, objs);
      LearnsApart(w.states[t], st, Bound(st, o, obj.host), objs, o);
    }
    OneState(w, s, Bound(st, o, obj.host), objs);
  }

  lemma UnboundOk(st: State, objs: map<ObjId, Obj>, h: VAddr)
    requires StateOk(st, objs)
    ensures StateOk(Unbound(st, h), objs) && MemoryOf(Unbound(st, h), objs) == MemoryOf(st, objs) - {h}
  {
    hide Fits, Known;
    BoundKnows(st, 0, h);
  }

  lemma UnbindRefines(w: World, s: StateId, h: VAddr)
    requires Inv(w) && s in w.states
    ensures var w' := w.(states := w.states[s := Unbound(w.states[s], h)]); Inv(w') && View(w') == PlainApply(View(w), PlainUnbind(s, h))
  {
    hide StateOk, ObjsOk, MemoryOf, Known, Apart;
    var st := w.states[s];
    UnboundOk(st, w.objs, h);
    BoundKnows(st, 0, h);
    forall t | t in w.states && t != s ensures Keeps(w.states[t], w.objs, w.objs) && Apart(w.states[t], Unbound(st, h), w.objs) {
      ForgetsApart(w.states[t], st, Unbound(st, h), w.objs);
    }
    OneState(w, s, Unbound(st, h), w.objs);
  }

  lemma EntryKnows(st: State, c: Coord, e: Entry)
    requires e.obj.Some? ==> e.obj.value in Known(st)
    ensures Known(WithEntry(st, c, e)) <= Known(st)
  {
  }

  lemma EntryOk(st: State, objs: map<ObjId, Obj>, c: Coord, e: Entry)
    requires StateOk(st, objs) && EntryFits(e, objs, st.key) && (e.obj.Some? ==> e.obj.value in Known(st))
    ensures StateOk(WithEntry(st, c, e), objs) && MemoryOf(WithEntry(st, c, e), objs) == MemoryOf(st, objs)
  {
    EntryKnows(st, c, e);
    hide Known;
  }

  /** Any entry that fits and leads to a known object may be put into the TLB. */
  lemma EntryRefines(w: World, s: StateId, c: Coord, e: Entry)
    requires Inv(w) && s in w.states && EntryFits(e, w.objs, w.states[s].key) && (e.obj.Some? ==> e.obj.value in Known(w.states[s]))
    ensures var w' := w.(states := w.states[s := WithEntry(w.states[s], c, e)]); Inv(w') && View(w') == View(w)
  {
    hide StateOk, ObjsOk, MemoryOf, EntryFits, Known, Apart;
    var st := w.states[s];
    EntryOk(st, w.objs, c, e);
    EntryKnows(st, c, e);
    forall t | t in w.states && t != s ensures Keeps(w.states[t], w.objs, w.objs) && Apart(w.states[t], WithEntry(st, c, e), w.objs) {
      ForgetsApart(w.states[t], st, WithEntry(st, c, e), w.objs);
    }
    OneState(w, s, WithEntry(st, c, e), w.objs);
    assert View(w)[s := View(w)[s]] == View(w);
  }

  lemma RememberOk(st: State, objs: map<ObjId, Obj>, h: VAddr, o: ObjId)
    requires StateOk(st, objs) && o in Known(st) && o in objs && objs[o].host == h
    ensures Known(Remembering(st, h, o)) <= Known(st)
    ensures StateOk(Remembering(st, h, o), objs) && MemoryOf(Remembering(st, h, o), objs) == MemoryOf(st, objs)
  {
  }

  lemma RememberRefines(w: World, s: StateId, h: VAddr, o: ObjId)
    requires Inv(w) && s in w.states && o in Known(w.states[s]) && o in w.objs && w.objs[o].host == h
    ensures var w' := w.(states := w.states[s := Remembering(w.states[s], h, o)]); Inv(w') && View(w') == View(w)
  {
    hide StateOk, ObjsOk, MemoryOf, Known, Apart;
    var st := w.states[s];
    RememberOk(st, w.objs, h, o);
    forall t | t in w.states && t != s ensures Keeps(w.states[t], w.objs, w.objs) && Apart(w.states[t], Remembering(st, h, o), w.objs) {
      ForgetsApart(w.states[t], st, Remembering(st, h, o), w.objs);
    }
    OneState(w, s, Remembering(st, h, o), w.objs);
    assert View(w)[s := View(w)[s]] == View(w);
  }

  /** updateTlbEntry changes no memory, whatever the cache answers. */
  lemma FillRefines(w: World, s: StateId, c: Coord, virt: VAddr, h: VAddr)
    requires Inv(w) && Enabled(w, Fill(s, c, virt, h))
    ensures Inv(Apply(w, Fill(s, c, virt, h))) && View(Apply(w, Fill(s, c, virt, h))) == View(w)
  {
    hide Inv, View, Refill, EntryFits, Known, WithEntry, Remembering;
    var st := w.states[s];
    var o := Lookup(st, h).value;
    var e := Refill(st.entries[c], virt, o, w.objs[o], st.key);
    RefillFits(st.entries[c], virt, o, w.objs, st.key);
    RefillObj(st.entries[c], virt, o, w.objs[o], st.key);
    LookupKnown(w, s, h);
    EntryRefines(w, s, c, e);
    var w1 := w.(states := w.states[s := WithEntry(st, c, e)]);
    EntryLearns(st, c, e, o);
    RememberRefines(w1, s, h, o);
    assert w1.states[s := Remembering(WithEntry(st, c, e), h, o)] == w.states[s := Remembering(WithEntry(st, c, e), h, o)];
  }

  lemma LookupKnown(w: World, s: StateId, h: VAddr)
    requires Inv(w) && s in w.states && Lookup(w.states[s], h).Some?
    ensures var o := Lookup(w.states[s], h).value; o in Known(w.states[s]) && o in w.objs && w.objs[o].host == h
  {
    hide ObjsOk, Apart, Fits, Known;
    assert StateOk(w.states[s], w.objs);
  }

  lemma EntryLearns(st: State, c: Coord, e: Entry, o: ObjId)
    requires e.obj == Some(o)
    ensures o in Known(WithEntry(st, c, e))
  {
    assert WithEntry(st, c, e).entries[c].obj == Some(o);
  }

  lemma ReplacedKnows(st: State, h: VAddr, n: ObjId, objs: map<ObjId, Obj>)
    requires h in st.objects && st.objects[h] in objs && n in objs
    ensures Known(Replaced(st, h, n, objs)) <= Known(st) + {n}
  {
    var st' := Replaced(st, h, n, objs);
    forall c | c in st'.entries && st'.entries[c].obj.Some? ensures st'.entries[c].obj == Some(n) || st'.entries[c].obj == st.entries[c].obj {
      RedirectObj(st.entries[c], objs[st.objects[h]], n, objs[n], st.key);
    }
    forall g | g in st'.objects ensures st'.objects[g] == n || (g in st.objects && st'.objects[g] == st.objects[g]) {}
  }

  lemma ReplacedOk(st: State, objs: map<ObjId, Obj>, h: VAddr, n: ObjId, buffer: VAddr)
    requires StateOk(st, objs) && ObjsOk(objs) && h in st.objects && n !in objs
    ensures st.objects[h] in objs
    ensures var objs' := objs[n := objs[st.objects[h]].(owner := st.key, buffer := buffer)];
            StateOk(Replaced(st, h, n, objs'), objs') && MemoryOf(Replaced(st, h, n, objs'), objs') == MemoryOf(st, objs)
  {
    hide EntryFits, Redirect, Known, HostsFit, Redirected, MemoryOf, Fits, ObjsOk;
    var o := st.objects[h];
    var objs' := objs[n := objs[o].(owner := st.key, buffer := buffer)];
    NewUnknown(st, objs, n, objs'[n]);
    KeptState(st, objs, objs');
    RedirectedFits(st.entries, o, n, objs', st.key);
    ReplacedKnows(st, h, n, objs');
    OwnHost(st, objs, h);
    HostsStillFit(st, objs, objs', h, n);
    ReplacedMemory(st, Replaced(st, h, n, objs'), objs, h, n, objs'[n]);
  }

  lemma HostsStillFit(st: State, objs: map<ObjId, Obj>, objs': map<ObjId, Obj>, h: VAddr, n: ObjId)
    requires HostsFit(st.objects, objs) && HostsFit(st.cached, objs) && n in objs' && objs'[n].host == h
    requires forall o | o in objs :: o in objs' && objs'[o].host == objs[o].host
    requires forall g | g in st.objects :: st.objects[g] in objs
    requires forall g | g in st.cached :: st.cached[g] in objs
    ensures HostsFit(st.objects[h := n], objs') && HostsFit(st.cached, objs') && HostsFit(st.cached - {h}, objs')
  {
  }

  lemma ReplacedMemory(st: State, st': State, objs: map<ObjId, Obj>, h: VAddr, n: ObjId, copy: Obj)
    requires StateOk(st, objs) && h in st.objects && n !in objs && st.objects[h] in objs && copy.data == objs[st.objects[h]].data
    requires st'.objects == st.objects[h := n]
    ensures MemoryOf(st', objs[n := copy]) == MemoryOf(st, objs)
  {
    hide Known, Fits, HostsFit;
  }

  lemma RedirectObj(e: Entry, was: Obj, n: ObjId, obj: Obj, key: nat)
    ensures Redirect(e, was, n, obj, key).obj == Some(n)
  {
  }

  /** getWriteable changes no memory. */
  lemma WriteableRefines(w: World, s: StateId, h: VAddr, n: ObjId, buffer: VAddr)
    requires Inv(w) && s in w.states && h in w.states[s].objects && w.states[s].objects[h] in w.objs
    requires Fresh(w.objs, n, w.objs[w.states[s].objects[h]].(owner := w.states[s].key, buffer := buffer))
    ensures var st := w.states[s];
            var objs := w.objs[n := w.objs[st.objects[h]].(owner := st.key, buffer := buffer)];
            var w' := World(objs, w.states[s := Replaced(st, h, n, objs)]);
            Inv(w') && View(w') == View(w) && IsOwned(w'.states[s], objs, h)
  {
    hide StateOk, ObjsOk, ObjOk, MemoryOf, Keeps, Apart, Redirected, Known;
    var st := w.states[s];
    var copy := w.objs[st.objects[h]].(owner := st.key, buffer := buffer);
    var objs := w.objs[n := copy];
    AddedObj(w.objs, n, copy);
    ReplacedOk(st, w.objs, h, n, buffer);
    ReplacedKnows(st, h, n, objs);
    forall t | t in w.states && t != s ensures Keeps(w.states[t], w.objs, objs) && Apart(w.states[t], Replaced(st, h, n, objs), objs) {
      NewUnknown(w.states[t], w.objs, n, copy);
      KeptApart(w.states[t], st, w.objs, objs);
      LearnsApart(w.states[t], st, Replaced(st, h, n, objs), objs, n);
    }
    OneState(w, s, Replaced(st, h, n, objs), objs);
    assert View(w)[s := View(w)[s]] == View(w);
  }

  /** The object at `h` with new contents. */
  ghost predicate Rewritten(obj': Obj, obj: Obj) {
    obj' == obj.(data := obj'.data, concrete := obj'.concrete) && |obj'.data| == |obj.data|
  }

  lemma RewrittenObjs(objs: map<ObjId, Obj>, o: ObjId, obj': Obj)
    requires ObjsOk(objs) && o in objs && Rewritten(obj', objs[o])
    ensures ObjsOk(objs[o := obj'])
  {
  }

  /** A write to an object that `s` owns changes nothing for the others. */
  lemma OwnedWrite(w: World, s: StateId, o: ObjId, obj': Obj, st': State)
    requires Inv(w) && s in w.states && o in Known(w.states[s]) && o in w.objs && w.objs[o].owner == w.states[s].key
    requires Rewritten(obj', w.objs[o]) && StateOk(st', w.objs[o := obj'])
    requires Known(st') <= Known(w.states[s]) && st'.key == w.states[s].key
    ensures var w' := World(w.objs[o := obj'], w.states[s := st']);
            Inv(w') && View(w') == View(w)[s := MemoryOf(st', w.objs[o := obj'])]
  {
    hide StateOk, ObjsOk, Apart, Keeps, Known, MemoryOf;
    var st, objs := w.states[s], w.objs[o := obj'];
    RewrittenObjs(w.objs, o, obj');
    forall t | t in w.states && t != s ensures Keeps(w.states[t], w.objs, objs) && Apart(w.states[t], st', objs) {
      OwnedAlone(w, s, o, t);
      OtherKeeps(w.states[t], w.objs, o, obj');
      KeptApart(w.states[t], st, w.objs, objs);
      ForgetsApart(w.states[t], st, st', objs);
    }
    OneState(w, s, st', objs);
  }

  lemma OtherKeeps(a: State, objs: map<ObjId, Obj>, o: ObjId, obj': Obj)
    requires o in objs && o !in Known(a)
    ensures Keeps(a, objs, objs[o := obj'])
  {
    hide Known;
  }

  lemma OwnMemory(st: State, st': State, objs: map<ObjId, Obj>, h: VAddr, obj': Obj)
    requires StateOk(st, objs) && h in st.objects && st'.objects == st.objects
    ensures MemoryOf(st', objs[st.objects[h] := obj']) == MemoryOf(st, objs)[h := obj'.data]
  {
    hide Known, Fits;
    var m, m' := MemoryOf(st, objs)[h := obj'.data], MemoryOf(st', objs[st.objects[h] := obj']);
    forall g | g in st.objects ensures g in m && g in m' && m[g] == m'[g] {
      if g != h { assert objs[st.objects[g]].host == g && objs[st.objects[h]].host == h; }
    }
  }

  lemma SlowStoreRefines(w: World, s: StateId, h: VAddr, offset: nat, value: bv8, concrete: bool)
    requires Inv(w) && s in w.states && IsOwned(w.states[s], w.objs, h) && offset < PAGE_SIZE
    ensures var st := w.states[s];
            var objs := w.objs[st.objects[h] := Written(w.objs[st.objects[h]], offset, value, concrete)];
            var w' := World(objs, w.states[s := Replaced(st, h, st.objects[h], objs)]);
            Inv(w') && View(w') == PlainApply(View(w), PlainStore(s, h, offset, value))
  {
    hide StateOk, Apart, Redirected, Known, MemoryOf;
    var st := w.states[s];
    var o := st.objects[h];
    var obj' := Written(w.objs[o], offset, value, concrete);
    var objs := w.objs[o := obj'];
    assert ObjOk(w.objs[o]);
    StatusOk(st, w.objs, h, obj');
    ReplacedKnows(st, h, o, objs);
    OwnedWrite(w, s, o, obj', Replaced(st, h, o, objs));
    OwnMemory(st, Replaced(st, h, o, objs), w.objs, h, obj');
    Seen(st, w.objs, h);
  }

  lemma Seen(st: State, objs: map<ObjId, Obj>, h: VAddr)
    requires h in st.objects && st.objects[h] in objs
    ensures h in MemoryOf(st, objs) && MemoryOf(st, objs)[h] == objs[st.objects[h]].data
  {
  }

  /** After the contents changed, updateTlb brings the symbolic flags of the entries up to date. */
  lemma StatusOk(st: State, objs: map<ObjId, Obj>, h: VAddr, obj': Obj)
    requires StateOk(st, objs) && h in st.objects && Rewritten(obj', objs[st.objects[h]])
    ensures var objs' := objs[st.objects[h] := obj']; StateOk(Replaced(st, h, st.objects[h], objs'), objs')
  {
    var o := st.objects[h];
    var objs' := objs[o := obj'];
    var st' := Replaced(st, h, o, objs');
    hide Known, EntryFits, Redirect, HostsFit, Rewritten;
    ReplacedKnows(st, h, o, objs');
    HostsStillFit(st, objs, objs', h, o) by { assert HostsFit(st.objects, objs) && st.objects[h] == o; OwnHost(st, objs, h); }
    forall c | c in st.entries ensures EntryFits(st'.entries[c], objs', st.key) {
      StatusFit(st.entries[c], objs, o, obj', st.key);
    }
  }

  lemma OwnHost(st: State, objs: map<ObjId, Obj>, h: VAddr)
    requires HostsFit(st.objects, objs) && h in st.objects && st.objects[h] in objs
    ensures objs[st.objects[h]].host == h
  {
  }

  lemma StatusFit(e: Entry, objs: map<ObjId, Obj>, o: ObjId, obj': Obj, key: nat)
    requires EntryFits(e, objs, key) && o in objs && Rewritten(obj', objs[o])
    ensures EntryFits(if e.obj == Some(o) then Redirect(e, obj', o, obj', key) else e, objs[o := obj'], key)
  {
    if e.obj == Some(o) && !obj'.shared {
      SumMinus(e.addend, obj'.buffer, 0);
      BackAndForth(e.addend, obj'.buffer);
    }
  }

  lemma BackAndForth(a: VAddr, b: VAddr)
    ensures Sum(Minus(a, b), b) == a
  {
  }

  /** The address that a fast store computes lies in the object of the entry and in no other. */
  lemma StoreHits(objs: map<ObjId, Obj>, o: ObjId, offset: nat, value: bv8)
    requires ObjsOk(objs) && o in objs && offset < PAGE_SIZE
    ensures StoreAt(objs, objs[o].buffer + offset, value) == objs[o := Written(objs[o], offset, value, objs[o].concrete)]
  {
    forall p | p in objs && p != o ensures ApartBuffers(objs[o], objs[p]) && ObjOk(objs[p]) {}
    assert ObjOk(objs[o]);
  }

  /** An entry leads to the buffer of an object, and without the not-ours flag to one that no other state knows. */
  lemma EntryTarget(w: World, s: StateId, c: Coord)
    requires Inv(w) && s in w.states && c in w.states[s].entries && w.states[s].entries[c].obj.Some?
    ensures var e := w.states[s].entries[c];
            && e.obj.value in Known(w.states[s]) && e.obj.value in w.objs
            && Sum(e.addend, e.virt) == w.objs[e.obj.value].buffer && |w.objs[e.obj.value].data| == PAGE_SIZE
            && (!e.notOurs ==> w.objs[e.obj.value].owner == w.states[s].key)
            && (!e.notOurs ==> forall t | t in w.states && t != s :: e.obj.value !in Known(w.states[t]))
  {
    hide Apart, Known;
    var e := w.states[s].entries[c];
    assert StateOk(w.states[s], w.objs) && EntryFits(e, w.objs, w.states[s].key);
    assert ObjOk(w.objs[e.obj.value]);
    if !e.notOurs {
      forall t | t in w.states && t != s ensures e.obj.value !in Known(w.states[t]) { OwnedAlone(w, s, e.obj.value, t); }
    }
  }

  /** A fast store writes to the state's own memory, or, if the entry's object is bound no longer, to nobody's. */
  lemma FastStoreRefines(w: World, s: StateId, c: Coord, offset: nat, value: bv8)
    requires Inv(w) && s in w.states && offset < PAGE_SIZE
    requires c in w.states[s].entries && w.states[s].entries[c].obj.Some? && !w.states[s].entries[c].notOurs
    ensures var e := w.states[s].entries[c];
            var w' := w.(objs := StoreAt(w.objs, Sum(e.addend, e.virt) + offset, value));
            && e.obj.value in w.objs && Inv(w')
            && View(w') == if Holds(w.states[s], w.objs[e.obj.value].host, e.obj.value)
                           then PlainApply(View(w), PlainStore(s, w.objs[e.obj.value].host, offset, value)) else View(w)
  {
    hide Apart, StoreAt, StateOk, Sum, Known, MemoryOf, ObjsOk;
    var st := w.states[s];
    var o := st.entries[c].obj.value;
    EntryTarget(w, s, c);
    var h := w.objs[o].host;
    StoreHits(w.objs, o, offset, value);
    var obj' := Written(w.objs[o], offset, value, w.objs[o].concrete);
    SameStatus(st, w.objs, o, obj');
    OwnedWrite(w, s, o, obj', st);
    assert w.states[s := st] == w.states;
    if Holds(st, h, o) {
      OwnMemory(st, st, w.objs, h, obj');
      Seen(st, w.objs, h);
    } else {
      Unseen(st, w.objs, o, obj');
      assert View(w)[s := View(w)[s]] == View(w);
    }
  }

  /** An object that the state knows only through its TLB is not in its memory. */
  lemma Unseen(st: State, objs: map<ObjId, Obj>, o: ObjId, obj': Obj)
    requires StateOk(st, objs) && o in objs && !Holds(st, objs[o].host, o)
    ensures MemoryOf(st, objs[o := obj']) == MemoryOf(st, objs)
  {
    hide Fits, Known;
    forall h | h in st.objects ensures st.objects[h] != o {}
  }

  lemma SameStatus(st: State, objs: map<ObjId, Obj>, o: ObjId, obj': Obj)
    requires StateOk(st, objs) && o in objs && Rewritten(obj', objs[o]) && obj'.concrete == objs[o].concrete
    ensures StateOk(st, objs[o := obj'])
  {
    hide Known;
    forall c | c in st.entries ensures EntryFits(st.entries[c], objs[o := obj'], st.key) {
      assert EntryFits(st.entries[c], objs, st.key);
    }
  }

  // ---- The results ----

  /** Every step of the machine is a step of the machine whose forks copy the memory. */
  lemma StepRefines(w: World, op: Op)
    requires Inv(w) && Enabled(w, op)
    ensures Inv(Apply(w, op)) && View(Apply(w, op)) == PlainApply(View(w), Effect(w, op))
  {
    hide Inv, View, Forked, Born, Bound, Unbound, WithEntry, Remembering, Replaced, StoreAt, Written, Refill, EntryFits, Fresh, Known;
    var st := w.states[op.s];
    match op
    case Clone(s, child) => CloneRefines(w, s, child);
    case Kill(s) => KillRefines(w, s);
    case Bind(s, o, obj) => BindRefines(w, s, o, obj);
    case Unbind(s, h) => UnbindRefines(w, s, h);
    case Fill(s, c, virt, h) => FillRefines(w, s, c, virt, h);
    case Drop(s, c) =>
      EmptyFits(w.objs, st.key);
      EntryRefines(w, s, c, EMPTY);
    case MakeWriteable(s, h, n, buffer) =>
      if !IsOwned(st, w.objs, h) { WriteableRefines(w, s, h, n, buffer); }
    case FastStore(s, c, offset, value) => FastStoreRefines(w, s, c, offset, value);
    case SlowStore(s, h, offset, value, concrete) => SlowStoreRefines(w, s, h, offset, value, concrete);
  }

  lemma RefillObj(e: Entry, virt: VAddr, n: ObjId, obj: Obj, key: nat)
    ensures Refill(e, virt, n, obj, key).obj == Some(n)
  {
  }

  lemma EmptyFits(objs: map<ObjId, Obj>, key: nat)
    ensures EntryFits(EMPTY, objs, key)
  {
  }

  /** What getWriteable is for: the page that it was asked for is the state's own afterwards. */
  lemma WriteableOwns(w: World, op: Op)
    requires Inv(w) && op.MakeWriteable? && Enabled(w, op)
    ensures op.s in Apply(w, op).states && IsOwned(Apply(w, op).states[op.s], Apply(w, op).objs, op.h)
  {
    hide Inv, View, Redirected;
    if !IsOwned(w.states[op.s], w.objs, op.h) { WriteableRefines(w, op.s, op.h, op.n, op.buffer); }
  }

  /** Translated code stores straight through an entry if and only if the state owns the entry's object and all of it is
      concrete; after getWriteable that only takes the object to be concrete. */
  lemma FastStoreExact(w: World, s: StateId, c: Coord, offset: nat, value: bv8)
    requires Inv(w) && s in w.states && c in w.states[s].entries && w.states[s].entries[c].obj.Some? && offset < PAGE_SIZE
    ensures var o := w.states[s].entries[c].obj.value;
      o in w.objs && (Enabled(w, FastStore(s, c, offset, value)) <==> w.objs[o].owner == w.states[s].key && w.objs[o].concrete)
  {
    hide Known, Apart;
    assert EntryFits(w.states[s].entries[c], w.objs, w.states[s].key);
    assert ObjOk(w.objs[w.states[s].entries[c].obj.value]);
  }

  /** A store that goes through the object state decides whether the fast path may be taken from then on. */
  lemma SlowStoreStatus(w: World, op: Op, c: Coord)
    requires Inv(w) && op.SlowStore? && Enabled(w, op) && c in w.states[op.s].entries
    requires w.states[op.s].entries[c].obj == Some(w.states[op.s].objects[op.h])
    ensures var w' := Apply(w, op); var o := w.states[op.s].objects[op.h];
      && w'.objs[o].data == w.objs[o].data[op.offset := op.value] && c in w'.states[op.s].entries
      && w'.states[op.s].entries[c].obj == Some(o)
      && forall offset, value | 0 <= offset < PAGE_SIZE :: Enabled(w', FastStore(op.s, c, offset, value)) <==> op.concrete
  {
    hide Inv;
    var w', o := Apply(w, op), w.states[op.s].objects[op.h];
    PageSize(w, o);
    StepRefines(w, op);
    forall offset, value | 0 <= offset < PAGE_SIZE ensures Enabled(w', FastStore(op.s, c, offset, value)) <==> op.concrete {
      FastStoreExact(w', op.s, c, offset, value);
    }
  }

  lemma PageSize(w: World, o: ObjId)
    requires Inv(w) && o in w.objs
    ensures |w.objs[o].data| == PAGE_SIZE
  {
    hide StatesOk;
    assert ObjOk(w.objs[o]);
  }

  /** What the next TLB fill finds. A child asks its address space, a copy that getWriteable made is found in place of what
      it copies, and other stores and forks change nothing. */
  lemma LookupAfter(w: World, op: Op, h: VAddr)
    requires Enabled(w, op) && (op.Clone? || op.MakeWriteable? || op.SlowStore? || op.FastStore?)
    ensures op.s in Apply(w, op).states
    ensures op.Clone? ==> op.child in Apply(w, op).states
    ensures op.Clone? ==> Lookup(Apply(w, op).states[op.child], h) == if h in w.states[op.s].objects then Some(w.states[op.s].objects[h]) else None
    ensures Lookup(Apply(w, op).states[op.s], h) ==
            if op.MakeWriteable? && op.h == h && !IsOwned(w.states[op.s], w.objs, h) then Some(op.n) else Lookup(w.states[op.s], h)
  {
    hide Redirected, StoreAt, Written, ObjOk;
  }

  /** What a TLB fill is for: the entry leads to the bytes of the object that the cache or else the address space has for
      the page, and may be stored through if and only if the state owns that object and all of it is concrete. */
  lemma FillLeads(w: World, op: Op)
    requires Inv(w) && op.Fill? && Enabled(w, op)
    ensures var st := Apply(w, op).states[op.s];
            var o := Lookup(w.states[op.s], op.h).value;
            && op.c in st.entries && st.entries[op.c].obj == Some(o) && st.entries[op.c].virt == op.virt
            && Sum(st.entries[op.c].addend, op.virt) == w.objs[o].buffer && w.objs[o].host == op.h
            && (!st.entries[op.c].notOurs <==> w.objs[o].owner == st.key) && (st.entries[op.c].symb <==> !w.objs[o].concrete)
            && Lookup(st, op.h) == Some(o) && st.objects == w.states[op.s].objects
  {
    hide Apart, StateOk, Known;
    var st := w.states[op.s];
    LookupKnown(w, op.s, op.h);
    var o := Lookup(st, op.h).value;
    SumMinus(op.virt, w.objs[o].buffer, 0);
    assert ObjOk(w.objs[o]);
  }

  /** No objects yet, and nothing in the TLBs and caches. */
  ghost predicate Init(w: World) {
    w.objs == map[] && forall s | s in w.states :: w.states[s].key == 1 && w.states[s].objects == map[] && w.states[s].cached == map[] && forall c | c in w.states[s].entries :: w.states[s].entries[c] == EMPTY
  }

  ghost predicate IsRun(worlds: seq<World>, ops: seq<Op>) {
    && |worlds| == |ops| + 1 && Init(worlds[0])
    && forall i | 0 <= i < |ops| :: Enabled(worlds[i], ops[i]) && worlds[i + 1] == Apply(worlds[i], ops[i])
  }

  lemma InitInv(w: World)
    requires Init(w)
    ensures Inv(w)
  {
    hide Known;
    forall s | s in w.states ensures Known(w.states[s]) == {} {}
  }

  lemma {:induction false} RunInv(worlds: seq<World>, ops: seq<Op>, i: nat)
    requires IsRun(worlds, ops) && i < |worlds|
    ensures Inv(worlds[i])
  {
    if i == 0 {
      InitInv(worlds[0]);
    } else {
      RunInv(worlds, ops, i - 1);
      StepRefines(worlds[i - 1], ops[i - 1]);
    }
  }

  /** Isolation over whole runs: as long as only other states run, a state sees the same memory,
      however the states store, fork, bind and unbind pages and fill their TLBs. */
  lemma {:induction false} Isolated(worlds: seq<World>, ops: seq<Op>, s: StateId, i: nat, j: nat)
    requires IsRun(worlds, ops) && i <= j < |worlds| && s in worlds[i].states
    requires forall k | i <= k < j :: ops[k].s != s
    ensures s in worlds[j].states && View(worlds[j])[s] == View(worlds[i])[s]
    decreases j
  {
    hide View, Apply, Inv, Enabled;
    if i == j {
    } else {
      Isolated(worlds, ops, s, i, j - 1);
      RunInv(worlds, ops, j - 1);
      StepOthers(worlds[j - 1], ops[j - 1], s);
    }
  }

  lemma StepOthers(w: World, op: Op, s: StateId)
    requires Inv(w) && Enabled(w, op) && s in w.states && op.s != s
    ensures s in Apply(w, op).states && View(Apply(w, op))[s] == View(w)[s]
  {
    hide Apply, Inv, Fresh, MemoryOf;
    StepRefines(w, op);
    var e := Effect(w, op);
    assert e.PlainSkip? || e.s != s;
    assert e.PlainFork? ==> e.child != s;
    PlainOthers(View(w), e, s);
    assert s in View(Apply(w, op));
  }

  lemma PlainOthers(m: map<StateId, Memory>, op: PlainOp, s: StateId)
    requires s in m && (op.PlainSkip? || op.s != s) && (op.PlainFork? ==> op.child != s)
    ensures s in PlainApply(m, op) && PlainApply(m, op)[s] == m[s]
  {
  }
}

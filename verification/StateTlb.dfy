/** The multi-path TLB of one execution state (libs2ecore/src/S2EExecutionStateTlb.cpp).

    Under symbolic execution a TLB entry leads to the object state that holds the page in
    this execution state. A reverse map from object to TLB slots finds the entries to update
    when an object is replaced by a private copy.
 */
module StateTlb {
  import opened Wrappers
  import opened IntrusiveLists
  import opened Tlb

  type ObjId = nat

  datatype Coord = Coord(mode: nat, index: nat)

  /** `virt` is the page address the entry translates; `addend` is se_addend. */
  datatype Entry = Entry(obj: Option<ObjId>, virt: VAddr, addend: VAddr, notOurs: bool, symb: bool)

  const EMPTY := Entry(None, 0, 0, false, false)

  /** An object state: the host address it stands for, the address of its concrete buffer, whether
      that is shared by all states, its owner, and whether all of its bytes are concrete. */
  datatype Obj = Obj(host: VAddr, buffer: VAddr, shared: bool, owner: nat, concrete: bool, data: seq<bv8>)

  type Entries = map<Coord, Entry>

  /** m_tlbMap */
  type Refs = map<ObjId, seq<Coord>>

  /** Addresses wrap around. */
  function Sum(a: VAddr, b: VAddr): VAddr { if a + b < ADDRESSES then a + b else a + b - ADDRESSES }

  /** Where the bytes of an object are. */
  function Base(o: Obj): VAddr { if o.shared then o.host else o.buffer }

  // ---- What the entries and the reverse map say ----

  /** Each entry with an object is listed exactly once, under that object, and nothing else is listed. */
  ghost predicate Exact(entries: Entries, refs: Refs) {
    && (forall o | o in refs :: refs[o] != [] && Distinct(refs[o]))
    && (forall o, c | o in refs && c in refs[o] :: c in entries && entries[c].obj == Some(o))
    && (forall c | c in entries && entries[c].obj.Some? :: entries[c].obj.value in refs && c in refs[entries[c].obj.value])
  }

  /** The addend takes the entry's page to the object's bytes. */
  predicate Leads(e: Entry, obj: Obj) {
    Sum(e.addend, e.virt) == Base(obj)
  }

  /** An entry has the not-ours flag if and only if its object is not the state's own, unless it is shared on purpose. */
  predicate OursFits(e: Entry, obj: Obj, key: nat) {
    obj.shared || (e.notOurs <==> obj.owner != key)
  }

  ghost predicate EntryFits(e: Entry, objs: map<ObjId, Obj>, key: nat) {
    e.obj.Some? ==>
      && e.obj.value in objs
      && Leads(e, objs[e.obj.value]) && OursFits(e, objs[e.obj.value], key) && e.symb == !objs[e.obj.value].concrete
  }

  ghost predicate Fits(entries: Entries, objs: map<ObjId, Obj>, key: nat) {
    forall c | c in entries :: EntryFits(entries[c], objs, key)
  }

  // ---- Entry updates ----

  /** What updateTlb makes of an entry that led to `was`. */
  function Redirect(e: Entry, was: Obj, n: ObjId, obj: Obj, key: nat): Entry {
    if obj.shared then e.(obj := Some(n), symb := !obj.concrete)
    else e.(obj := Some(n), symb := !obj.concrete,
            addend := Sum(Minus(e.addend, was.buffer), obj.buffer), notOurs := e.notOurs && obj.owner != key)
  }

  /** What updateTlbEntry makes of an entry. */
  function Refill(e: Entry, virt: VAddr, n: ObjId, obj: Obj, key: nat): Entry {
    Entry(Some(n), virt, Minus(Base(obj), virt), if obj.shared then e.notOurs else obj.owner != key, !obj.concrete)
  }

  lemma {:induction false} SumMinus(a: VAddr, b: VAddr, c: VAddr)
    ensures Sum(Minus(b, a), a) == b
    ensures Sum(Sum(Minus(a, b), c), Minus(b, a)) == c
  {
  }

  /** The new entry translates the page it was made for, to the object's bytes, and is not ours if and only if the state
      does not own the object. For a shared object that flag stays. */
  lemma RefillFits(e: Entry, virt: VAddr, n: ObjId, objs: map<ObjId, Obj>, key: nat)
    requires n in objs
    ensures EntryFits(Refill(e, virt, n, objs[n], key), objs, key)
    ensures var r := Refill(e, virt, n, objs[n], key);
      r.obj == Some(n) && r.virt == virt && (r.notOurs <==> if objs[n].shared then e.notOurs else objs[n].owner != key)
  {
    SumMinus(virt, Base(objs[n]), 0);
  }

  /** A redirected entry leads to the new object. For shared objects that takes the old and the new object
      to stand for the same host address. */
  lemma RedirectFits(e: Entry, o: ObjId, n: ObjId, objs: map<ObjId, Obj>, key: nat)
    requires o in objs && n in objs && e.obj == Some(o) && EntryFits(e, objs, key)
    requires objs[o].shared == objs[n].shared && objs[o].host == objs[n].host
    requires objs[o].owner == key ==> objs[n].owner == key
    ensures EntryFits(Redirect(e, objs[o], n, objs[n], key), objs, key)
  {
    var was, obj := objs[o], objs[n];
    if !obj.shared {
      assert Sum(e.addend, e.virt) == was.buffer;
      assert Sum(Sum(Minus(e.addend, was.buffer), obj.buffer), e.virt) == obj.buffer;
    }
  }

  /** Entry `e` follows from `was` to `obj`. If the objects are not shared, it is still not ours if and only if it was not
      and the state does not own the new object. If they are shared, the flag and the address stay. */
  predicate Follows(e': Entry, e: Entry, was: Obj, n: ObjId, obj: Obj, key: nat) {
    && e'.obj == Some(n) && e'.virt == e.virt && e'.symb == !obj.concrete
    && (obj.shared ==> e'.addend == e.addend && e'.notOurs == e.notOurs)
    && (!obj.shared ==> (e'.notOurs <==> e.notOurs && obj.owner != key))
    && (!obj.shared ==> Minus(e'.addend, obj.buffer) == Minus(e.addend, was.buffer))
  }

  lemma RedirectFollows(e: Entry, was: Obj, n: ObjId, obj: Obj, key: nat)
    ensures Follows(Redirect(e, was, n, obj, key), e, was, n, obj, key)
  {
  }

  function Redirected(entries: Entries, o: ObjId, n: ObjId, objs: map<ObjId, Obj>, key: nat): Entries
    requires o in objs && n in objs
  {
    map c | c in entries :: if entries[c].obj == Some(o) then Redirect(entries[c], objs[o], n, objs[n], key) else entries[c]
  }

  /** The whole TLB still fits after an object was replaced. */
  lemma RedirectedFits(entries: Entries, o: ObjId, n: ObjId, objs: map<ObjId, Obj>, key: nat)
    requires o in objs && n in objs && Fits(entries, objs, key)
    requires objs[o].shared == objs[n].shared && objs[o].host == objs[n].host
    requires objs[o].owner == key ==> objs[n].owner == key
    ensures Fits(Redirected(entries, o, n, objs, key), objs, key)
  {
    hide EntryFits, Redirect;
    forall c | c in entries && entries[c].obj == Some(o)
      ensures EntryFits(Redirect(entries[c], objs[o], n, objs[n], key), objs, key)
    {
      RedirectFits(entries[c], o, n, objs, key);
    }
  }

  // ---- The reverse map ----

  /** The slots listed under `o` are those of the entries with that object. */
  lemma Listed(entries: Entries, refs: Refs, o: ObjId)
    requires Exact(entries, refs)
    ensures o in refs ==> Distinct(refs[o]) && refs[o] != [] && forall c :: c in refs[o] <==> c in entries && entries[c].obj == Some(o)
    ensures o !in refs ==> forall c | c in entries :: entries[c].obj != Some(o)
  {
  }

  function MovedRefs(refs: Refs, o: ObjId, n: ObjId): Refs {
    if o !in refs then refs
    else if n == o then refs
    else refs[n := refs[o]] - {o}
  }

  /** updateTlb keeps the reverse map exact if and only if it does not overwrite another object's list. */
  lemma MoveExact(entries: Entries, refs: Refs, o: ObjId, n: ObjId, objs: map<ObjId, Obj>, key: nat)
    requires Exact(entries, refs) && o in objs && n in objs
    ensures Exact(Redirected(entries, o, n, objs, key), MovedRefs(refs, o, n)) <==> o !in refs || n == o || n !in refs
  {
    hide Distinct;
    var entries', refs' := Redirected(entries, o, n, objs, key), MovedRefs(refs, o, n);
    forall c | c in entries ensures entries'[c].obj == if entries[c].obj == Some(o) then Some(n) else entries[c].obj {}
    if o in refs && n != o && n in refs {
      var c := refs[n][0];
      assert c in refs[n] && entries'[c].obj == Some(n);
      assert c !in refs[o];
      assert !Exact(entries', refs');
    }
  }

  /** For instance: two entries for two objects, one replaced by the other. */
  lemma MoveOverwrites(a: Coord, b: Coord)
    requires a != b
    ensures exists entries: Entries, refs: Refs, objs: map<ObjId, Obj> ::
      0 in objs && 1 in objs && Exact(entries, refs) && !Exact(Redirected(entries, 0, 1, objs, 0), MovedRefs(refs, 0, 1))
  {
    var obj := Obj(0, 0, true, 0, true, []);
    var objs: map<ObjId, Obj> := map[0 := obj, 1 := obj];
    var entries := map[a := EMPTY.(obj := Some(0)), b := EMPTY.(obj := Some(1))];
    var refs: Refs := map[0 := [a], 1 := [b]];
    assert Exact(entries, refs);
    MoveExact(entries, refs, 0, 1, objs, 0);
    assert !Exact(Redirected(entries, 0, 1, objs, 0), MovedRefs(refs, 0, 1));
  }

  lemma RemoveExact(entries: Entries, refs: Refs, c: Coord, i: nat, e: Entry)
    requires Exact(entries, refs) && c in entries && entries[c].obj.Some? && e.obj.None?
    requires i < |refs[entries[c].obj.value]| && refs[entries[c].obj.value][i] == c
    ensures var o := entries[c].obj.value;
            var list := Without(refs[o], i);
            Exact(entries[c := e], if list == [] then refs - {o} else refs[o := list])
  {
    var o := entries[c].obj.value;
    var list := Without(refs[o], i);
    DistinctWithout(refs[o], i);
    var entries', refs' := entries[c := e], if list == [] then refs - {o} else refs[o := list];
    forall p, d | p in refs' && d in refs'[p] ensures d in entries' && entries'[d].obj == Some(p) {
      if p == o {
        var x :| 0 <= x < |list| && list[x] == d;
        assert d == refs[o][if x < i then x else x + 1] && d in refs[o];
      }
    }
    forall d | d in entries' && entries'[d].obj.Some? ensures entries'[d].obj.value in refs' && d in refs'[entries'[d].obj.value] {
      if entries[d].obj == Some(o) {
        var x :| 0 <= x < |refs[o]| && refs[o][x] == d;
        assert d == if x < i then list[x] else list[x - 1];
      }
    }
  }

  lemma AddExact(entries: Entries, refs: Refs, c: Coord, n: ObjId, e: Entry)
    requires Exact(entries, refs) && c in entries && entries[c].obj.None? && e.obj == Some(n)
    ensures Exact(entries[c := e], refs[n := (if n in refs then refs[n] else []) + [c]])
  {
    var list := if n in refs then refs[n] else [];
    var refs' := refs[n := list + [c]];
    assert c !in list;
    var entries' := entries[c := e];
    forall d | d in entries' && entries'[d].obj.Some? ensures d in refs'[entries'[d].obj.value] {
      if d != c { assert d in refs[entries[d].obj.value]; }
    }
  }

  /** An entry whose object stays the same may change otherwise. */
  lemma SameExact(entries: Entries, refs: Refs, c: Coord, e: Entry)
    requires Exact(entries, refs) && c in entries && e.obj == entries[c].obj
    ensures Exact(entries[c := e], refs)
  {
  }

  // ---- audit ----

  function Count(s: seq<Coord>, c: Coord): nat {
    if s == [] then 0 else (if s[0] == c then 1 else 0) + Count(s[1..], c)
  }

  lemma {:induction false} CountOne(s: seq<Coord>, c: Coord)
    ensures c in s <==> Count(s, c) > 0
    ensures Count(s, c) > 1 <==> exists i, j | 0 <= i < j < |s| :: s[i] == c && s[j] == c
  {
    if s == [] {
    } else {
      CountOne(s[1..], c);
      assert forall x :: x in s <==> x == s[0] || x in s[1..];
      if i, j :| 0 <= i < j < |s| && s[i] == c && s[j] == c {
        assert s[1..][j - 1] == c;
        if i > 0 { assert s[1..][i - 1] == c; }
      }
      if s[0] == c && c in s[1..] {
        var j :| 0 <= j < |s[1..]| && s[1..][j] == c;
        assert s[0] == c && s[j + 1] == c;
      }
      if i, j :| 0 <= i < j < |s[1..]| && s[1..][i] == c && s[1..][j] == c {
        assert s[i + 1] == c && s[j + 1] == c;
      }
    }
  }

  method CountIn(s: seq<Coord>, c: Coord) returns (n: nat)
    ensures n == Count(s, c)
  {
    n := 0;
    var i := 0;
    while i < |s|
      invariant 0 <= i <= |s| && n + Count(s[i..], c) == Count(s, c)
    {
      assert s[i..][1..] == s[i + 1..];
      if s[i] == c { n := n + 1; }
      i := i + 1;
    }
  }

  ghost predicate ListsFit(entries: Entries, refs: Refs) {
    forall o, c | o in refs && c in refs[o] :: c in entries && entries[c].obj == Some(o)
  }

  predicate ListedOnce(e: Entry, c: Coord, refs: Refs) {
    e.obj.Some? ==> e.obj.value in refs && Count(refs[e.obj.value], c) == 1
  }

  /** The first loop of audit. */
  method CheckLists(entries: Entries, refs: Refs) returns (ok: bool)
    requires forall o, c | o in refs && c in refs[o] :: c in entries
    ensures ok <==> ListsFit(entries, refs)
  {
    var todo := refs.Keys;
    while todo != {}
      invariant todo <= refs.Keys
      invariant forall o, c | o in refs && o !in todo && c in refs[o] :: entries[c].obj == Some(o)
      decreases todo
    {
      var o :| o in todo;
      for i := 0 to |refs[o]|
        invariant forall j | 0 <= j < i :: entries[refs[o][j]].obj == Some(o)
      {
        assert refs[o][i] in refs[o];
        if entries[refs[o][i]].obj != Some(o) {
          return false;
        }
      }
      todo := todo - {o};
    }
    return true;
  }

  /** audit finds every fault of the reverse map except an empty list. */
  method Audit(entries: Entries, refs: Refs, modes: nat) returns (ok: bool)
    requires forall c :: c in entries <==> c.mode < modes && c.index < CPU_TLB_SIZE
    requires forall o, c | o in refs && c in refs[o] :: c in entries
    ensures (ok && forall o | o in refs :: refs[o] != []) <==> Exact(entries, refs)
  {
    ok := CheckLists(entries, refs);
    if !ok {
      return;
    }
    for i := 0 to CPU_TLB_SIZE
      invariant forall c | c in entries && c.index < i :: ListedOnce(entries[c], c, refs)
    {
      for mode := 0 to modes
        invariant forall c | c in entries && (c.index < i || (c.index == i && c.mode < mode)) :: ListedOnce(entries[c], c, refs)
      {
        var c := Coord(mode, i);
        var e := entries[c];
        if e.obj.Some? {
          if e.obj.value !in refs {
            return false;
          }
          var n := CountIn(refs[e.obj.value], c);
          if n != 1 {
            OnceIfExact(entries, refs, c);
            return false;
          }
        }
      }
    }
    ExactIfOnce(entries, refs);
  }

  lemma OnceIfExact(entries: Entries, refs: Refs, c: Coord)
    requires c in entries
    ensures Exact(entries, refs) ==> ListedOnce(entries[c], c, refs)
  {
    if Exact(entries, refs) && entries[c].obj.Some? {
      CountOne(refs[entries[c].obj.value], c);
    }
  }

  lemma ExactIfOnce(entries: Entries, refs: Refs)
    requires ListsFit(entries, refs) && forall c | c in entries :: ListedOnce(entries[c], c, refs)
    ensures (forall o | o in refs :: refs[o] != []) <==> Exact(entries, refs)
  {
    forall o | o in refs ensures Distinct(refs[o]) {
      forall i, j | 0 <= i < j < |refs[o]| ensures refs[o][i] != refs[o][j] {
        var c := refs[o][i];
        assert c in refs[o] && entries[c].obj == Some(o) && ListedOnce(entries[c], c, refs);
        CountOne(refs[o], c);
      }
    }
    forall c | c in entries && entries[c].obj.Some? ensures c in refs[entries[c].obj.value] {
      CountOne(refs[entries[c].obj.value], c);
    }
  }

  // ---- The TLB of a state ----

  class S2ETlb {
    const modes: nat
    var entries: Entries
    var refs: Refs

    ghost predicate Valid()
      reads this
    {
      && Exact(entries, refs)
      && forall c :: c in entries <==> c.mode < modes && c.index < CPU_TLB_SIZE
    }

    /** tlb_flush with flushTlbCache */
    method Flush()
      requires Valid()
      modifies this
      ensures Valid() && refs == map[] && forall c | c in entries :: entries[c] == EMPTY
    {
      entries := map c | c in entries :: EMPTY;
      refs := map[];
    }

    /** updateTlb: all entries of object `o` lead to `n` afterwards, and only those change. The reverse map
        stays exact unless another object's list is overwritten. */
    method UpdateTlb(o: ObjId, n: ObjId, objs: map<ObjId, Obj>, key: nat)
      requires Valid() && o in objs && n in objs && objs[o].shared == objs[n].shared
      modifies this
      ensures Valid() <==> o !in old(refs) || n == o || n !in old(refs)
      ensures entries == Redirected(old(entries), o, n, objs, key) && refs == MovedRefs(old(refs), o, n)
      ensures entries.Keys == old(entries).Keys
      ensures forall c | c in entries ::
                if old(entries)[c].obj == Some(o) then Follows(entries[c], old(entries)[c], objs[o], n, objs[n], key)
                else entries[c] == old(entries)[c]
    {
      hide Exact, Distinct, Redirect, Follows;
      MoveExact(entries, refs, o, n, objs, key);
      Listed(entries, refs, o);
      if o in refs {
        var list := refs[o];
        for i := 0 to |list|
          invariant refs == old(refs) && entries.Keys == old(entries).Keys
          invariant forall j | i <= j < |list| :: entries[list[j]] == old(entries)[list[j]]
          invariant forall j | 0 <= j < i :: entries[list[j]] == Redirect(old(entries)[list[j]], objs[o], n, objs[n], key)
                                             && Follows(entries[list[j]], old(entries)[list[j]], objs[o], n, objs[n], key)
          invariant forall c | c in entries && c !in list :: entries[c] == old(entries)[c]
        {
          var c := list[i];
          assert c in list && entries[c].obj == Some(o);
          Apart(list, i);
          RedirectFollows(entries[c], objs[o], n, objs[n], key);
          entries := entries[c := Redirect(entries[c], objs[o], n, objs[n], key)];
        }
        refs := refs[n := list];
        if n != o {
          refs := refs - {o};
        }
        assert MovedRefs(old(refs), o, n) == refs;
      }
      assert entries == Redirected(old(entries), o, n, objs, key);
    }

    /** flushTlbCachePage: entry `c` loses its object. The search always finds it. */
    method FlushPage(c: Coord)
      requires Valid() && c in entries
      modifies this
      ensures Valid()
      ensures entries == if old(entries[c].obj).None? then old(entries) else old(entries)[c := old(entries[c]).(obj := None, addend := 0)]
    {
      hide Exact, Distinct;
      if entries[c].obj.None? {
        return;
      }
      var o := entries[c].obj.value;
      Listed(entries, refs, o);
      var list, i := refs[o], 0;
      while list[i] != c
        invariant i < |list| && c !in list[..i]
        decreases |list| - i
      {
        assert c in list[i + 1..] by { assert list == list[..i] + [list[i]] + list[i + 1..]; }
        i := i + 1;
      }
      var e := entries[c].(obj := None, addend := 0);
      RemoveExact(entries, refs, c, i, e);
      entries := entries[c := e];
      list := list[..i] + list[i + 1..];
      refs := if list == [] then refs - {o} else refs[o := list];
    }

    /** updateTlbEntry, once tlb_set_page has stored the page addresses; `n` is the object found for the host address. */
    method UpdateEntry(c: Coord, virt: VAddr, n: ObjId, obj: Obj, key: nat)
      requires Valid() && c in entries
      modifies this
      ensures Valid() && entries == old(entries)[c := Refill(old(entries[c]), virt, n, obj, key)]
      ensures old(entries[c].obj) == Some(n) ==> refs == old(refs)
      ensures entries[c].obj == Some(n) && entries[c].virt == virt && EntryFits(entries[c], map[n := obj], key)
      ensures entries[c].notOurs <==> if obj.shared then old(entries)[c].notOurs else obj.owner != key
    {
      hide Exact;
      ghost var was := entries;
      var e := Refill(entries[c], virt, n, obj, key);
      if entries[c].obj != Some(n) {
        FlushPage(c);
        AddExact(entries, refs, c, n, e);
        refs := refs[n := (if n in refs then refs[n] else []) + [c]];
      } else {
        SameExact(entries, refs, c, e);
      }
      entries := entries[c := e];
      RefillFits(was[c], virt, n, map[n := obj], key);
      assert entries == was[c := e];
    }

    /** clearTlbOwnership */
    method ClearOwnership()
      requires Valid()
      modifies this
      ensures Valid() && refs == old(refs) && entries == NoneOurs(old(entries)) && entries.Keys == old(entries).Keys
      ensures forall c | c in entries :: entries[c] == old(entries)[c].(notOurs := true)
    {
      for i := 0 to CPU_TLB_SIZE
        invariant refs == old(refs) && entries.Keys == old(entries).Keys
        invariant forall c | c in entries :: entries[c] == if c.index < i then old(entries)[c].(notOurs := true) else old(entries)[c]
      {
        for mode := 0 to modes
          invariant refs == old(refs) && entries.Keys == old(entries).Keys
          invariant forall c | c in entries :: entries[c] ==
                      if c.index < i || (c.index == i && c.mode < mode) then old(entries)[c].(notOurs := true) else old(entries)[c]
        {
          var c := Coord(mode, i);
          entries := entries[c := entries[c].(notOurs := true)];
        }
      }
    }
  }

  lemma Apart(s: seq<Coord>, i: nat)
    requires Distinct(s) && i < |s|
    ensures forall j | 0 <= j < |s| && j != i :: s[j] != s[i]
  {
  }

  function NoneOurs(entries: Entries): Entries {
    map c | c in entries :: entries[c].(notOurs := true)
  }
}

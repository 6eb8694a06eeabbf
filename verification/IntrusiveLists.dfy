/** Singly linked intrusive lists, as libcpu uses them for hash buckets, page
    lists and jump lists.

    All lists of one family share one `next` field per node, so the family is one
    table: a head per key and a next link per node. A node is on at most one list
    of its family; which one is the table's abstract value, a partial map from
    node to key.
 */
module IntrusiveLists {
  import opened Wrappers

  /** What the C structs store: the list heads and the nodes' next links. Links of
      nodes that are on no list are stale and mean nothing. */
  datatype ListTable<K, N> = ListTable(heads: map<K, Option<N>>, next: map<N, Option<N>>)

  function NodeAt<N>(s: seq<N>, i: nat): Option<N> {
    if i < |s| then Some(s[i]) else None
  }

  /** Following `next` from `head` visits exactly the nodes of `s` and stops. */
  ghost predicate Chain<N(!new)>(head: Option<N>, next: map<N, Option<N>>, s: seq<N>) {
    && head == NodeAt(s, 0)
    && (forall i | 0 <= i < |s| :: s[i] in next)
    && forall i {:trigger next[s[i]]} | 0 <= i < |s| :: next[s[i]] == NodeAt(s, i + 1)
  }

  ghost predicate Distinct<N(!new)>(s: seq<N>) {
    forall i, j | 0 <= i < j < |s| :: s[i] != s[j]
  }

  /** `lists` are the lists the pointers spell out. */
  ghost predicate Spells<K(!new), N(!new)>(t: ListTable<K, N>, lists: map<K, seq<N>>) {
    && t.heads.Keys == lists.Keys
    && forall k | k in lists :: Chain(t.heads[k], t.next, lists[k]) && Distinct(lists[k])
  }

  /** Every node with an owner is exactly once on its owner's list; nothing else is listed. */
  ghost predicate Files<K(!new), N(!new)>(lists: map<K, seq<N>>, owner: map<N, K>) {
    && (forall n | n in owner :: owner[n] in lists && n in lists[owner[n]])
    && forall k, n | k in lists && n in lists[k] :: n in owner && owner[n] == k
  }

  ghost predicate Represents<K(!new), N(!new)>(t: ListTable<K, N>, lists: map<K, seq<N>>, owner: map<N, K>) {
    Spells(t, lists) && Files(lists, owner)
  }

  /** The pointers determine the lists: no two families of lists fit the same table. */
  lemma {:induction false} ChainUnique<N(!new)>(head: Option<N>, next: map<N, Option<N>>, s: seq<N>, r: seq<N>)
    requires Chain(head, next, s) && Chain(head, next, r)
    ensures s == r
    decreases |s|
  {
    if s == [] {
    } else {
      assert s[0] in next && next[s[0]] == NodeAt(s, 1) && r[0] == s[0];
      assert next[r[0]] == NodeAt(r, 1);
      forall i | 0 <= i < |s[1..]| ensures s[1..][i] in next && next[s[1..][i]] == NodeAt(s[1..], i + 1) {
        assert s[1..][i] == s[i + 1];
      }
      forall i | 0 <= i < |r[1..]| ensures r[1..][i] in next && next[r[1..][i]] == NodeAt(r[1..], i + 1) {
        assert r[1..][i] == r[i + 1];
      }
      ChainUnique(next[s[0]], next, s[1..], r[1..]);
      assert s == [s[0]] + s[1..] && r == [r[0]] + r[1..];
    }
  }

  /** Insertion at the head of list `k` (exec-tb.c: tb_link_page, tb_alloc_page, tb_add_jump). */
  method Push<K(==, !new), N(==, !new)>(t: ListTable<K, N>, k: K, n: N, ghost lists: map<K, seq<N>>, ghost owner: map<N, K>)
    returns (r: ListTable<K, N>, ghost lists': map<K, seq<N>>)
    requires Represents(t, lists, owner)
    requires k in t.heads && n !in owner
    ensures lists' == lists[k := [n] + lists[k]]
    ensures Represents(r, lists', owner[n := k])
    ensures r.heads == t.heads[k := Some(n)] && r.next == t.next[n := t.heads[k]]
  {
    hide Represents;
    Filed(t, lists, owner, n);
    r := ListTable(t.heads[k := Some(n)], t.next[n := t.heads[k]]);
    lists' := lists[k := [n] + lists[k]];
    PushSpells(t, k, n, lists, owner);
    Both(t, lists, owner);
    PushFiles(k, n, lists, owner);
    Both(r, lists', owner[n := k]);
  }

  lemma Both<K(!new), N(!new)>(t: ListTable<K, N>, lists: map<K, seq<N>>, owner: map<N, K>)
    ensures Represents(t, lists, owner) <==> Spells(t, lists) && Files(lists, owner)
  {
  }

  lemma PushSpells<K(!new), N(!new)>(t: ListTable<K, N>, k: K, n: N, lists: map<K, seq<N>>, owner: map<N, K>)
    requires Represents(t, lists, owner) && k in lists && n !in owner
    ensures Spells(ListTable(t.heads[k := Some(n)], t.next[n := t.heads[k]]), lists[k := [n] + lists[k]])
  {
    var next := t.next[n := t.heads[k]];
    forall j | j in lists && j != k ensures Chain(t.heads[j], next, lists[j]) {
      ChainFrame(t.heads[j], t.next, next, lists[j]);
    }
    var s, s' := lists[k], [n] + lists[k];
    forall i | 0 <= i < |s'| ensures s'[i] in next && next[s'[i]] == NodeAt(s', i + 1) {
      if i > 0 { assert s'[i] == s[i - 1]; }
    }
    assert n !in s;
  }

  lemma PushFiles<K(!new), N(!new)>(k: K, n: N, lists: map<K, seq<N>>, owner: map<N, K>)
    requires Files(lists, owner) && k in lists && n !in owner
    ensures Files(lists[k := [n] + lists[k]], owner[n := k])
  {
  }

  /** The first node of list `k` that satisfies `hit`, found through a pointer to the
      pointer that holds it: `before` is the node whose next field that is, or None
      for the list head. The walk reads no null node. */
  method Locate<K(==, !new), N(==, !new)>(t: ListTable<K, N>, k: K, hit: N -> bool, ghost s: seq<N>)
    returns (before: Option<N>, found: Option<N>, ghost i: nat)
    requires k in t.heads && Chain(t.heads[k], t.next, s)
    ensures i <= |s| && found == NodeAt(s, i)
    ensures before == if i == 0 then None else Some(s[i - 1])
    ensures forall j | 0 <= j < i :: !hit(s[j])
    ensures found.Some? ==> hit(found.value)
  {
    before, found, i := None, t.heads[k], 0;
    while found.Some? && !hit(found.value)
      invariant i <= |s| && found == NodeAt(s, i)
      invariant before == if i == 0 then None else Some(s[i - 1])
      invariant forall j | 0 <= j < i :: !hit(s[j])
      decreases |s| - i
    {
      before := found;
      found := t.next[found.value];
      i := i + 1;
    }
  }

  lemma ChainFrame<N(!new)>(head: Option<N>, next: map<N, Option<N>>, next': map<N, Option<N>>, s: seq<N>)
    requires Chain(head, next, s)
    requires forall n | n in s && n in next :: n in next' && next'[n] == next[n]
    ensures Chain(head, next', s)
  {
  }

  lemma ChainNext<N(!new)>(head: Option<N>, next: map<N, Option<N>>, s: seq<N>, i: nat)
    requires Chain(head, next, s) && i <= |s|
    ensures head == NodeAt(s, 0)
    ensures i < |s| ==> s[i] in next && next[s[i]] == NodeAt(s, i + 1)
  {
  }

  function Without<N>(s: seq<N>, i: nat): (r: seq<N>)
    requires i < |s|
    ensures |r| == |s| - 1
    ensures forall x | 0 <= x < |r| :: r[x] == if x < i then s[x] else s[x + 1]
  {
    s[..i] + s[i + 1..]
  }

  lemma DistinctWithout<N(!new)>(s: seq<N>, i: nat)
    requires Distinct(s) && i < |s|
    ensures Distinct(Without(s, i)) && s[i] !in Without(s, i)
  {
    var r := Without(s, i);
    forall x, y | 0 <= x < y < |r| ensures r[x] != r[y] {
      assert s[if x < i then x else x + 1] != s[if y < i then y else y + 1];
    }
    forall x | 0 <= x < |r| ensures r[x] != s[i] {
      assert s[if x < i then x else x + 1] == r[x];
    }
  }

  lemma ChainUnlinkFirst<N(!new)>(head: Option<N>, next: map<N, Option<N>>, s: seq<N>)
    requires Chain(head, next, s) && |s| > 0
    ensures Chain(next[s[0]], next, Without(s, 0))
  {
    var r := Without(s, 0);
    assert next[s[0]] == NodeAt(s, 1);
    forall x | 0 <= x < |r| ensures r[x] in next && next[r[x]] == NodeAt(r, x + 1) {
      assert next[s[x + 1]] == NodeAt(s, x + 2);
    }
  }

  lemma ChainUnlinkLater<N(!new)>(head: Option<N>, next: map<N, Option<N>>, s: seq<N>, i: nat)
    requires Chain(head, next, s) && Distinct(s) && 0 < i < |s|
    ensures Chain(head, next[s[i - 1] := next[s[i]]], Without(s, i))
  {
    var r, next' := Without(s, i), next[s[i - 1] := next[s[i]]];
    assert next[s[i]] == NodeAt(s, i + 1);
    forall x | 0 <= x < |r| ensures r[x] in next' && next'[r[x]] == NodeAt(r, x + 1) {
      var y := if x < i then x else x + 1;
      assert r[x] == s[y] && next[s[y]] == NodeAt(s, y + 1);
      assert y != i - 1 ==> s[y] != s[i - 1];
    }
  }

  /** Unlinks node `n`, found behind `before`, from list `k` (exec-tb.c: tb_remove,
      tb_page_remove, tb_remove_from_jmp_list). */
  method Unlink<K(==, !new), N(==, !new)>(t: ListTable<K, N>, k: K, before: Option<N>, n: N, ghost i: nat,
                                          ghost lists: map<K, seq<N>>, ghost owner: map<N, K>)
    returns (r: ListTable<K, N>, ghost lists': map<K, seq<N>>)
    requires Represents(t, lists, owner)
    requires k in t.heads && i < |lists[k]| && n == lists[k][i]
    requires before == if i == 0 then None else Some(lists[k][i - 1])
    ensures lists' == lists[k := Without(lists[k], i)]
    ensures Represents(r, lists', owner - {n})
    ensures r.heads.Keys == t.heads.Keys
    ensures forall m | m in t.next && Some(m) != before :: m in r.next && r.next[m] == t.next[m]
  {
    hide Represents, Without, Spells, Files, Distinct;
    Filed(t, lists, owner, n);
    lists' := lists[k := Without(lists[k], i)];
    r := if before.None? then t.(heads := t.heads[k := t.next[n]]) else t.(next := t.next[before.value := t.next[n]]);
    UnlinkSpells(t, k, i, lists, owner);
    Both(t, lists, owner);
    FilesRemove(lists, owner, k, i);
    Both(r, lists', owner - {n});
  }

  lemma UnlinkSpells<K(!new), N(!new)>(t: ListTable<K, N>, k: K, i: nat, lists: map<K, seq<N>>, owner: map<N, K>)
    requires Represents(t, lists, owner) && k in lists && i < |lists[k]| && lists[k][i] in t.next
    ensures Distinct(lists[k])
    ensures var next := t.next[lists[k][i]];
      Spells(if i == 0 then t.(heads := t.heads[k := next]) else t.(next := t.next[lists[k][i - 1] := next]), lists[k := Without(lists[k], i)])
  {
    hide Without, Distinct;
    DistinctWithout(lists[k], i);
    if i == 0 {
      ChainUnlinkFirst(t.heads[k], t.next, lists[k]);
    } else {
      var before, next := lists[k][i - 1], t.next[lists[k][i - 1] := t.next[lists[k][i]]];
      ChainUnlinkLater(t.heads[k], t.next, lists[k], i);
      forall j | j in lists && j != k ensures Chain(t.heads[j], next, lists[j]) {
        assert before in lists[k] && before !in lists[j];
        ChainFrame(t.heads[j], t.next, next, lists[j]);
      }
    }
  }

  lemma FilesRemove<K(!new), N(!new)>(lists: map<K, seq<N>>, owner: map<N, K>, k: K, i: nat)
    requires Files(lists, owner) && k in lists && i < |lists[k]| && Distinct(lists[k])
    ensures Files(lists[k := Without(lists[k], i)], owner - {lists[k][i]})
  {
    var s, n := lists[k], lists[k][i];
    var r := Without(s, i);
    var lists', owner' := lists[k := r], owner - {n};
    DistinctWithout(s, i);
    forall m | m in owner' ensures owner'[m] in lists' && m in lists'[owner'[m]] {
      if owner[m] == k {
        var x :| 0 <= x < |s| && s[x] == m;
        assert m == if x < i then r[x] else r[x - 1];
      }
    }
    forall j, m | j in lists' && m in lists'[j] ensures m in owner' && owner'[m] == j {
      if j == k {
        var x :| 0 <= x < |r| && r[x] == m;
        assert m == s[if x < i then x else x + 1] && m in s;
      }
      assert m in lists[j] && owner[m] == j;
      assert n in lists[k] && owner[n] == k;
    }
  }

  /** Walks list `k` to the first node that satisfies `hit` and unlinks it. `ok` tells that there is one: the
      C code does not look for the end of the list and fails without one. */
  method RemoveFirst<K(==, !new), N(==, !new)>(t: ListTable<K, N>, k: K, hit: N -> bool,
                                               ghost lists: map<K, seq<N>>, ghost owner: map<N, K>)
    returns (ok: bool, r: ListTable<K, N>, ghost lists': map<K, seq<N>>, ghost n: Option<N>, ghost i: nat)
    requires Represents(t, lists, owner) && k in t.heads
    ensures ok <==> exists m | m in owner && owner[m] == k :: hit(m)
    ensures k in lists && lists.Keys == t.heads.Keys == r.heads.Keys
    ensures !ok ==> r == t && lists' == lists && n == None
    ensures ok ==> && i < |lists[k]| && n == Some(lists[k][i]) && n.value in owner && owner[n.value] == k && hit(n.value)
                   && lists' == lists[k := Without(lists[k], i)] && Represents(r, lists', owner - {n.value})
    ensures forall m | m in t.next && hit(m) :: m in r.next && r.next[m] == t.next[m]
  {
    hide Represents;
    ghost var s := ListOf(t, k, lists, owner);
    ListKeys(t, lists, owner);
    var before, found;
    before, found, i := Locate(t, k, hit, s);
    ok, r, lists', n := found.Some?, t, lists, found;
    if found.None? {
      forall m | m in owner && owner[m] == k ensures !hit(m) {
        var j :| 0 <= j < |s| && s[j] == m;
      }
      return;
    }
    assert found.value in s;
    r, lists' := Unlink(t, k, before, found.value, i, lists, owner);
  }

  lemma ListKeys<K(!new), N(!new)>(t: ListTable<K, N>, lists: map<K, seq<N>>, owner: map<N, K>)
    requires Represents(t, lists, owner)
    ensures t.heads.Keys == lists.Keys
  {
  }

  /** The same where one node `n` is known to be the only one. */
  method RemoveOnly<K(==, !new), N(==, !new)>(t: ListTable<K, N>, k: K, hit: N -> bool, ghost n: N,
                                              ghost lists: map<K, seq<N>>, ghost owner: map<N, K>)
    returns (r: ListTable<K, N>, ghost lists': map<K, seq<N>>, ghost i: nat)
    requires Represents(t, lists, owner)
    requires n in owner && owner[n] == k && hit(n)
    requires forall m | m in owner && owner[m] == k && hit(m) :: m == n
    ensures k in lists
    ensures i < |lists[k]| && lists[k][i] == n
    ensures lists' == lists[k := Without(lists[k], i)]
    ensures Represents(r, lists', owner - {n})
    ensures r.heads.Keys == t.heads.Keys == lists.Keys
  {
    hide Represents;
    Filed(t, lists, owner, n);
    var ok;
    ghost var found;
    ok, r, lists', found, i := RemoveFirst(t, k, hit, lists, owner);
  }

  lemma Filed<K(!new), N(!new)>(t: ListTable<K, N>, lists: map<K, seq<N>>, owner: map<N, K>, n: N)
    requires Represents(t, lists, owner)
    ensures t.heads.Keys == lists.Keys
    ensures forall k | k in lists :: Chain(t.heads[k], t.next, lists[k])
    ensures n in owner ==> owner[n] in lists && n in lists[owner[n]]
    ensures forall k | k in lists && n in lists[k] :: n in owner && owner[n] == k
  {
  }

  lemma ListOf<K(!new), N(!new)>(t: ListTable<K, N>, k: K, lists: map<K, seq<N>>, owner: map<N, K>) returns (s: seq<N>)
    requires Represents(t, lists, owner) && k in t.heads
    ensures k in lists && s == lists[k] && Chain(t.heads[k], t.next, s)
    ensures forall n :: n in s <==> n in owner && owner[n] == k
  {
    s := lists[k];
    forall n ensures n in s <==> n in owner && owner[n] == k {
      Filed(t, lists, owner, n);
    }
  }

  lemma MapReadd<X, Y>(m: map<X, Y>, x: X)
    requires x in m
    ensures (m - {x})[x := m[x]] == m
  {
  }

  lemma MapOverwrite<X, Y>(m: map<X, Y>, x: X, y: Y, z: Y)
    ensures m[x := y][x := z] == m[x := z]
  {
  }

  /** Moves the found node to the head of its list (cpu-exec.c: tb_find_slow). */
  method MoveToFront<K(==, !new), N(==, !new)>(t: ListTable<K, N>, k: K, before: Option<N>, n: N, ghost i: nat,
                                               ghost lists: map<K, seq<N>>, ghost owner: map<N, K>)
    returns (r: ListTable<K, N>, ghost lists': map<K, seq<N>>)
    requires Represents(t, lists, owner)
    requires k in t.heads && i < |lists[k]| && n == lists[k][i]
    requires before == if i == 0 then None else Some(lists[k][i - 1])
    ensures lists' == lists[k := [n] + Without(lists[k], i)]
    ensures Represents(r, lists', owner)
  {
    hide Represents;
    Filed(t, lists, owner, n);
    assert n in lists[k];
    ghost var mid;
    r, mid := Unlink(t, k, before, n, i, lists, owner);
    MapReadd(owner, n);
    MapOverwrite(lists, k, mid[k], [n] + mid[k]);
    r, lists' := Push(r, k, n, mid, owner - {n});
  }

  ghost function NotOf<K(!new), N(!new)>(owner: map<N, K>, k: K): (r: map<N, K>)
    ensures forall n :: n in r <==> n in owner && owner[n] != k
    ensures forall n | n in r :: r[n] == owner[n]
  {
    map n | n in owner && owner[n] != k :: owner[n]
  }

  /** Empties list `k` by dropping its head. */
  lemma DropList<K(!new), N(!new)>(t: ListTable<K, N>, k: K, lists: map<K, seq<N>>, owner: map<N, K>)
    requires Represents(t, lists, owner) && k in t.heads
    ensures Represents(t.(heads := t.heads[k := None]), lists[k := []], NotOf(owner, k))
  {
  }
}

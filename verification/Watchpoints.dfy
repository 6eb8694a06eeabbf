/** Watchpoints (libcpu/src/exec-bp.c).

    A watchpoint covers an aligned range of 2^k bytes, at most a page. All of a CPU's
    watchpoints are on one tail queue, those that a debugger injected in front. */
module Watchpoints {
  import opened Wrappers
  import opened IntrusiveLists
  import opened Masks
  import opened TailQueue

  /** BP_GDB, BP_CPU, BP_MEM_READ, BP_MEM_WRITE, BP_STOP_BEFORE_ACCESS, BP_WATCHPOINT_HIT */
  datatype Flags = Flags(gdb: bool, cpu: bool, read: bool, write: bool, stop: bool, hit: bool)

  /** Some flag is in both. */
  predicate Common(a: Flags, b: Flags) {
    (a.gdb && b.gdb) || (a.cpu && b.cpu) || (a.read && b.read) || (a.write && b.write) || (a.stop && b.stop) || (a.hit && b.hit)
  }

  /** The flags as the number that the C code tests. */
  function Bits(f: Flags): bv8 {
    (if f.read then 0x01 else 0) | (if f.write then 0x02 else 0) | (if f.stop then 0x04 else 0)
    | (if f.hit then 0x08 else 0) | (if f.gdb then 0x10 else 0) | (if f.cpu then 0x20 else 0)
  }

  lemma CommonExact(a: Flags, b: Flags)
    ensures Common(a, b) <==> Bits(a) & Bits(b) != 0
  {
  }

  /** A watched range; its len_mask is ~(2^k - 1). */
  datatype Point = Point(vaddr: nat, k: nat, flags: Flags)

  // ---- Lengths ----

  /** The exponent of a power of two. */
  function Log2(len: nat): Option<nat> {
    if len == 0 then None
    else if len == 1 then Some(0)
    else if len % 2 == 1 then None
    else
      var r := Log2(len / 2);
      if r.None? then None else Some(r.value + 1)
  }

  lemma {:induction false} Log2Exact(len: nat, k: nat)
    ensures Log2(len) == Some(k) <==> len == Pow2(k)
  {
    if k == 0 {
    } else {
      assert Pow2(k) == 2 * Pow2(k - 1);
      if len > 1 && len % 2 == 0 { Log2Exact(len / 2, k - 1); }
    }
  }

  // ---- The match test ----

  /** check_watchpoint compares each address under the other range's mask; the access is 2^j bytes at `vaddr`. */
  predicate Matches(p: Point, vaddr: nat, j: nat) {
    vaddr == ClearLow(p.vaddr, j) || ClearLow(vaddr, p.k) == p.vaddr
  }

  predicate Covers(start: nat, k: nat, x: nat) { start <= x < start + Pow2(k) }

  ghost predicate Touches(p: Point, vaddr: nat, j: nat) {
    exists x :: Covers(p.vaddr, p.k, x) && Covers(vaddr, j, x)
  }

  /** For aligned accesses the test holds if and only if the accessed and the watched bytes meet. */
  lemma MatchExact(p: Point, vaddr: nat, j: nat)
    requires Aligned(p.vaddr, p.k) && Aligned(vaddr, j)
    ensures Matches(p, vaddr, j) <==> Touches(p, vaddr, j)
  {
    RangeHolds(vaddr, p.vaddr, j);
    RangeHolds(p.vaddr, vaddr, p.k);
    if Matches(p, vaddr, j) {
      var x := if p.vaddr < vaddr then vaddr else p.vaddr;
      assert Covers(p.vaddr, p.k, x) && Covers(vaddr, j, x);
    }
  }

  // ---- The queue ----

  ghost predicate PointOk(p: Point) { p.k <= 12 && Aligned(p.vaddr, p.k) }

  /** What the debugger injected comes first. */
  ghost predicate GdbFirst(s: seq<Elem>, points: map<Elem, Point>) {
    forall i, j | 0 <= i < j < |s| && s[i] in points && s[j] in points && points[s[j]].flags.gdb :: points[s[i]].flags.gdb
  }

  /** What cpu_watchpoint_remove looks for. */
  predicate Sought(p: Point, addr: nat, len: nat, flags: Flags) {
    p.vaddr == addr && Pow2(p.k) == len && flags == p.flags.(hit := false)
  }

  function Kept(s: seq<Elem>, points: map<Elem, Point>, mask: Flags): seq<Elem> {
    if s == [] then []
    else if s[0] in points && Common(points[s[0]].flags, mask) then Kept(s[1..], points, mask)
    else [s[0]] + Kept(s[1..], points, mask)
  }

  /** Exactly the watchpoints that share no flag with the mask are kept. */
  lemma {:induction false} KeptExact(s: seq<Elem>, points: map<Elem, Point>, mask: Flags)
    ensures forall e :: e in Kept(s, points, mask) <==> e in s && (e in points ==> Bits(points[e].flags) & Bits(mask) == 0)
  {
    hide Common, Bits;
    if s == [] {
    } else {
      KeptExact(s[1..], points, mask);
      assert s == [s[0]] + s[1..];
      if s[0] in points { CommonExact(points[s[0]].flags, mask); }
    }
  }

  /** They are kept in order. */
  lemma {:induction false} KeptInOrder(a: seq<Elem>, b: seq<Elem>, points: map<Elem, Point>, mask: Flags)
    ensures Kept(a + b, points, mask) == Kept(a, points, mask) + Kept(b, points, mask) && |Kept(a, points, mask)| <= |a|
  {
    hide Common;
    if a == [] {
      assert a + b == b;
    } else {
      KeptInOrder(a[1..], b, points, mask);
      assert (a + b)[1..] == a[1..] + b;
    }
  }

  ghost predicate AllQueued(points: map<Elem, Point>, s: seq<Elem>) {
    forall e :: e in points <==> e in s
  }

  /** The search of cpu_watchpoint_remove. */
  method Find(q: Queue, points: map<Elem, Point>, addr: nat, len: nat, flags: Flags, ghost s: seq<Elem>)
    returns (e: Option<Elem>, ghost i: nat)
    requires Chains(q, s) && AllQueued(points, s)
    ensures i <= |s| && e == NodeAt(s, i)
    ensures forall j | 0 <= j < i :: s[j] in points && !Sought(points[s[j]], addr, len, flags)
    ensures i < |s| ==> s[i] in points && Sought(points[s[i]], addr, len, flags)
  {
    hide Chains, Pow2;
    Ends(q, s, 0);
    e, i := q.next[Head], 0;
    while e.Some? && !Sought(points[e.value], addr, len, flags)
      invariant i <= |s| && e == NodeAt(s, i)
      invariant forall j | 0 <= j < i :: s[j] in points && !Sought(points[s[j]], addr, len, flags)
      decreases |s| - i
    {
      Ends(q, s, i + 1);
      e := q.next[Node(e.value)];
      i := i + 1;
    }
  }

  /** cpu_watchpoint_remove_by_ref */
  method RemoveByRef(q: Queue, points: map<Elem, Point>, e: Elem, ghost s: seq<Elem>, ghost i: nat)
    returns (q': Queue, points': map<Elem, Point>)
    requires Chains(q, s) && AllQueued(points, s) && GdbFirst(s, points) && i < |s| && s[i] == e
    ensures Chains(q', Without(s, i)) && AllQueued(points', Without(s, i)) && GdbFirst(Without(s, i), points')
    ensures points' == points - {e}
  {
    hide Chains, GdbFirst;
    SpelledOnce(q, s, i);
    GdbWithout(s, points, i);
    q' := TailQueue.Remove(q, e, s, i);
    points' := points - {e};
  }

  /** The loop of cpu_watchpoint_remove_all. */
  method DropAll(q: Queue, points: map<Elem, Point>, mask: Flags, ghost s: seq<Elem>)
    returns (q': Queue, points': map<Elem, Point>, ghost s': seq<Elem>)
    requires Chains(q, s) && AllQueued(points, s) && GdbFirst(s, points)
    ensures Chains(q', s') && AllQueued(points', s') && GdbFirst(s', points') && s' == Kept(s, points, mask)
    ensures forall e | e in points' :: e in points && points'[e] == points[e]
  {
    hide Chains, GdbFirst, Common, AllQueued;
    q', points', s' := q, points, s;
    Ends(q, s, 0);
    var e := q.next[Head];
    ghost var i := 0;
    assert s[..0] + Kept(s[0..], points, mask) == Kept(s, points, mask) by { assert s[0..] == s; }
    while e.Some?
      invariant 0 <= i <= |s'| && e == NodeAt(s', i) && Chains(q', s') && AllQueued(points', s') && GdbFirst(s', points')
      invariant s'[..i] + Kept(s'[i..], points, mask) == Kept(s, points, mask)
      invariant forall e | e in points' :: e in points && points'[e] == points[e]
      decreases |s'| - i
    {
      Ends(q', s', i + 1);
      Member(points', s', i);
      var following := q'.next[Node(e.value)];
      KeptStep(s', points, mask, i);
      if Common(points'[e.value].flags, mask) {
        q', points' := RemoveByRef(q', points', e.value, s', i);
        s' := Without(s', i);
      } else {
        i := i + 1;
      }
      e := following;
    }
    assert s'[..|s'|] == s' && s'[|s'|..] == [];
  }

  lemma Member(points: map<Elem, Point>, s: seq<Elem>, i: nat)
    requires AllQueued(points, s) && i < |s|
    ensures s[i] in points
  {
  }

  lemma KeptStep(s: seq<Elem>, points: map<Elem, Point>, mask: Flags, i: nat)
    requires i < |s|
    ensures var r := Without(s, i);
      if s[i] in points && Common(points[s[i]].flags, mask)
      then r[..i] + Kept(r[i..], points, mask) == s[..i] + Kept(s[i..], points, mask)
      else s[..i + 1] + Kept(s[i + 1..], points, mask) == s[..i] + Kept(s[i..], points, mask)
  {
    hide Common;
    var r := Without(s, i);
    assert s[i..][0] == s[i] && s[i..][1..] == s[i + 1..];
    assert r[..i] == s[..i] && r[i..] == s[i + 1..];
    assert s[..i + 1] == s[..i] + [s[i]];
  }

  function Marked(p: Point, hit: bool): Point { p.(flags := p.flags.(hit := hit)) }

  /** The access touches the watched bytes and is of a kind that is watched. */
  ghost predicate Triggers(p: Point, vaddr: nat, j: nat, access: Flags) {
    Touches(p, vaddr, j) && Bits(p.flags) & Bits(access) != 0
  }

  /** Nothing but the hit marks differs. */
  ghost predicate OnlyHits(points: map<Elem, Point>, points': map<Elem, Point>) {
    points'.Keys == points.Keys && forall e | e in points ::
      points'[e].vaddr == points[e].vaddr && points'[e].k == points[e].k
      && points'[e].flags.(hit := false) == points[e].flags.(hit := false)
  }

  lemma NoHits(points: map<Elem, Point>)
    ensures OnlyHits(points, points)
  {
  }

  lemma MoreHits(points: map<Elem, Point>, points': map<Elem, Point>, e: Elem)
    requires OnlyHits(points, points') && e in points
    ensures e in points' && forall hit :: OnlyHits(points, points'[e := Marked(points'[e], hit)])
  {
  }

  lemma Tested(p: Point, vaddr: nat, j: nat, access: Flags)
    requires PointOk(p) && Aligned(vaddr, j)
    ensures Matches(p, vaddr, j) && Common(p.flags, access) <==> Triggers(p, vaddr, j, access)
  {
    hide Common, Bits;
    CommonExact(p.flags, access);
    MatchExact(p, vaddr, j);
  }

  /** The loop of check_watchpoint, up to the first watchpoint that is hit, where it is left. */
  method Scan(q: Queue, points: map<Elem, Point>, vaddr: nat, j: nat, access: Flags, ghost s: seq<Elem>)
    returns (hit: Option<Elem>, points': map<Elem, Point>, ghost n: nat)
    requires Chains(q, s) && AllQueued(points, s) && Aligned(vaddr, j) && forall e | e in points :: PointOk(points[e])
    ensures n <= |s| && hit == NodeAt(s, n) && OnlyHits(points, points')
    ensures forall i | 0 <= i < |s| :: s[i] in points &&
              points'[s[i]] == if i < n then Marked(points[s[i]], false) else if i == n then Marked(points[s[i]], true) else points[s[i]]
    ensures forall i | 0 <= i < n :: !Triggers(points[s[i]], vaddr, j, access) && !points'[s[i]].flags.hit
    ensures n < |s| ==> Triggers(points[s[n]], vaddr, j, access) && points'[s[n]].flags.hit
  {
    hide Chains, AllQueued, Common, Touches, ClearLow, Matches, Triggers, OnlyHits, PointOk, Aligned, Bits;
    Ends(q, s, 0);
    NoHits(points);
    hit, points', n := q.next[Head], points, 0;
    while hit.Some?
      invariant n <= |s| && hit == NodeAt(s, n) && OnlyHits(points, points') && points'.Keys == points.Keys
      invariant forall i | 0 <= i < n :: s[i] in points && points'[s[i]] == Marked(points[s[i]], false)
      invariant forall e | e in points && e !in s[..n] :: points'[e] == points[e]
      invariant forall i | 0 <= i < n :: !Triggers(points[s[i]], vaddr, j, access)
      decreases |s| - n
    {
      var e := hit.value;
      Ends(q, s, n + 1);
      Member(points, s, n);
      SpelledOnce(q, s, n);
      Tested(points[e], vaddr, j, access);
      MoreHits(points, points', e);
      assert e !in s[..n] && s[..n + 1] == s[..n] + [e];
      if Matches(points'[e], vaddr, j) && Common(points'[e].flags, access) {
        points' := points'[e := Marked(points'[e], true)];
        forall i | n < i < |s| ensures s[i] in points && points'[s[i]] == points[s[i]] {
          Member(points, s, i);
          SpelledOnce(q, s, i);
        }
        return;
      }
      points' := points'[e := Marked(points'[e], false)];
      hit := q.next[Node(e)];
      n := n + 1;
    }
  }

  class Watchpoints {
    var queue: Queue
    var points: map<Elem, Point>
    var nextId: Elem
    ghost var order: seq<Elem>

    ghost predicate Valid()
      reads this
    {
      && Chains(queue, order) && AllQueued(points, order) && GdbFirst(order, points)
      && (forall e | e in points :: PointOk(points[e]) && e < nextId)
    }

    constructor ()
      ensures Valid() && order == []
    {
      points, nextId, order := map[], 0, [];
      new;
      queue := Init();
    }

    /** cpu_watchpoint_insert: accepts nonempty aligned ranges of a power of two bytes, up to a page. */
    method Insert(addr: nat, len: nat, flags: Flags) returns (r: Option<Elem>)
      requires Valid()
      modifies this
      ensures Valid()
      ensures r.Some? <==> exists k | 0 <= k <= 12 :: len == Pow2(k) && Aligned(addr, k)
      ensures r.None? ==> points == old(points) && order == old(order)
      ensures r.Some? ==> r.value !in old(points) && order == (if flags.gdb then [r.value] + old(order) else old(order) + [r.value])
      ensures r.Some? ==> exists k | len == Pow2(k) :: points == old(points)[r.value := Point(addr, k, flags)]
    {
      hide Chains, GdbFirst, Log2, Pow2, ClearLow;
      var k := Log2(len);
      if k.None? || k.value > 12 || !Aligned(addr, k.value) {
        Refused(addr, len);
        return None;
      }
      Log2Exact(len, k.value);
      var e := nextId;
      nextId := nextId + 1;
      if flags.gdb {
        queue := InsertHead(queue, e, order);
        GdbInFront(order, points, e, Point(addr, k.value, flags));
        order := [e] + order;
      } else {
        queue := InsertTail(queue, e, order);
        OtherAtEnd(order, points, e, Point(addr, k.value, flags));
        order := order + [e];
      }
      points := points[e := Point(addr, k.value, flags)];
      r := Some(e);
    }

    /** cpu_watchpoint_remove: takes out the first watchpoint that fits, hit or not. */
    method Remove(addr: nat, len: nat, flags: Flags) returns (ok: bool, ghost i: nat)
      requires Valid()
      modifies this
      ensures Valid() && i <= |old(order)| && (ok <==> i < |old(order)|)
      ensures forall j | 0 <= j < i :: old(order)[j] in old(points) && !Sought(old(points)[old(order)[j]], addr, len, flags)
      ensures !ok ==> points == old(points) && order == old(order)
      ensures ok ==> && old(order)[i] in old(points) && Sought(old(points)[old(order)[i]], addr, len, flags)
                     && order == Without(old(order), i) && points == old(points) - {old(order)[i]}
      ensures ok <==> exists e | e in old(points) ::
                var p := old(points)[e]; p.vaddr == addr && Pow2(p.k) == len && p.flags.(hit := false) == flags
    {
      hide Chains, GdbFirst, Pow2;
      var e;
      e, i := Find(queue, points, addr, len, flags, order);
      ok := e.Some?;
      if ok {
        queue, points := RemoveByRef(queue, points, e.value, order, i);
        order := Without(order, i);
      }
    }

    /** cpu_watchpoint_remove_all */
    method RemoveAll(mask: Flags)
      requires Valid()
      modifies this
      ensures Valid() && order == Kept(old(order), old(points), mask)
      ensures forall e | e in points :: e in old(points) && points[e] == old(points)[e]
      ensures forall e | e in old(points) :: e in points <==> Bits(old(points)[e].flags) & Bits(mask) == 0
    {
      hide Chains, GdbFirst, Kept, Bits;
      KeptExact(order, points, mask);
      queue, points, order := DropAll(queue, points, mask, order);
    }

    /** check_watchpoint: the first watchpoint in the queue that the access triggers is marked as hit. */
    method Check(vaddr: nat, j: nat, access: Flags) returns (hit: Option<Elem>, ghost n: nat)
      requires Valid() && Aligned(vaddr, j)
      modifies `points
      ensures Valid() && n <= |order| && hit == NodeAt(order, n) && OnlyHits(old(points), points)
      ensures forall i | 0 <= i < |order| :: order[i] in points &&
                points[order[i]] == if i < n then Marked(old(points)[order[i]], false)
                                    else if i == n then Marked(old(points)[order[i]], true) else old(points)[order[i]]
      ensures forall i | 0 <= i < n :: !Triggers(old(points)[order[i]], vaddr, j, access) && !points[order[i]].flags.hit
      ensures n < |order| ==> Triggers(old(points)[order[n]], vaddr, j, access) && points[order[n]].flags.hit
    {
      hide Chains, Triggers, ClearLow, GdbFirst, AllQueued, OnlyHits, PointOk;
      ghost var was := points;
      hit, points, n := Scan(queue, points, vaddr, j, access, order);
      HitsKeep(order, was, points, nextId);
    }
  }

  lemma HitsKeep(s: seq<Elem>, points: map<Elem, Point>, points': map<Elem, Point>, nextId: Elem)
    requires OnlyHits(points, points') && AllQueued(points, s) && GdbFirst(s, points)
    requires forall e | e in points :: PointOk(points[e]) && e < nextId
    ensures AllQueued(points', s) && GdbFirst(s, points') && forall e | e in points' :: PointOk(points'[e]) && e < nextId
  {
  }

  lemma Refused(addr: nat, len: nat)
    requires var k := Log2(len); k.None? || k.value > 12 || !Aligned(addr, k.value)
    ensures forall k | 0 <= k <= 12 :: !(len == Pow2(k) && Aligned(addr, k))
  {
    forall k | 0 <= k <= 12 ensures !(len == Pow2(k) && Aligned(addr, k)) { Log2Exact(len, k); }
  }

  lemma SpelledOnce(q: Queue, s: seq<Elem>, i: nat)
    requires Chains(q, s) && i < |s|
    ensures forall j | 0 <= j < |s| && j != i :: s[j] != s[i]
    ensures s[i] !in Without(s, i) && s[i] !in s[..i] && forall e :: e in Without(s, i) <==> e in s && e != s[i]
  {
    DistinctWithout(s, i);
    var r := Without(s, i);
    forall e | e in s && e != s[i] ensures e in r {
      var x :| 0 <= x < |s| && s[x] == e;
      assert e == r[if x < i then x else x - 1];
    }
    forall e | e in r ensures e in s {
      var x :| 0 <= x < |r| && r[x] == e;
      assert e == s[if x < i then x else x + 1];
    }
  }

  lemma GdbInFront(s: seq<Elem>, points: map<Elem, Point>, e: Elem, p: Point)
    requires GdbFirst(s, points) && p.flags.gdb && e !in s
    ensures GdbFirst([e] + s, points[e := p])
  {
  }

  lemma OtherAtEnd(s: seq<Elem>, points: map<Elem, Point>, e: Elem, p: Point)
    requires GdbFirst(s, points) && !p.flags.gdb && e !in s
    ensures GdbFirst(s + [e], points[e := p])
  {
  }

  lemma GdbWithout(s: seq<Elem>, points: map<Elem, Point>, i: nat)
    requires GdbFirst(s, points) && i < |s|
    ensures GdbFirst(Without(s, i), points - {s[i]})
  {
    var r := Without(s, i);
    forall x, y | 0 <= x < y < |r| && r[x] in points && r[y] in points && points[r[y]].flags.gdb ensures points[r[x]].flags.gdb {
      assert r[x] == s[if x < i then x else x + 1] && r[y] == s[if y < i then y else y + 1];
    }
  }
}

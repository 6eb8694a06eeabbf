/** Tail queues (libq/include/qqueue.h, QTAILQ_*), at the level of their links.

    The head and every element hold a link: the next element, and a pointer to the previous
    link. The head's previous link is the last one, so backwards the links form a circle.
    The previous element is reached by going back two links and forward one.
 */
module TailQueue {
  import opened Wrappers
  import opened IntrusiveLists

  type Elem = nat

  /** The link in the head or in an element. */
  datatype Link = Head | Node(e: Elem)

  /** tql_next and tql_prev of all links; a null prev marks an element that is not in use. */
  datatype Queue = Queue(next: map<Link, Option<Elem>>, prev: map<Link, Option<Link>>)

  /** Link number i of a queue that holds `s`: the head, then its elements. */
  function LinkAt(s: seq<Elem>, i: nat): Link
    requires i <= |s|
  {
    if i == 0 then Head else Node(s[i - 1])
  }

  /** The link that leads back to link i. */
  function After(s: seq<Elem>, i: nat): Link
    requires i <= |s|
  {
    if i < |s| then Node(s[i]) else Head
  }

  /** The links spell out `s`, forwards and backwards. */
  ghost predicate Chains(q: Queue, s: seq<Elem>) {
    && Distinct(s)
    && (forall i | 0 <= i <= |s| :: LinkAt(s, i) in q.next && q.next[LinkAt(s, i)] == NodeAt(s, i))
    && (forall i | 0 <= i <= |s| :: After(s, i) in q.prev && q.prev[After(s, i)] == Some(LinkAt(s, i)))
  }

  function Insert(s: seq<Elem>, i: nat, e: Elem): seq<Elem>
    requires i <= |s|
  {
    s[..i] + [e] + s[i..]
  }

  // ---- Where the operations lead ----

  /** `e` put between link i and what comes after it. */
  function Joined(q: Queue, s: seq<Elem>, i: nat, e: Elem): Queue
    requires i <= |s|
  {
    Queue(q.next[LinkAt(s, i) := Some(e)][Node(e) := NodeAt(s, i)],
          q.prev[After(s, i) := Some(Node(e))][Node(e) := Some(LinkAt(s, i))])
  }

  lemma JoinedChains(q: Queue, s: seq<Elem>, i: nat, e: Elem)
    requires Chains(q, s) && i <= |s| && e !in s
    ensures Chains(Joined(q, s, i, e), Insert(s, i, e))
  {
    var q', r := Joined(q, s, i, e), Insert(s, i, e);
    assert Distinct(r) by {
      forall x, y | 0 <= x < y < |r| ensures r[x] != r[y] {
        assert x != i ==> r[x] == s[if x < i then x else x - 1];
        assert y != i ==> r[y] == s[if y < i then y else y - 1];
      }
    }
    forall j | 0 <= j <= |r| ensures LinkAt(r, j) in q'.next && q'.next[LinkAt(r, j)] == NodeAt(r, j)
                                  && After(r, j) in q'.prev && q'.prev[After(r, j)] == Some(LinkAt(r, j)) {
      Shifted(s, i, e, j);
      if j < i {
        Apart(s, j, i);
      } else if j > i + 1 {
        Apart(s, i, j - 1);
      }
    }
  }

  lemma Shifted(s: seq<Elem>, i: nat, e: Elem, j: nat)
    requires i <= |s| && j <= |s| + 1
    ensures var r := Insert(s, i, e);
      && |r| == |s| + 1
      && (j <= i ==> LinkAt(r, j) == LinkAt(s, j)) && (j == i + 1 ==> LinkAt(r, j) == Node(e)) && (j > i + 1 ==> LinkAt(r, j) == LinkAt(s, j - 1))
      && (j < i ==> After(r, j) == After(s, j) && NodeAt(r, j) == NodeAt(s, j))
      && (j == i ==> After(r, j) == Node(e) && NodeAt(r, j) == Some(e))
      && (j > i ==> After(r, j) == After(s, j - 1) && NodeAt(r, j) == NodeAt(s, j - 1))
  {
  }

  /** Different links are different. */
  lemma Apart(s: seq<Elem>, i: nat, j: nat)
    requires Distinct(s) && i < j <= |s|
    ensures LinkAt(s, i) != LinkAt(s, j) && After(s, i) != After(s, j)
  {
  }

  /** Element i taken out. */
  function Parted(q: Queue, s: seq<Elem>, i: nat): Queue
    requires i < |s|
  {
    Queue(q.next[LinkAt(s, i) := NodeAt(s, i + 1)],
          q.prev[After(s, i + 1) := Some(LinkAt(s, i))][Node(s[i]) := None])
  }

  lemma PartedChains(q: Queue, s: seq<Elem>, i: nat)
    requires Chains(q, s) && i < |s|
    ensures Chains(Parted(q, s, i), Without(s, i))
  {
    var q', r := Parted(q, s, i), Without(s, i);
    DistinctWithout(s, i);
    forall j | 0 <= j <= |r| ensures LinkAt(r, j) in q'.next && q'.next[LinkAt(r, j)] == NodeAt(r, j)
                                  && After(r, j) in q'.prev && q'.prev[After(r, j)] == Some(LinkAt(r, j)) {
      if j < i {
        Apart(s, j, i);
        Apart(s, j, i + 1);
        assert LinkAt(r, j) == LinkAt(s, j) && After(r, j) == After(s, j) && NodeAt(r, j) == NodeAt(s, j);
      } else {
        Apart(s, i, j + 1);
        if j > i { Apart(s, i + 1, j + 1); }
        assert NodeAt(r, j) == NodeAt(s, j + 1) && After(r, j) == After(s, j + 1);
        assert LinkAt(r, j) == if j == i then LinkAt(s, i) else LinkAt(s, j + 1);
      }
    }
  }

  lemma Ends(q: Queue, s: seq<Elem>, i: nat)
    requires Chains(q, s) && i <= |s|
    ensures Head in q.next && Head in q.prev && q.next[Head] == NodeAt(s, 0) && q.prev[Head] == Some(LinkAt(s, |s|))
    ensures LinkAt(s, i) in q.next && q.next[LinkAt(s, i)] == NodeAt(s, i)
    ensures After(s, i) in q.prev && q.prev[After(s, i)] == Some(LinkAt(s, i))
  {
    assert LinkAt(s, 0) == Head && After(s, |s|) == Head;
  }

  // ---- The operations ----

  /** QTAILQ_INIT */
  method Init() returns (q: Queue)
    ensures Chains(q, [])
  {
    q := Queue(map[Head := None], map[Head := Some(Head)]);
  }

  /** QTAILQ_INSERT_HEAD */
  method InsertHead(q: Queue, e: Elem, ghost s: seq<Elem>) returns (q': Queue)
    requires Chains(q, s) && e !in s
    ensures Chains(q', [e] + s)
  {
    hide Chains;
    Ends(q, s, 0);
    JoinedChains(q, s, 0, e);
    assert Insert(s, 0, e) == [e] + s;
    var first := q.next[Head];
    var next, prev := q.next[Node(e) := first], q.prev;
    if first.Some? {
      prev := prev[Node(first.value) := Some(Node(e))];
    } else {
      prev := prev[Head := Some(Node(e))];
    }
    next := next[Head := Some(e)];
    prev := prev[Node(e) := Some(Head)];
    q' := Queue(next, prev);
    assert q'.next == Joined(q, s, 0, e).next;
  }

  /** QTAILQ_INSERT_TAIL */
  method InsertTail(q: Queue, e: Elem, ghost s: seq<Elem>) returns (q': Queue)
    requires Chains(q, s) && e !in s
    ensures Chains(q', s + [e])
  {
    hide Chains;
    Ends(q, s, |s|);
    JoinedChains(q, s, |s|, e);
    assert Insert(s, |s|, e) == s + [e];
    var last := q.prev[Head];
    var next := q.next[Node(e) := None];
    var prev := q.prev[Node(e) := last];
    next := next[last.value := Some(e)];
    prev := prev[Head := Some(Node(e))];
    q' := Queue(next, prev);
    assert q'.next == Joined(q, s, |s|, e).next && q'.prev == Joined(q, s, |s|, e).prev;
  }

  /** QTAILQ_INSERT_AFTER */
  method InsertAfter(q: Queue, at: Elem, e: Elem, ghost s: seq<Elem>, ghost i: nat) returns (q': Queue)
    requires Chains(q, s) && e !in s && i < |s| && s[i] == at
    ensures Chains(q', Insert(s, i + 1, e))
  {
    hide Chains;
    Ends(q, s, i + 1);
    JoinedChains(q, s, i + 1, e);
    var following := q.next[Node(at)];
    var next, prev := q.next[Node(e) := following], q.prev;
    if following.Some? {
      prev := prev[Node(following.value) := Some(Node(e))];
    } else {
      prev := prev[Head := Some(Node(e))];
    }
    next := next[Node(at) := Some(e)];
    prev := prev[Node(e) := Some(Node(at))];
    q' := Queue(next, prev);
    assert q'.next == Joined(q, s, i + 1, e).next;
  }

  /** QTAILQ_INSERT_BEFORE */
  method InsertBefore(q: Queue, at: Elem, e: Elem, ghost s: seq<Elem>, ghost i: nat) returns (q': Queue)
    requires Chains(q, s) && e !in s && i < |s| && s[i] == at
    ensures Chains(q', Insert(s, i, e))
  {
    hide Chains;
    Ends(q, s, i);
    JoinedChains(q, s, i, e);
    var before := q.prev[Node(at)];
    var prev := q.prev[Node(e) := before];
    var next := q.next[Node(e) := Some(at)];
    next := next[before.value := Some(e)];
    prev := prev[Node(at) := Some(Node(e))];
    q' := Queue(next, prev);
    assert q'.next == Joined(q, s, i, e).next && q'.prev == Joined(q, s, i, e).prev;
  }

  /** QTAILQ_REMOVE */
  method Remove(q: Queue, e: Elem, ghost s: seq<Elem>, ghost i: nat) returns (q': Queue)
    requires Chains(q, s) && i < |s| && s[i] == e
    ensures Chains(q', Without(s, i)) && Node(e) in q'.prev && q'.prev[Node(e)] == None
  {
    hide Chains;
    Ends(q, s, i);
    Ends(q, s, i + 1);
    PartedChains(q, s, i);
    var following, before := q.next[Node(e)], q.prev[Node(e)];
    var prev := if following.Some? then q.prev[Node(following.value) := before] else q.prev[Head := before];
    var next := q.next[before.value := following];
    prev := prev[Node(e) := None];
    q' := Queue(next, prev);
  }

  // ---- Traversal ----

  /** QTAILQ_LINK_PREV: two links back and one forward. */
  function LinkPrev(q: Queue, l: Link): Option<Elem>
    requires l in q.prev && q.prev[l].Some? && q.prev[l].value in q.prev
    requires q.prev[q.prev[l].value].Some? && q.prev[q.prev[l].value].value in q.next
  {
    q.next[q.prev[q.prev[l].value].value]
  }

  /** From the link after element i - 1, LinkPrev leads to that element; from the first element, to none. */
  lemma BackOne(q: Queue, s: seq<Elem>, i: nat)
    requires Chains(q, s) && i <= |s|
    ensures var l := After(s, i);
      && l in q.prev && q.prev[l].Some? && q.prev[l].value in q.prev
      && q.prev[q.prev[l].value].Some? && q.prev[q.prev[l].value].value in q.next
      && LinkPrev(q, l) == if i == 0 then None else Some(s[i - 1])
  {
    hide Chains;
    Ends(q, s, i);
    if i > 0 {
      Ends(q, s, i - 1);
      assert After(s, i - 1) == LinkAt(s, i);
    } else {
      Ends(q, s, |s|);
    }
  }

  /** QTAILQ_FOREACH_REVERSE visits the elements of QTAILQ_FOREACH in reverse order. */
  method Backward(q: Queue, ghost s: seq<Elem>) returns (r: seq<Elem>)
    requires Chains(q, s)
    ensures |r| == |s| && forall i | 0 <= i < |s| :: r[i] == s[|s| - 1 - i]
  {
    hide Chains;
    BackOne(q, s, |s|);
    r := [];
    var e := LinkPrev(q, Head);
    ghost var i := |s|;
    while e.Some?
      invariant 0 <= i <= |s| && e == (if i == 0 then None else Some(s[i - 1]))
      invariant |r| == |s| - i && forall j | 0 <= j < |r| :: r[j] == s[|s| - 1 - j]
      decreases i
    {
      r := r + [e.value];
      i := i - 1;
      BackOne(q, s, i);
      e := LinkPrev(q, Node(e.value));
    }
  }

  /** QTAILQ_FOREACH */
  method Forward(q: Queue, ghost s: seq<Elem>) returns (r: seq<Elem>)
    requires Chains(q, s)
    ensures r == s
  {
    hide Chains;
    Ends(q, s, 0);
    r := [];
    var e := q.next[Head];
    while e.Some?
      invariant |r| <= |s| && r == s[..|r|] && e == NodeAt(s, |r|)
      decreases |s| - |r|
    {
      Ends(q, s, |r| + 1);
      r := r + [e.value];
      e := q.next[Node(e.value)];
    }
  }
}

/** The list of the translation blocks on a physical page (libcpu/src/exec-tb.c), as a sequence.

    A TB is on the list once for each part of it on the page. tb_invalidate_phys_page_range walks the
    list while the TBs at hand are taken off it.
 */
module PageLists {
  import opened Wrappers
  import opened IntrusiveLists
  import opened Tlb
  import opened SmcMachine

  /** The entries of TBs outside `gone`, in order. */
  ghost function Spared(s: seq<Link>, gone: set<TbId>): seq<Link> {
    if s == [] then [] else if s[0].tb in gone then Spared(s[1..], gone) else [s[0]] + Spared(s[1..], gone)
  }

  ghost predicate Lists(s: seq<Link>, t: TbId) {
    exists i | 0 <= i < |s| :: s[i].tb == t
  }

  /** A TB is on the list once, or twice in a row with the later of its pages first. */
  ghost predicate Paired(s: seq<Link>) {
    s == [] || (&& Paired(s[1..])
                && if |s| >= 2 && s[1].tb == s[0].tb then s[0].n == 1 && s[1].n == 0 && !Lists(s[2..], s[0].tb)
                   else !Lists(s[1..], s[0].tb))
  }

  ghost predicate AllPaired(lists: map<nat, seq<Link>>) {
    forall p | p in lists :: Paired(lists[p])
  }

  lemma {:induction false} SparedLists(s: seq<Link>, gone: set<TbId>, t: TbId)
    ensures Lists(Spared(s, gone), t) <==> Lists(s, t) && t !in gone
  {
    if s == [] {
    } else {
      SparedLists(s[1..], gone, t);
      var rest := Spared(s[1..], gone);
      ListsFirst(s, t);
      if s[0].tb !in gone {
        ListsFirst([s[0]] + rest, t);
        assert ([s[0]] + rest)[1..] == rest;
      }
    }
  }

  lemma ListsFirst(s: seq<Link>, t: TbId)
    requires s != []
    ensures Lists(s, t) <==> s[0].tb == t || Lists(s[1..], t)
  {
    if i :| 0 <= i < |s| && s[i].tb == t && i > 0 { assert s[1..][i - 1].tb == t; }
    if i :| 0 <= i < |s[1..]| && s[1..][i].tb == t { assert s[i + 1].tb == t; }
  }

  lemma {:induction false} SparedPaired(s: seq<Link>, gone: set<TbId>)
    requires Paired(s)
    ensures Paired(Spared(s, gone))
  {
    if s == [] {
    } else {
      SparedPaired(s[1..], gone);
      if s[0].tb !in gone {
        var rest := Spared(s[1..], gone);
        assert ([s[0]] + rest)[1..] == rest;
        SparedLists(s[1..], gone, s[0].tb);
        if |s| >= 2 && s[1].tb == s[0].tb {
          assert s[1..][1..] == s[2..] && rest == [s[1]] + Spared(s[2..], gone);
          assert ([s[0]] + rest)[2..] == Spared(s[2..], gone);
          SparedLists(s[2..], gone, s[0].tb);
        } else if rest != [] {
          assert rest[0].tb != s[0].tb;
        }
      }
    }
  }

  lemma {:induction false} SparedNone(s: seq<Link>, gone: set<TbId>)
    requires forall t | t in gone :: !Lists(s, t)
    ensures Spared(s, gone) == s
  {
    if s == [] {
    } else {
      assert Lists(s, s[0].tb);
      forall t | t in gone ensures !Lists(s[1..], t) { ListsFirst(s, t); }
      SparedNone(s[1..], gone);
    }
  }

  lemma {:induction false} SparedSum(s: seq<Link>, r: seq<Link>, gone: set<TbId>)
    ensures Spared(s + r, gone) == Spared(s, gone) + Spared(r, gone)
  {
    if s == [] {
      assert s + r == r;
    } else {
      assert (s + r)[1..] == s[1..] + r;
      SparedSum(s[1..], r, gone);
    }
  }

  /** Taking an entry of a TB off first makes no difference. */
  lemma SparedWithout(s: seq<Link>, i: nat, gone: set<TbId>)
    requires i < |s| && s[i].tb in gone
    ensures Spared(Without(s, i), gone) == Spared(s, gone)
  {
    assert s == s[..i] + ([s[i]] + s[i + 1..]) && ([s[i]] + s[i + 1..])[1..] == s[i + 1..];
    SparedSum(s[..i], [s[i]] + s[i + 1..], gone);
    SparedSum(s[..i], s[i + 1..], gone);
  }

  /** The next links of the entries of `t` are the same. */
  ghost predicate SameNext(next': map<Link, Option<Link>>, next: map<Link, Option<Link>>, t: TbId) {
    forall l | l in next && l.tb == t :: l in next' && next'[l] == next[l]
  }

  // ---- The walk over a list that changes ----

  /** The last entries of `list` are those of `s` from the i-th on. */
  ghost predicate Suffix(list: seq<Link>, s: seq<Link>, i: nat) {
    i <= |s| <= |list| + i && list[|list| + i - |s|..] == s[i..]
  }

  /** The saved next pointer stays good: taking a TB off the list leaves the entries behind its own. */
  lemma SuffixSpared(list: seq<Link>, s: seq<Link>, i: nat, j: nat, t: TbId)
    requires Suffix(list, s, i) && i <= j <= |s| && !Lists(s[j..], t)
    ensures Suffix(Spared(list, {t}), s, j)
  {
    hide Lists;
    var d := |list| + j - |s|;
    assert list[d..] == s[j..] by {
      assert list[d..] == list[|list| + i - |s|..][j - i..] == s[i..][j - i..];
    }
    assert list == list[..d] + s[j..];
    SparedSum(list[..d], s[j..], {t});
    SparedNone(s[j..], {t});
  }

  /** The walk stands on a node of the list as it is now, and the next pointer read there is the one
      that the list had at the start. */
  lemma SuffixNext(next: map<Link, Option<Link>>, list: seq<Link>, s: seq<Link>, i: nat)
    requires Suffix(list, s, i) && i < |s| && Chain(NodeAt(list, 0), next, list)
    ensures |list| + i - |s| >= 0 && list[|list| + i - |s|] == s[i] && s[i] in list && s[i] in s
    ensures s[i] in next && next[s[i]] == NodeAt(s, i + 1)
    ensures Suffix(list, s, i + 1)
  {
    var d := |list| + i - |s|;
    assert list[d] == list[d..][0];
    assert list[d + 1..] == list[d..][1..] == s[i..][1..] == s[i + 1..];
    if i + 1 < |s| { assert list[d + 1] == list[d + 1..][0]; }
    assert next[list[d]] == NodeAt(list, d + 1);
  }

  /** Where the other entries of a TB can be. */
  lemma {:induction false} PairedAt(s: seq<Link>, i: nat)
    requires Paired(s) && i < |s|
    ensures !Lists(s[i + 1..], s[i].tb) || (i + 1 < |s| && s[i + 1] == Link(s[i].tb, 0) && s[i].n == 1 && !Lists(s[i + 2..], s[i].tb))
  {
    if i == 0 {
    } else {
      PairedAt(s[1..], i - 1);
      assert s[1..][i - 1] == s[i] && s[1..][i..] == s[i + 1..];
      if i + 1 < |s| { assert s[1..][i] == s[i + 1] && s[1..][i + 1..] == s[i + 2..]; }
    }
  }

  lemma ListsAt(s: seq<Link>, i: nat, j: nat)
    requires i <= j < |s|
    ensures Lists(s[i..], s[j].tb)
  {
    assert s[i..][j - i] == s[j];
  }

  lemma {:induction false} PairedNext(s: seq<Link>, i: nat, j: nat)
    requires Paired(s) && i < j < |s| && s[i].tb == s[j].tb
    ensures j == i + 1 && s[i].n == 1 && s[j].n == 0
  {
    if i == 0 {
      ListsAt(s, 1, j);
      ListsAt(s, if j >= 2 then 2 else 1, j);
    } else {
      assert s[1..][i - 1] == s[i] && s[1..][j - 1] == s[j];
      PairedNext(s[1..], i - 1, j - 1);
    }
  }

  /** The walk is at entry `i` of the list `s` that it started on. If the entry's TB was invalidated in the last
      round, the entry is off the list, but its next link is still the old one. */
  ghost predicate Cursor(next: map<Link, Option<Link>>, list: seq<Link>, s: seq<Link>, i: nat, live: map<TbId, Tb>) {
    i < |s| ==> if s[i].tb in live then Suffix(list, s, i)
                else Suffix(list, s, i + 1) && s[i] in next && next[s[i]] == NodeAt(s, i + 1)
  }

  /** After the round at entry `i` without an invalidation. */
  lemma CursorNext(next: map<Link, Option<Link>>, list: seq<Link>, s: seq<Link>, i: nat, live: map<TbId, Tb>)
    requires Cursor(next, list, s, i, live) && i < |s| && Chain(NodeAt(list, 0), next, list)
    requires forall l | l in list :: l.tb in live
    ensures s[i] in next && next[s[i]] == NodeAt(s, i + 1) && Cursor(next, list, s, i + 1, live)
    ensures s[i].tb in live ==> s[i] in list
  {
    if s[i].tb in live { SuffixNext(next, list, s, i); }
    if i + 1 < |s| { SuffixNext(next, list, s, i + 1); }
  }

  /** After the round at entry `i` in which its TB was invalidated. */
  lemma CursorDrop(next: map<Link, Option<Link>>, next': map<Link, Option<Link>>, list: seq<Link>, s: seq<Link>, i: nat,
                   live: map<TbId, Tb>)
    requires Cursor(next, list, s, i, live) && i < |s| && s[i].tb in live && Chain(NodeAt(list, 0), next, list)
    requires Paired(s) && SameNext(next', next, s[i].tb) && forall l | l in list :: l.tb in live
    ensures Cursor(next', Spared(list, {s[i].tb}), s, i + 1, live - {s[i].tb})
  {
    hide Paired, Lists, Spared, Suffix;
    var t := s[i].tb;
    SuffixNext(next, list, s, i);
    PairedAt(s, i);
    if i + 1 < |s| {
      SuffixNext(next, list, s, i + 1);
      if s[i + 1].tb == t {
        ListsAt(s, i + 1, i + 1);
        SuffixSpared(list, s, i, i + 2, t);
      } else {
        SuffixSpared(list, s, i, i + 1, t);
      }
    }
  }
}

/** The critical sections of the processes, as a whole (libs2ecore/src/S2E.cpp).

    A process that gets the lock runs its section to the end, and what the section's statements do
    together is one simple change. While it runs, no other process touches what is shared.
 */
module ProcessSections {
  import opened Wrappers
  import opened ProcessSlots

  /** Process `p` alone takes `k` steps. */
  function Steps(s: Sys, p: Pid, k: nat): (r: Sys)
    requires p in s.procs
    ensures p in r.procs
    decreases k
  {
    if k == 0 then s else
      Moved(s, p);
      Steps(GoOn(s, p), p, k - 1)
  }

  lemma Moved(s: Sys, p: Pid)
    requires p in s.procs
    ensures p in GoOn(s, p).procs
  {
  }

  /** The process holds the lock at `pc`; all else is as in `s`. */
  function Held(s: Sys, p: Pid, pc: Pc): (r: Sys)
    requires p in s.procs
    ensures p in r.procs
  {
    s.(lock := true, procs := s.procs[p := s.procs[p].(pc := pc)])
  }

  /** A 32-bit counter, one up. */
  function Up(n: nat): (r: nat)
    ensures r < WORD
    ensures n + 1 < WORD ==> r == n + 1
  {
    (n + 1) % WORD
  }

  lemma LastStep(s: Sys, p: Pid, r: Sys)
    requires p in s.procs && p in r.procs && GoOn(s, p) == r
    ensures Steps(s, p, 1) == r
  {
    hide GoOn;
  }

  lemma OneStep(s: Sys, p: Pid, s': Sys, k: nat, r: Sys)
    requires p in s.procs && p in s'.procs && GoOn(s, p) == s' && Steps(s', p, k) == r
    ensures Steps(s, p, k + 1) == r
  {
    hide GoOn;
  }

  lemma Taken(s: Sys, p: Pid, pc: Pc)
    requires p in s.procs && !s.lock
    ensures Acquire(s, p, pc) == Held(s, p, pc)
  {
  }

  lemma Leaves(s: Sys, p: Pid, pc: Pc, next: Pc)
    requires p in s.procs && !s.lock
    ensures Release(Held(s, p, pc), p, next) == At(s, p, next) && At(Held(s, p, pc), p, next) == Held(s, p, next)
  {
    assert s.procs[p := s.procs[p].(pc := pc)][p := s.procs[p].(pc := next)] == s.procs[p := s.procs[p].(pc := next)];
  }

  lemma ForkGoes(s: Sys, p: Pid)
    requires p in s.procs && !s.lock
    ensures s.procs[p].pc.ForkWait? ==> GoOn(s, p) == Held(s, p, ForkTest)
    ensures GoOn(Held(s, p, ForkTest), p) == Held(s, p, if s.count == |s.slots| then ForkFull else ForkTake)
    ensures GoOn(Held(s, p, ForkFull), p) == At(s, p, Idle)
    ensures GoOn(Held(s, p, ForkTake), p) == Held(s.(reserved := s.reserved + 1), p, ForkBump(s.lastId))
  {
    Leaves(s, p, ForkTest, if s.count == |s.slots| then ForkFull else ForkTake);
    Leaves(s, p, ForkFull, Idle);
    Leaves(s.(reserved := s.reserved + 1), p, ForkTake, ForkBump(s.lastId));
  }

  lemma ForkBumps(s: Sys, p: Pid, n: nat)
    requires p in s.procs && !s.lock
    ensures GoOn(Held(s, p, ForkBump(n)), p) == Held(s.(lastId := Up(s.lastId)), p, ForkCount(n))
  {
    Leaves(s.(lastId := Up(s.lastId)), p, ForkBump(n), ForkCount(n));
  }

  lemma ForkCounts(s: Sys, p: Pid, n: nat)
    requires p in s.procs && !s.lock
    ensures GoOn(Held(s, p, ForkCount(n)), p) == Held(s.(count := s.count + 1), p, ForkRelease(n))
    ensures GoOn(Held(s, p, ForkRelease(n)), p) == At(s, p, ForkCall(n))
  {
    Leaves(s.(count := s.count + 1), p, ForkCount(n), ForkRelease(n));
    Leaves(s, p, ForkRelease(n), ForkCall(n));
  }

  /** From the bump on. */
  lemma ForkEnds(s: Sys, p: Pid, n: nat)
    requires p in s.procs && !s.lock
    ensures Steps(Held(s, p, ForkBump(n)), p, 3) == At(s.(lastId := Up(s.lastId), count := s.count + 1), p, ForkCall(n))
  {
    hide GoOn, Held, Up, Steps;
    var s1 := s.(lastId := Up(s.lastId));
    var s2 := s1.(count := s.count + 1);
    var r := At(s2, p, ForkCall(n));
    ForkBumps(s, p, n);
    ForkCounts(s1, p, n);
    ForkCounts(s2, p, n);
    LastStep(Held(s2, p, ForkRelease(n)), p, r);
    OneStep(Held(s1, p, ForkCount(n)), p, Held(s2, p, ForkRelease(n)), 1, r);
    OneStep(Held(s, p, ForkBump(n)), p, Held(s1, p, ForkCount(n)), 2, r);
  }

  /** A fork hands out the next id and counts the child, or does nothing if all slots are counted. */
  lemma ForkSection(s: Sys, p: Pid)
    requires p in s.procs && s.procs[p].pc.ForkWait? && !s.lock
    ensures s.count == |s.slots| ==> Steps(s, p, 3) == At(s, p, Idle)
    ensures s.count != |s.slots| ==>
      Steps(s, p, 6) == At(s.(reserved := s.reserved + 1, lastId := Up(s.lastId), count := s.count + 1), p, ForkCall(s.lastId))
  {
    hide GoOn, Held, Up, Steps;
    ForkGoes(s, p);
    if s.count == |s.slots| {
      LastStep(Held(s, p, ForkFull), p, At(s, p, Idle));
      OneStep(Held(s, p, ForkTest), p, Held(s, p, ForkFull), 1, At(s, p, Idle));
      OneStep(s, p, Held(s, p, ForkTest), 2, At(s, p, Idle));
    } else {
      var s1 := s.(reserved := s.reserved + 1);
      var r := At(s1.(lastId := Up(s.lastId), count := s.count + 1), p, ForkCall(s.lastId));
      ForkEnds(s1, p, s.lastId);
      OneStep(Held(s, p, ForkTake), p, Held(s1, p, ForkBump(s.lastId)), 3, r);
      OneStep(Held(s, p, ForkTest), p, Held(s, p, ForkTake), 4, r);
      OneStep(s, p, Held(s, p, ForkTest), 5, r);
    }
  }

  lemma FailGoes(s: Sys, p: Pid)
    requires p in s.procs && !s.lock
    ensures s.procs[p].pc.FailWait? ==> GoOn(s, p) == Held(s, p, FailDrop)
    ensures s.count > 0 ==> GoOn(Held(s, p, FailDrop), p) == Held(s.(count := s.count - 1), p, FailRelease)
    ensures GoOn(Held(s, p, FailRelease), p) == At(s, p, Idle)
  {
    if s.count > 0 { Leaves(s.(count := s.count - 1), p, FailDrop, FailRelease); }
    Leaves(s, p, FailRelease, Idle);
  }

  /** A fork that failed no longer counts its child. */
  lemma FailSection(s: Sys, p: Pid)
    requires p in s.procs && s.procs[p].pc.FailWait? && !s.lock && s.count > 0
    ensures Steps(s, p, 3) == At(s.(count := s.count - 1), p, Idle)
  {
    hide GoOn, Held, Up, Steps;
    var s1 := s.(count := s.count - 1);
    var r := At(s1, p, Idle);
    FailGoes(s, p);
    FailGoes(s1, p);
    LastStep(Held(s1, p, FailRelease), p, r);
    OneStep(Held(s, p, FailDrop), p, Held(s1, p, FailRelease), 1, r);
    OneStep(s, p, Held(s, p, FailDrop), 2, r);
  }

  /** The child puts its id into the first free slot and remembers both. */
  lemma ChildSection(s: Sys, p: Pid, i: nat)
    requires p in s.procs && s.procs[p].pc.ChildWait? && !s.lock
    requires i < |s.slots| && s.slots[i] == FREE && forall j | 0 <= j < i :: s.slots[j] != FREE
    ensures var n := s.procs[p].pc.n;
      Steps(s, p, i + 3) == s.(slots := s.slots[i := n], procs := s.procs[p := Proc(Idle, n, i)])
  {
    var n := s.procs[p].pc.n;
    var r := s.(slots := s.slots[i := n], procs := s.procs[p := Proc(Idle, n, i)]);
    Taken(s, p, ChildScan(n, 0));
    Scans(s, p, n, i, 0);
    OneStep(s, p, Held(s, p, ChildScan(n, 0)), i + 2, r);
  }

  lemma {:induction false} Scans(s: Sys, p: Pid, n: nat, i: nat, j: nat)
    requires p in s.procs && !s.lock && j <= i < |s.slots| && s.slots[i] == FREE && forall j | 0 <= j < i :: s.slots[j] != FREE
    ensures Steps(Held(s, p, ChildScan(n, j)), p, i - j + 2) == s.(slots := s.slots[i := n], procs := s.procs[p := Proc(Idle, n, i)])
    decreases i - j
  {
    var r := s.(slots := s.slots[i := n], procs := s.procs[p := Proc(Idle, n, i)]);
    if j == i {
      var t := s.(lock := true, slots := s.slots[i := n], procs := s.procs[p := Proc(ChildRelease, n, i)]);
      assert s.procs[p := s.procs[p].(pc := ChildScan(n, i))][p := Proc(ChildRelease, n, i)] == s.procs[p := Proc(ChildRelease, n, i)];
      assert t.procs[p := Proc(Idle, n, i)] == r.procs;
      LastStep(t, p, r);
      OneStep(Held(s, p, ChildScan(n, i)), p, t, 1, r);
    } else {
      Scans(s, p, n, i, j + 1);
      Leaves(s, p, ChildScan(n, j), ChildScan(n, j + 1));
      OneStep(Held(s, p, ChildScan(n, j)), p, Held(s, p, ChildScan(n, j + 1)), i - j + 1, r);
    }
  }

  lemma ExitClears(s: Sys, p: Pid)
    requires p in s.procs && !s.lock && s.procs[p].index < |s.slots|
    ensures s.procs[p].pc.ExitWait? ==> GoOn(s, p) == Held(s, p, ExitClear)
    ensures GoOn(Held(s, p, ExitClear), p) == Held(s.(slots := s.slots[s.procs[p].index := FREE]), p, ExitDrop)
  {
    Leaves(s, p, ExitClear, ExitDrop);
  }

  lemma ExitGoes(s: Sys, p: Pid)
    requires p in s.procs && !s.lock
    ensures s.count > 0 ==> GoOn(Held(s, p, ExitDrop), p) == Held(s.(count := s.count - 1), p, ExitRelease)
    ensures GoOn(Held(s, p, ExitRelease), p) == At(s, p, Gone)
  {
    if s.count > 0 { Leaves(s.(count := s.count - 1), p, ExitDrop, ExitRelease); }
    Leaves(s, p, ExitRelease, Gone);
  }

  /** A process that exits frees its slot and is no longer counted. */
  lemma ExitSection(s: Sys, p: Pid)
    requires p in s.procs && s.procs[p].pc.ExitWait? && !s.lock && s.count > 0 && s.procs[p].index < |s.slots|
    ensures Steps(s, p, 4) == At(s.(slots := s.slots[s.procs[p].index := FREE], count := s.count - 1), p, Gone)
  {
    hide GoOn, Held, Up, Steps;
    var s1 := s.(slots := s.slots[s.procs[p].index := FREE]);
    var s2 := s1.(count := s.count - 1);
    var r := At(s2, p, Gone);
    ExitClears(s, p);
    ExitGoes(s1, p);
    ExitGoes(s2, p);
    LastStep(Held(s2, p, ExitRelease), p, r);
    OneStep(Held(s1, p, ExitDrop), p, Held(s2, p, ExitRelease), 1, r);
    OneStep(Held(s, p, ExitClear), p, Held(s1, p, ExitDrop), 2, r);
    OneStep(s, p, Held(s, p, ExitClear), 3, r);
  }

  lemma NumberGoes(s: Sys, p: Pid)
    requires p in s.procs && !s.lock
    ensures s.procs[p].pc.NumberWait? ==> GoOn(s, p) == Held(s, p, NumberRead)
    ensures GoOn(Held(s, p, NumberRead), p) == Held(s.(drawn := s.drawn + [s.lastNumber]), p, NumberBump)
    ensures GoOn(Held(s, p, NumberBump), p) == Held(s.(lastNumber := Up(s.lastNumber)), p, NumberRelease)
    ensures GoOn(Held(s, p, NumberRelease), p) == At(s, p, Idle)
  {
    var s1 := s.(drawn := s.drawn + [s.lastNumber]);
    Leaves(s1, p, NumberRead, NumberBump);
    assert Held(s, p, NumberRead).(drawn := s1.drawn) == Held(s1, p, NumberRead);
    Leaves(s.(lastNumber := Up(s.lastNumber)), p, NumberBump, NumberRelease);
    Leaves(s, p, NumberRelease, Idle);
  }

  /** The next state number is drawn. */
  lemma NumberSection(s: Sys, p: Pid)
    requires p in s.procs && s.procs[p].pc.NumberWait? && !s.lock
    ensures Steps(s, p, 4) == At(s.(drawn := s.drawn + [s.lastNumber], lastNumber := Up(s.lastNumber)), p, Idle)
  {
    hide GoOn, Held, Up, Steps;
    var s1 := s.(drawn := s.drawn + [s.lastNumber]);
    var s2 := s1.(lastNumber := Up(s.lastNumber));
    var r := At(s2, p, Idle);
    NumberGoes(s, p);
    NumberGoes(s1, p);
    NumberGoes(s2, p);
    LastStep(Held(s2, p, NumberRelease), p, r);
    OneStep(Held(s1, p, NumberBump), p, Held(s2, p, NumberRelease), 1, r);
    OneStep(Held(s, p, NumberRead), p, Held(s1, p, NumberBump), 2, r);
    OneStep(s, p, Held(s, p, NumberRead), 3, r);
  }

  /** In every state of a run, a process that waits gets through its section once the lock is free and it runs. */
  lemma SectionsEnd(s: Sys, p: Pid)
    requires Inv(s) && p in s.procs && !s.lock
    requires var pc := s.procs[p].pc; pc.ForkWait? || pc.FailWait? || pc.ChildWait? || pc.ExitWait? || pc.NumberWait?
    ensures exists k | 0 < k <= |s.slots| + 5 :: !Steps(s, p, k).lock && var pc := Steps(s, p, k).procs[p].pc; pc.Idle? || pc.ForkCall? || pc.Gone?
  {
    hide GoOn, Steps;
    match s.procs[p].pc
    case ForkWait => ForkSection(s, p); assert !Steps(s, p, if s.count == |s.slots| then 3 else 6).lock;
    case FailWait => HasOne(Pending(s.procs), p); FailSection(s, p); assert !Steps(s, p, 3).lock;
    case ExitWait => HasOne(Occupied(s.slots), s.procs[p].index); ExitSection(s, p); assert !Steps(s, p, 4).lock;
    case NumberWait => NumberSection(s, p); assert !Steps(s, p, 4).lock;
    case ChildWait(n) =>
      NoneFree(s.slots);
      HasOne(Pending(s.procs), p);
      var i := FirstFree(s.slots, 0);
      ChildSection(s, p, i);
      assert !Steps(s, p, i + 3).lock;
  }

  lemma {:induction false} FirstFree(slots: seq<nat>, j: nat) returns (i: nat)
    requires j <= |slots| && (exists k | j <= k < |slots| :: slots[k] == FREE) && forall k | 0 <= k < j :: slots[k] != FREE
    ensures i < |slots| && slots[i] == FREE && forall k | 0 <= k < i :: slots[k] != FREE
    decreases |slots| - j
  {
    if slots[j] == FREE { i := j; } else { i := FirstFree(slots, j + 1); }
  }
}

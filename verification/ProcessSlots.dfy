/** The slots that the processes of one S2E run share (libs2ecore/src/S2E.cpp, Synchronization.cpp).

    Processes fork, die and draw state numbers under one spin lock in shared memory. Each
    statement on shared memory is a step of its own, and the steps of all processes interleave
    freely. Shared counters are 32 bits wide.
 */
module ProcessSlots {
  import opened Wrappers

  const WORD: nat := 0x1_0000_0000
  /** (unsigned) -1, the id of a free slot */
  const FREE: nat := 0xffff_ffff

  type Pid = nat

  /** Where a process is. In `Wait` states it spins on the lock; `n` is newProcessId. */
  datatype Pc =
    | Idle
    | ForkWait | ForkTest | ForkFull | ForkTake | ForkBump(n: nat) | ForkCount(n: nat) | ForkRelease(n: nat) | ForkCall(n: nat)
    | FailWait | FailDrop | FailRelease
    | ChildWait(n: nat) | ChildScan(n: nat, i: nat) | ChildRelease
    | ExitWait | ExitClear | ExitDrop | ExitRelease | Gone
    | NumberWait | NumberRead | NumberBump | NumberRelease

  /** m_currentInstanceId and m_currentInstanceIndex */
  datatype Proc = Proc(pc: Pc, id: nat, index: nat)

  /** S2EShared with its lock, the processes, and what has happened so far: how many ids were
      reserved, and the state numbers drawn. */
  datatype Sys = Sys(lock: bool, count: nat, lastId: nat, lastNumber: nat, slots: seq<nat>, procs: map<Pid, Proc>,
                     reserved: nat, drawn: seq<nat>)

  // ---- Steps ----

  /** What a process does next; `Go` is everything that leaves it no choice. */
  datatype Step = Go(p: Pid) | StartFork(p: Pid) | StartExit(p: Pid) | StartNumber(p: Pid) | CallFails(p: Pid) | CallForks(p: Pid, child: Pid)

  predicate Enabled(s: Sys, step: Step) {
    step.p in s.procs &&
    var pc := s.procs[step.p].pc;
    match step
    case Go(_) => !pc.Idle? && !pc.ForkCall? && !pc.Gone?
    case StartFork(_) => pc.Idle?
    case StartExit(_) => pc.Idle?
    case StartNumber(_) => pc.Idle?
    case CallFails(_) => pc.ForkCall?
    case CallForks(_, child) => pc.ForkCall? && child !in s.procs
  }

  function At(s: Sys, p: Pid, pc: Pc): Sys
    requires p in s.procs
  {
    s.(procs := s.procs[p := s.procs[p].(pc := pc)])
  }

  /** acquire: goes on to `pc` if the lock is free. */
  function Acquire(s: Sys, p: Pid, pc: Pc): Sys
    requires p in s.procs
  {
    if s.lock then s else At(s.(lock := true), p, pc)
  }

  function Release(s: Sys, p: Pid, pc: Pc): Sys
    requires p in s.procs
  {
    At(s.(lock := false), p, pc)
  }

  /** One slot of the child's search; running off the end is the failed assertion, which stays put. */
  function Scan(s: Sys, p: Pid, n: nat, i: nat): Sys
    requires p in s.procs
  {
    if i >= |s.slots| then s
    else if s.slots[i] == FREE then s.(slots := s.slots[i := n], procs := s.procs[p := Proc(ChildRelease, n, i)])
    else At(s, p, ChildScan(n, i + 1))
  }

  function Down(count: nat): nat { if count > 0 then count - 1 else WORD - 1 }

  function GoOn(s: Sys, p: Pid): Sys
    requires p in s.procs
  {
    match s.procs[p].pc
    case ForkWait => Acquire(s, p, ForkTest)
    case ForkTest => At(s, p, if s.count == |s.slots| then ForkFull else ForkTake)
    case ForkFull => Release(s, p, Idle)
    case ForkTake => At(s.(reserved := s.reserved + 1), p, ForkBump(s.lastId))
    case ForkBump(n) => At(s.(lastId := (s.lastId + 1) % WORD), p, ForkCount(n))
    case ForkCount(n) => At(s.(count := s.count + 1), p, ForkRelease(n))
    case ForkRelease(n) => Release(s, p, ForkCall(n))
    case FailWait => Acquire(s, p, FailDrop)
    case FailDrop => At(s.(count := Down(s.count)), p, FailRelease)
    case FailRelease => Release(s, p, Idle)
    case ChildWait(n) => Acquire(s, p, ChildScan(n, 0))
    case ChildScan(n, i) => Scan(s, p, n, i)
    case ChildRelease => Release(s, p, Idle)
    case ExitWait => Acquire(s, p, ExitClear)
    case ExitClear =>
      var i := s.procs[p].index;
      At(if i < |s.slots| then s.(slots := s.slots[i := FREE]) else s, p, ExitDrop)
    case ExitDrop => At(s.(count := Down(s.count)), p, ExitRelease)
    case ExitRelease => Release(s, p, Gone)
    case NumberWait => Acquire(s, p, NumberRead)
    case NumberRead => At(s.(drawn := s.drawn + [s.lastNumber]), p, NumberBump)
    case NumberBump => At(s.(lastNumber := (s.lastNumber + 1) % WORD), p, NumberRelease)
    case NumberRelease => Release(s, p, Idle)
    case _ => s
  }

  function Apply(s: Sys, step: Step): Sys
    requires Enabled(s, step)
  {
    match step
    case Go(p) => GoOn(s, p)
    case StartFork(p) => At(s, p, ForkWait)
    case StartExit(p) => At(s, p, ExitWait)
    case StartNumber(p) => At(s, p, NumberWait)
    case CallFails(p) => At(s, p, FailWait)
    case CallForks(p, child) =>
      // the child is a copy of its parent that goes on with the new id
      var n := s.procs[p].pc.n;
      var t := At(s, p, Idle);
      t.(procs := t.procs[child := s.procs[p].(pc := ChildWait(n))])
  }

  /** The first process, with max slots. */
  ghost predicate Init(s: Sys) {
    && !s.lock && s.count == 1 && s.lastId == 1 && s.lastNumber == 0 && s.reserved == 0 && s.drawn == []
    && |s.slots| > 0 && s.slots[0] == 0 && (forall i | 0 < i < |s.slots| :: s.slots[i] == FREE)
    && exists p :: s.procs == map[p := Proc(Idle, 0, 0)]
  }

  // ---- Invariant ----

  /** The process is between acquire and release. */
  predicate Locks(pc: Pc) {
    match pc
    case ForkTest => true case ForkFull => true case ForkTake => true case ForkBump(_) => true case ForkCount(_) => true
    case ForkRelease(_) => true
    case FailDrop => true case FailRelease => true
    case ChildScan(_, _) => true case ChildRelease => true
    case ExitClear => true case ExitDrop => true case ExitRelease => true
    case NumberRead => true case NumberBump => true case NumberRelease => true
    case _ => false
  }

  /** The process is counted although no slot holds its id, or counts for a child that has none yet. */
  predicate Pends(pc: Pc) {
    match pc
    case ForkRelease(_) => true case ForkCall(_) => true case FailWait => true case FailDrop => true
    case ChildWait(_) => true case ChildScan(_, _) => true case ExitDrop => true
    case _ => false
  }

  /** The process has a slot. */
  predicate Claims(pc: Pc) {
    !pc.ChildWait? && !pc.ChildScan? && !pc.ExitDrop? && !pc.ExitRelease? && !pc.Gone?
  }

  /** The id that the process has reserved for a child, or for itself when it is the child. */
  function NewId(pc: Pc): Option<nat> {
    match pc
    case ForkBump(n) => Some(n) case ForkCount(n) => Some(n) case ForkRelease(n) => Some(n) case ForkCall(n) => Some(n)
    case ChildWait(n) => Some(n) case ChildScan(n, _) => Some(n)
    case _ => None
  }

  /** The ids the process stands for. */
  function Ids(r: Proc): set<nat> {
    (if Claims(r.pc) then {r.id} else {}) + (if NewId(r.pc).Some? then {NewId(r.pc).value} else {})
  }

  /** The lock is taken if and only if exactly one process is in a critical section. */
  ghost predicate Exclusive(s: Sys) {
    && (forall p, q | p in s.procs && q in s.procs && Locks(s.procs[p].pc) && Locks(s.procs[q].pc) :: p == q)
    && (s.lock <==> exists p | p in s.procs :: Locks(s.procs[p].pc))
  }

  function Pending(procs: map<Pid, Proc>): (r: set<Pid>)
    ensures forall p :: p in r <==> p in procs && Pends(procs[p].pc)
  {
    set p | p in procs && Pends(procs[p].pc)
  }

  function Occupied(slots: seq<nat>): (r: set<nat>)
    ensures forall i :: i in r <==> 0 <= i < |slots| && slots[i] != FREE
  {
    set i | 0 <= i < |slots| && slots[i] != FREE
  }

  ghost predicate Counted(s: Sys) {
    s.count == |Occupied(s.slots)| + |Pending(s.procs)| && s.count <= |s.slots|
  }

  /** Each process with a slot finds its id there, which is not the mark of a free one, and no two have the same slot. */
  ghost predicate Seated(s: Sys) {
    && (forall p | p in s.procs && Claims(s.procs[p].pc) ::
          s.procs[p].index < |s.slots| && s.slots[s.procs[p].index] == s.procs[p].id && s.procs[p].id != FREE)
    && (forall p, q | p in s.procs && q in s.procs && p != q && Claims(s.procs[p].pc) && Claims(s.procs[q].pc) ::
          s.procs[p].index != s.procs[q].index)
  }

  predicate Bumping(pc: Pc) { pc.ForkBump? }

  predicate Drawing(pc: Pc) { pc.NumberBump? }

  ghost predicate AnyBumping(procs: map<Pid, Proc>) { exists p | p in procs :: Bumping(procs[p].pc) }

  ghost predicate AnyDrawing(procs: map<Pid, Proc>) { exists p | p in procs :: Drawing(procs[p].pc) }

  /** All ids are among those handed out, and the counter holds the next one, as soon as it is bumped. */
  ghost predicate IdsBelow(s: Sys) {
    && s.lastId == (if AnyBumping(s.procs) then s.reserved else s.reserved + 1) % WORD
    && forall p, n | p in s.procs && n in Ids(s.procs[p]) :: n <= s.reserved
  }

  /** The i-th state number drawn is i. */
  ghost predicate NumbersDrawn(s: Sys) {
    && (forall i | 0 <= i < |s.drawn| :: s.drawn[i] == i % WORD)
    && (AnyDrawing(s.procs) ==> |s.drawn| > 0)
    && s.lastNumber == (if AnyDrawing(s.procs) then |s.drawn| - 1 else |s.drawn|) % WORD
  }

  ghost predicate IdsApart(s: Sys) {
    && (forall p, q | p in s.procs && q in s.procs && p != q :: Ids(s.procs[p]) !! Ids(s.procs[q]))
    && (forall p | p in s.procs && Claims(s.procs[p].pc) && NewId(s.procs[p].pc).Some? :: NewId(s.procs[p].pc).value != s.procs[p].id)
  }

  /** What a critical section relies on between its statements. */
  predicate Local(r: Proc, s: Sys) {
    match r.pc
    case ForkTake => s.count < |s.slots|
    case ForkBump(n) => s.count < |s.slots|
    case ForkCount(_) => s.count < |s.slots|
    case ChildScan(_, i) => i <= |s.slots| && forall j | 0 <= j < i :: s.slots[j] != FREE
    case _ => true
  }

  ghost predicate Inv(s: Sys) {
    && Exclusive(s) && Counted(s) && Seated(s) && IdsBelow(s) && IdsApart(s) && NumbersDrawn(s)
    && forall p | p in s.procs :: Local(s.procs[p], s)
  }

  /** No more than 2^32 - 2 ids were handed out, so that none is zero again or the mark of a free slot. */
  predicate Room(s: Sys) { s.reserved < FREE }

  // ---- Proofs ----

  /** Outside critical sections no shared variable changes, and the lock is taken and released where it says. */
  lemma Shape(s: Sys, p: Pid)
    requires p in s.procs
    ensures var s' := GoOn(s, p);
      && p in s'.procs && |s'.slots| == |s.slots|
      && var locked, locked' := Locks(s.procs[p].pc), Locks(s'.procs[p].pc);
         && (locked ==> s'.lock == (locked' && s.lock))
         && (!locked ==> s' == s.(lock := s'.lock, procs := s'.procs) && if locked' then !s.lock && s'.lock else s'.lock == s.lock)
         && (locked && !locked' ==> s' == s.(lock := false, procs := s'.procs))
  {
  }

  lemma OneMoves(s: Sys, p: Pid)
    requires p in s.procs
    ensures var s' := GoOn(s, p); p in s'.procs && s'.procs == s.procs[p := s'.procs[p]]
  {
    assert s.procs == s.procs[p := s.procs[p]];
  }

  /** A process moves from `r` to `r'` the way Shape says. */
  lemma Moves(s: Sys, p: Pid, r': Proc, s': Sys)
    requires Exclusive(s) && p in s.procs && s'.procs == s.procs[p := r']
    requires Locks(s.procs[p].pc) ==> s'.lock == (Locks(r'.pc) && s.lock)
    requires !Locks(s.procs[p].pc) ==> if Locks(r'.pc) then !s.lock && s'.lock else s'.lock == s.lock
    ensures Exclusive(s')
  {
    hide Locks;
    if Locks(r'.pc) { assert Locks(s'.procs[p].pc); }
    if s'.lock && !Locks(r'.pc) {
      var q :| q in s.procs && Locks(s.procs[q].pc);
      assert Locks(s'.procs[q].pc);
    }
  }

  lemma ExclusiveKeeps(s: Sys, step: Step)
    requires Exclusive(s) && Enabled(s, step)
    ensures Exclusive(Apply(s, step))
  {
    hide GoOn, Exclusive;
    var p, s' := step.p, Apply(s, step);
    match step
    case Go(_) => Shape(s, p); OneMoves(s, p); Moves(s, p, s'.procs[p], s');
    case CallForks(_, child) =>
      Moves(s, p, s'.procs[p], At(s, p, Idle));
      Joins(At(s, p, Idle), child, s'.procs[child]);
    case _ => Moves(s, p, s'.procs[p], s');
  }

  lemma Joins(s: Sys, child: Pid, r: Proc)
    requires Exclusive(s) && child !in s.procs && !Locks(r.pc)
    ensures Exclusive(s.(procs := s.procs[child := r]))
  {
    hide Locks;
    if s.lock {
      var q :| q in s.procs && Locks(s.procs[q].pc);
      assert Locks(s.procs[child := r][q].pc);
    }
  }

  /** The process in the critical section is the only one that can be halfway through an update. */
  lemma Alone(s: Sys, p: Pid)
    requires Exclusive(s) && p in s.procs && Locks(s.procs[p].pc)
    ensures s.lock && forall q | q in s.procs && q != p :: !Locks(s.procs[q].pc)
    ensures AnyBumping(s.procs) <==> Bumping(s.procs[p].pc)
    ensures AnyDrawing(s.procs) <==> Drawing(s.procs[p].pc)
  {
  }

  // ---- Counting ----

  function One(b: bool): nat { if b then 1 else 0 }

  lemma {:induction false} OneElement(was: set<nat>, now: set<nat>, x: nat)
    requires forall y | y != x :: y in was <==> y in now
    ensures |now| + One(x in was) == |was| + One(x in now)
  {
    var rest := was - {x};
    assert rest == now - {x};
    if x in was { assert was == rest + {x}; } else { assert was == rest; }
    if x in now { assert now == rest + {x}; } else { assert now == rest; }
  }

  lemma PendingUpdate(procs: map<Pid, Proc>, p: Pid, r: Proc)
    ensures |Pending(procs[p := r])| + One(p in procs && Pends(procs[p].pc)) == |Pending(procs)| + One(Pends(r.pc))
  {
    hide Pends;
    OneElement(Pending(procs), Pending(procs[p := r]), p);
  }

  lemma OccupiedUpdate(slots: seq<nat>, i: nat, id: nat)
    requires i < |slots|
    ensures |Occupied(slots[i := id])| + One(slots[i] != FREE) == |Occupied(slots)| + One(id != FREE)
  {
    OneElement(Occupied(slots), Occupied(slots[i := id]), i);
  }

  lemma {:induction false} Below(n: nat) returns (r: set<nat>)
    ensures (forall i :: i in r <==> 0 <= i < n) && |r| == n
  {
    if n == 0 {
      r := {};
    } else {
      var q := Below(n - 1);
      r := q + {n - 1};
    }
  }

  /** A free slot is missing exactly when as many slots are occupied as there are. */
  lemma NoneFree(slots: seq<nat>)
    ensures |Occupied(slots)| <= |slots|
    ensures |Occupied(slots)| == |slots| <==> forall i | 0 <= i < |slots| :: slots[i] != FREE
  {
    var all := Below(|slots|);
    var free := all - Occupied(slots);
    assert all == free + Occupied(slots);
    assert |all| == |free| + |Occupied(slots)|;
    if |free| > 0 {
      var i :| i in free;
      assert slots[i] == FREE;
    }
    if i :| 0 <= i < |slots| && slots[i] == FREE { assert i in free; }
  }

  lemma {:induction false} HasOne(a: set<nat>, x: nat)
    ensures x in a ==> |a| >= 1
  {
    if x in a { assert a == (a - {x}) + {x}; }
  }

  // ---- The assertions of the code ----

  /** At each program point the assertion made there holds: no count is about to drop below zero, a failed
      fork still counts its parent, an exiting process finds its id in its slot, and a child's search has
      not run off the end. */
  lemma Asserted(s: Sys, p: Pid)
    requires Inv(s) && p in s.procs
    ensures s.procs[p].pc.ForkTest? ==> s.count > 0
    ensures s.procs[p].pc.FailDrop? ==> s.count > 1
    ensures s.procs[p].pc.ExitClear? ==> s.procs[p].index < |s.slots| && s.slots[s.procs[p].index] == s.procs[p].id != FREE
    ensures s.procs[p].pc.ExitDrop? ==> s.count > 0
    ensures s.procs[p].pc.ChildScan? ==> s.procs[p].pc.i < |s.slots|
  {
    hide Exclusive, IdsApart, NumbersDrawn;
    var r := s.procs[p];
    assert Local(r, s);
    NoneFree(s.slots);
    HasOne(Pending(s.procs), p);
    if Claims(r.pc) {
      HasOne(Occupied(s.slots), r.index);
    }
  }

  // ---- Every step keeps the invariant ----

  /** The child takes slot i. */
  predicate TakesSlot(s: Sys, p: Pid)
    requires p in s.procs
  {
    var pc := s.procs[p].pc;
    pc.ChildScan? && pc.i < |s.slots| && s.slots[pc.i] == FREE
  }

  /** A child takes a slot for the id that marks a free one. */
  predicate TakesFree(s: Sys, step: Step)
    requires Enabled(s, step)
  {
    step.Go? && TakesSlot(s, step.p) && s.procs[step.p].pc.n == FREE
  }

  /** A fork is handed an id that a process has. */
  ghost predicate TakesUsed(s: Sys, step: Step)
    requires Enabled(s, step)
  {
    step.Go? && s.procs[step.p].pc.ForkTake? && InUse(s, s.lastId)
  }

  ghost predicate InUse(s: Sys, n: nat) {
    exists q | q in s.procs :: n in Ids(s.procs[q])
  }

  /** What steps other than taking and clearing a slot do. */
  lemma Plain(s: Sys, p: Pid)
    requires p in s.procs && !TakesSlot(s, p) && !s.procs[p].pc.ExitClear?
    ensures var s' := GoOn(s, p);
      && s'.slots == s.slots && p in s'.procs
      && var r, r' := s.procs[p], s'.procs[p];
         && r'.id == r.id && r'.index == r.index && Claims(r'.pc) == Claims(r.pc)
         && (NewId(r'.pc) == NewId(r.pc) || NewId(r'.pc).None? || (r.pc.ForkTake? && NewId(r'.pc) == Some(s.lastId)))
         && s'.reserved == s.reserved + One(r.pc.ForkTake?)
  {
  }

  lemma PlainCount(s: Sys, p: Pid)
    requires p in s.procs && !TakesSlot(s, p) && !s.procs[p].pc.ExitClear?
    requires s.procs[p].pc.FailDrop? || s.procs[p].pc.ExitDrop? ==> s.count > 0
    ensures var s' := GoOn(s, p);
      s'.slots == s.slots && p in s'.procs && s'.count + One(Pends(s.procs[p].pc)) == s.count + One(Pends(s'.procs[p].pc))
  {
  }

  lemma CountedKeeps(s: Sys, step: Step)
    requires Inv(s) && Enabled(s, step)
    ensures Counted(Apply(s, step)) <==> !TakesFree(s, step)
  {
    hide Exclusive, Seated, IdsBelow, IdsApart, NumbersDrawn, Pending, Occupied;
    var p, s' := step.p, Apply(s, step);
    assert Local(s.procs[p], s);
    Asserted(s, p);
    match step
    case Go(_) => GoCounts(s, p);
    case CallForks(_, child) =>
      PendingUpdate(s.procs, p, s.procs[p].(pc := Idle));
      PendingUpdate(s.procs[p := s.procs[p].(pc := Idle)], child, s'.procs[child]);
    case _ => PendingUpdate(s.procs, p, s'.procs[p]);
  }

  lemma GoCounts(s: Sys, p: Pid)
    requires Counted(s) && p in s.procs && Local(s.procs[p], s)
    requires s.procs[p].pc.FailDrop? || s.procs[p].pc.ExitDrop? ==> s.count > 0
    requires s.procs[p].pc.ExitClear? ==> s.procs[p].index < |s.slots| && s.slots[s.procs[p].index] != FREE
    ensures Counted(GoOn(s, p)) <==> !(TakesSlot(s, p) && s.procs[p].pc.n == FREE)
  {
    hide Pending, Occupied;
    var s' := GoOn(s, p);
    OneMoves(s, p);
    PendingUpdate(s.procs, p, s'.procs[p]);
    if TakesSlot(s, p) {
      OccupiedUpdate(s.slots, s.procs[p].pc.i, s.procs[p].pc.n);
    } else if s.procs[p].pc.ExitClear? {
      OccupiedUpdate(s.slots, s.procs[p].index, FREE);
    } else {
      PlainCount(s, p);
    }
  }

  lemma SeatedKeeps(s: Sys, step: Step)
    requires Inv(s) && Enabled(s, step) && !TakesFree(s, step)
    ensures Seated(Apply(s, step))
  {
    hide Exclusive, IdsApart, NumbersDrawn, Counted, Local, GoOn;
    var p, s' := step.p, Apply(s, step);
    match step
    case Go(_) => GoSeated(s, p);
    case _ =>
  }

  lemma GoSeated(s: Sys, p: Pid)
    requires Seated(s) && p in s.procs && !(TakesSlot(s, p) && s.procs[p].pc.n == FREE)
    ensures Seated(GoOn(s, p))
  {
    hide GoOn, Claims;
    OneMoves(s, p);
    if TakesSlot(s, p) {
      Taken(s, p);
    } else if s.procs[p].pc.ExitClear? {
      Cleared(s, p);
    } else {
      Plain(s, p);
    }
  }

  lemma Taken(s: Sys, p: Pid)
    requires p in s.procs && TakesSlot(s, p)
    ensures var pc := s.procs[p].pc;
            GoOn(s, p) == s.(slots := s.slots[pc.i := pc.n], procs := s.procs[p := Proc(ChildRelease, pc.n, pc.i)])
    ensures !Claims(s.procs[p].pc)
  {
  }

  lemma Cleared(s: Sys, p: Pid)
    requires p in s.procs && s.procs[p].pc.ExitClear?
    ensures var i := s.procs[p].index;
            GoOn(s, p) == s.(slots := if i < |s.slots| then s.slots[i := FREE] else s.slots, procs := s.procs[p := s.procs[p].(pc := ExitDrop)])
    ensures !Claims(ExitDrop) && Claims(ExitClear)
  {
  }

  /** The ids of a process come from the ids it had, or the one it was just handed. */
  lemma IdsFrom(s: Sys, p: Pid)
    requires p in s.procs
    ensures var s' := GoOn(s, p);
      && p in s'.procs && s'.reserved == s.reserved + One(s.procs[p].pc.ForkTake?)
      && Ids(s'.procs[p]) <= Ids(s.procs[p]) + (if s.procs[p].pc.ForkTake? then {s.lastId} else {})
      && (Claims(s'.procs[p].pc) && NewId(s'.procs[p].pc).Some? ==>
            Claims(s.procs[p].pc) && s'.procs[p].id == s.procs[p].id
            && (NewId(s'.procs[p].pc) == NewId(s.procs[p].pc) || (s.procs[p].pc.ForkTake? && NewId(s'.procs[p].pc) == Some(s.lastId))))
  {
    if TakesSlot(s, p) {
      Taken(s, p);
    } else if s.procs[p].pc.ExitClear? {
      Cleared(s, p);
    } else {
      hide GoOn;
      Plain(s, p);
    }
  }

  /** While its reader holds the lock, the counter holds an id that nobody has. */
  lemma NextId(s: Sys, p: Pid)
    requires Exclusive(s) && IdsBelow(s) && p in s.procs && s.procs[p].pc.ForkTake? && s.reserved + 1 < WORD
    ensures s.lastId == s.reserved + 1
  {
    Alone(s, p);
  }

  /** The counters after a step. */
  lemma Counters(s: Sys, p: Pid)
    requires p in s.procs
    ensures var s' := GoOn(s, p);
      && p in s'.procs
      && var pc, pc' := s.procs[p].pc, s'.procs[p].pc;
         && s'.lastId == (if Bumping(pc) then (s.lastId + 1) % WORD else s.lastId)
         && (Bumping(pc') <==> pc.ForkTake?)
  {
  }

  lemma NumberCounters(s: Sys, p: Pid)
    requires p in s.procs
    ensures var s' := GoOn(s, p);
      && p in s'.procs
      && var pc, pc' := s.procs[p].pc, s'.procs[p].pc;
         && s'.lastNumber == (if Drawing(pc) then (s.lastNumber + 1) % WORD else s.lastNumber)
         && s'.drawn == (if pc.NumberRead? then s.drawn + [s.lastNumber] else s.drawn)
         && (Drawing(pc') <==> pc.NumberRead?)
  {
  }

  lemma SomeBumping(procs: map<Pid, Proc>, p: Pid, r: Proc)
    requires !(p in procs && Bumping(procs[p].pc)) && !Bumping(r.pc)
    ensures AnyBumping(procs[p := r]) <==> AnyBumping(procs)
  {
    if q :| q in procs && Bumping(procs[q].pc) { assert Bumping(procs[p := r][q].pc); }
  }

  lemma SomeDrawing(procs: map<Pid, Proc>, p: Pid, r: Proc)
    requires !(p in procs && Drawing(procs[p].pc)) && !Drawing(r.pc)
    ensures AnyDrawing(procs[p := r]) <==> AnyDrawing(procs)
  {
    if q :| q in procs && Drawing(procs[q].pc) { assert Drawing(procs[p := r][q].pc); }
  }

  /** The holder of the lock finishes its update, or starts one. */
  lemma HolderAny(s: Sys, p: Pid, r: Proc)
    requires Exclusive(s) && p in s.procs && Locks(s.procs[p].pc)
    ensures AnyBumping(s.procs[p := r]) <==> Bumping(r.pc)
    ensures AnyDrawing(s.procs[p := r]) <==> Drawing(r.pc)
  {
    Alone(s, p);
    assert s.procs[p := r][p] == r;
  }

  lemma GoIdsBelow(s: Sys, p: Pid)
    requires Exclusive(s) && IdsBelow(s) && p in s.procs
    ensures IdsBelow(GoOn(s, p))
  {
    hide GoOn, Exclusive, Ids, Claims;
    var s' := GoOn(s, p);
    OneMoves(s, p);
    IdsFrom(s, p);
    Counters(s, p);
    if s.procs[p].pc.ForkTake? || Bumping(s.procs[p].pc) {
      Alone(s, p);
      HolderAny(s, p, s'.procs[p]);
    } else {
      SomeBumping(s.procs, p, s'.procs[p]);
    }
  }

  /** A new id keeps the ids apart if and only if no process has it. */
  lemma GoIdsApart(s: Sys, p: Pid)
    requires IdsApart(s) && p in s.procs
    ensures IdsApart(GoOn(s, p)) <==> !(s.procs[p].pc.ForkTake? && InUse(s, s.lastId))
  {
    hide GoOn, Claims;
    OneMoves(s, p);
    IdsFrom(s, p);
    if s.procs[p].pc.ForkTake? {
      Handing(s, p);
      if q :| q in s.procs && s.lastId in Ids(s.procs[q]) {
        assert q != p ==> GoOn(s, p).procs[q] == s.procs[q];
      }
    }
  }

  lemma Handing(s: Sys, p: Pid)
    requires p in s.procs && s.procs[p].pc.ForkTake?
    ensures var r := GoOn(s, p).procs[p];
      r == s.procs[p].(pc := ForkBump(s.lastId)) && Claims(r.pc) && NewId(r.pc) == Some(s.lastId) && s.lastId in Ids(r) && Ids(s.procs[p]) == {r.id}
  {
  }

  lemma GoNumbers(s: Sys, p: Pid)
    requires Exclusive(s) && NumbersDrawn(s) && p in s.procs
    ensures NumbersDrawn(GoOn(s, p))
  {
    hide GoOn, Exclusive;
    var s' := GoOn(s, p);
    OneMoves(s, p);
    NumberCounters(s, p);
    if s.procs[p].pc.NumberRead? || Drawing(s.procs[p].pc) {
      Alone(s, p);
      HolderAny(s, p, s'.procs[p]);
    } else {
      SomeDrawing(s.procs, p, s'.procs[p]);
    }
  }

  /** A process moves without touching the counters. */
  lemma Swapped(s: Sys, p: Pid, r: Proc)
    requires IdsBelow(s) && IdsApart(s) && NumbersDrawn(s) && p in s.procs
    requires !Bumping(s.procs[p].pc) && !Bumping(r.pc) && !Drawing(s.procs[p].pc) && !Drawing(r.pc)
    requires Ids(r) <= Ids(s.procs[p]) && NewId(r.pc).None?
    ensures var s' := s.(procs := s.procs[p := r]); IdsBelow(s') && IdsApart(s') && NumbersDrawn(s')
  {
    hide Ids, AnyBumping, AnyDrawing, Claims, NewId, Bumping, Drawing;
    SomeBumping(s.procs, p, r);
    SomeDrawing(s.procs, p, r);
  }

  /** A process comes in with an id that nobody has. */
  lemma Spawned(s: Sys, c: Pid, r: Proc, n: nat)
    requires IdsBelow(s) && IdsApart(s) && NumbersDrawn(s) && c !in s.procs
    requires r.pc == ChildWait(n) && n <= s.reserved && forall q | q in s.procs :: n !in Ids(s.procs[q])
    ensures var s' := s.(procs := s.procs[c := r]); IdsBelow(s') && IdsApart(s') && NumbersDrawn(s')
  {
    hide AnyBumping, AnyDrawing;
    assert Ids(r) == {n};
    SomeBumping(s.procs, c, r);
    SomeDrawing(s.procs, c, r);
  }

  lemma OtherSteps(s: Sys, step: Step)
    requires IdsBelow(s) && IdsApart(s) && NumbersDrawn(s) && Enabled(s, step) && !step.Go?
    ensures IdsBelow(Apply(s, step)) && IdsApart(Apply(s, step)) && NumbersDrawn(Apply(s, step))
  {
    hide GoOn, IdsBelow, IdsApart, NumbersDrawn;
    var s', p := Apply(s, step), step.p;
    Swapped(s, p, s'.procs[p]);
    if step.CallForks? {
      Handed(s, p);
      Spawned(At(s, p, Idle), step.child, s'.procs[step.child], s.procs[p].pc.n);
    }
  }

  lemma Handed(s: Sys, p: Pid)
    requires IdsBelow(s) && IdsApart(s) && p in s.procs && s.procs[p].pc.ForkCall?
    ensures var n := s.procs[p].pc.n; n <= s.reserved && forall q | q in s.procs :: n !in Ids(At(s, p, Idle).procs[q])
  {
    var n := s.procs[p].pc.n;
    assert n in Ids(s.procs[p]);
  }

  /** Only the holder of the lock relies on anything, and it relies on what it has just done itself. */
  lemma LocalKeeps(s: Sys, step: Step, q: Pid)
    requires Exclusive(s) && Enabled(s, step) && (forall p | p in s.procs :: Local(s.procs[p], s)) && s.count <= |s.slots|
    requires q in Apply(s, step).procs
    ensures Local(Apply(s, step).procs[q], Apply(s, step))
  {
    hide Exclusive;
    var p, s' := step.p, Apply(s, step);
    if step.Go? {
      OneMoves(s, p);
      Shape(s, p);
      if q != p && Locks(s.procs[p].pc) {
        Alone(s, p);
      }
    }
  }

  /** Every step of every process keeps the invariant but for two, however many ids were handed out: it is broken if and
      only if a child takes a slot for the id that marks a free one, which makes the count wrong, or a fork is handed an id
      that a process has, which makes two processes share it. */
  lemma StepExact(s: Sys, step: Step)
    requires Inv(s) && Enabled(s, step)
    ensures Inv(Apply(s, step)) <==> !TakesFree(s, step) && !TakesUsed(s, step)
    ensures Counted(Apply(s, step)) <==> !TakesFree(s, step)
    ensures IdsApart(Apply(s, step)) <==> !TakesUsed(s, step)
  {
    hide Exclusive, Counted, Seated, IdsBelow, IdsApart, NumbersDrawn, Local, GoOn, TakesFree;
    CountedKeeps(s, step);
    if step.Go? { GoIdsApart(s, step.p); } else { OtherSteps(s, step); }
    if !TakesFree(s, step) && !TakesUsed(s, step) {
      StepKeeps(s, step);
    }
  }

  lemma StepKeeps(s: Sys, step: Step)
    requires Inv(s) && Enabled(s, step) && !TakesFree(s, step) && !TakesUsed(s, step)
    ensures Inv(Apply(s, step))
  {
    hide Exclusive, Counted, Seated, IdsBelow, IdsApart, NumbersDrawn, Local, GoOn;
    var s' := Apply(s, step);
    CountedAll(s);
    ExclusiveKeeps(s, step);
    CountedKeeps(s, step);
    SeatedKeeps(s, step);
    if step.Go? {
      GoIdsBelow(s, step.p);
      GoIdsApart(s, step.p);
      GoNumbers(s, step.p);
    } else {
      OtherSteps(s, step);
    }
    forall q | q in s'.procs ensures Local(s'.procs[q], s') {
      LocalKeeps(s, step, q);
    }
  }

  lemma CountedAll(s: Sys)
    requires Counted(s)
    ensures s.count <= |s.slots|
  {
  }

  lemma Mono(s: Sys, step: Step)
    requires Enabled(s, step)
    ensures s.reserved <= Apply(s, step).reserved
  {
    if step.Go? { hide GoOn; IdsFrom(s, step.p); }
  }

  // ---- Runs ----

  ghost predicate IsRun(states: seq<Sys>, steps: seq<Step>) {
    && |states| == |steps| + 1 && Init(states[0])
    && forall i | 0 <= i < |steps| :: Enabled(states[i], steps[i]) && states[i + 1] == Apply(states[i], steps[i])
  }

  lemma RoomTakes(s: Sys, step: Step)
    requires Exclusive(s) && IdsBelow(s) && Enabled(s, step) && Room(Apply(s, step))
    ensures !TakesFree(s, step) && !TakesUsed(s, step)
  {
    hide Exclusive, GoOn;
    Mono(s, step);
    var r := s.procs[step.p];
    assert NewId(r.pc).Some? ==> NewId(r.pc).value in Ids(r);
    if step.Go? && r.pc.ForkTake? {
      IdsFrom(s, step.p);
      NextId(s, step.p);
    }
  }

  lemma {:induction false} RunsKeep(states: seq<Sys>, steps: seq<Step>, i: nat)
    requires IsRun(states, steps) && i < |states| && Room(states[i])
    ensures Inv(states[i])
  {
    hide Apply, Exclusive, Counted, Seated, IdsBelow, IdsApart, NumbersDrawn, Local, Enabled, Init, TakesFree;
    if i == 0 {
      InitInv(states[0]);
    } else {
      Mono(states[i - 1], steps[i - 1]);
      RunsKeep(states, steps, i - 1);
      RoomTakes(states[i - 1], steps[i - 1]);
      StepKeeps(states[i - 1], steps[i - 1]);
    }
  }

  lemma InitInv(s: Sys)
    requires Init(s)
    ensures Inv(s)
  {
    var p :| s.procs == map[p := Proc(Idle, 0, 0)];
    assert Pending(s.procs) == {};
    assert Occupied(s.slots) == {0};
  }

  /** Under every interleaving, with fewer than 2^32 - 1 ids handed out: reserved and occupied slots make up the
      count, which is at most the maximum; a child that searches has a free slot ahead; at most one process is in a
      critical section; and no two processes have the same id or the same slot. */
  lemma RunsAreSafe(states: seq<Sys>, steps: seq<Step>, i: nat)
    requires IsRun(states, steps) && i < |states| && Room(states[i])
    ensures var s := states[i];
      && s.count == |Occupied(s.slots)| + |Pending(s.procs)| && s.count <= |s.slots|
      && (forall p | p in s.procs && s.procs[p].pc.ChildScan? :: exists k | s.procs[p].pc.i <= k < |s.slots| :: s.slots[k] == FREE)
      && (forall p, q | p in s.procs && q in s.procs && p != q :: !(Locks(s.procs[p].pc) && Locks(s.procs[q].pc)))
      && (forall p, q | p in s.procs && q in s.procs && p != q && Claims(s.procs[p].pc) && Claims(s.procs[q].pc) ::
            s.procs[p].id != s.procs[q].id && s.procs[p].index != s.procs[q].index)
  {
    hide IsRun, Locks, Claims, Local, IdsBelow, NumbersDrawn;
    RunsKeep(states, steps, i);
    var s := states[i];
    forall p | p in s.procs && s.procs[p].pc.ChildScan? ensures exists k | s.procs[p].pc.i <= k < |s.slots| :: s.slots[k] == FREE {
      FindsSlot(s, p);
    }
    forall p, q | p in s.procs && q in s.procs && p != q && Claims(s.procs[p].pc) && Claims(s.procs[q].pc)
      ensures s.procs[p].id != s.procs[q].id
    {
      assert s.procs[p].id in Ids(s.procs[p]) && s.procs[q].id in Ids(s.procs[q]);
    }
  }

  lemma FindsSlot(s: Sys, p: Pid)
    requires Inv(s) && p in s.procs && s.procs[p].pc.ChildScan?
    ensures exists k | s.procs[p].pc.i <= k < |s.slots| :: s.slots[k] == FREE
  {
    NoneFree(s.slots);
    HasOne(Pending(s.procs), p);
    assert Local(s.procs[p], s);
    var k :| 0 <= k < |s.slots| && s.slots[k] == FREE;
  }

  lemma OtherNumbers(s: Sys, step: Step)
    requires NumbersDrawn(s) && Enabled(s, step) && !step.Go?
    ensures NumbersDrawn(Apply(s, step))
  {
    hide GoOn, AnyDrawing;
    var s', p := Apply(s, step), step.p;
    SomeDrawing(s.procs, p, s'.procs[p]);
    if step.CallForks? {
      SomeDrawing(s.procs[p := s'.procs[p]], step.child, s'.procs[step.child]);
    }
  }

  /** The lock excludes and numbers go up, however many ids were handed out. */
  lemma {:induction false} RunsExclude(states: seq<Sys>, steps: seq<Step>, i: nat)
    requires IsRun(states, steps) && i < |states|
    ensures Exclusive(states[i]) && NumbersDrawn(states[i])
  {
    hide GoOn, Exclusive, NumbersDrawn, Enabled, Init;
    if i == 0 {
      InitInv(states[0]);
    } else {
      var s, step := states[i - 1], steps[i - 1];
      RunsExclude(states, steps, i - 1);
      ExclusiveKeeps(s, step);
      if step.Go? { Known(s, step); GoNumbers(s, step.p); } else { OtherNumbers(s, step); }
    }
  }

  lemma Known(s: Sys, step: Step)
    requires Enabled(s, step)
    ensures step.p in s.procs
  {
  }

  /** State numbers are never drawn twice, up to 2^32 of them. */
  lemma NumbersUnique(states: seq<Sys>, steps: seq<Step>, i: nat, j: nat, k: nat)
    requires IsRun(states, steps) && i < |states|
    requires j < k < |states[i].drawn| && |states[i].drawn| <= WORD
    ensures states[i].drawn[j] != states[i].drawn[k]
  {
    hide IsRun;
    RunsExclude(states, steps, i);
    assert states[i].drawn[j] == j % WORD && states[i].drawn[k] == k % WORD;
  }

  /** A fork is refused if and only if every slot is taken or promised. */
  lemma RefusedIffFull(s: Sys, p: Pid)
    requires Inv(s) && p in s.procs && s.procs[p].pc.ForkTest?
    ensures Apply(s, Go(p)).procs[p].pc == (if |Occupied(s.slots)| + |Pending(s.procs)| == |s.slots| then ForkFull else ForkTake)
  {
  }

  // ---- The id that marks a free slot ----

  /** The first process alone in a run with two slots, after `k` ids were handed out. */
  function Lone(pc: Pc, lock: bool, count: nat, lastId: nat, k: nat): Sys {
    Sys(lock, count, lastId, 0, [0, FREE], map[0 := Proc(pc, 0, 0)], k, [])
  }

  ghost predicate RunTo(states: seq<Sys>, steps: seq<Step>, s: Sys) {
    IsRun(states, steps) && states[|states| - 1] == s
  }

  ghost predicate Next(s: Sys, step: Step, s': Sys) {
    Enabled(s, step) && s' == Apply(s, step)
  }

  lemma Extend(states: seq<Sys>, steps: seq<Step>, s: Sys, step: Step, s': Sys) returns (states': seq<Sys>, steps': seq<Step>)
    requires RunTo(states, steps, s) && Next(s, step, s')
    ensures RunTo(states', steps', s')
  {
    hide Apply, Enabled, Init;
    states', steps' := states + [s'], steps + [step];
  }

  lemma LoneAt(pc: Pc, lock: bool, count: nat, lastId: nat, k: nat, pc': Pc)
    ensures At(Lone(pc, lock, count, lastId, k), 0, pc') == Lone(pc', lock, count, lastId, k)
  {
    assert map[0 := Proc(pc, 0, 0)][0 := Proc(pc', 0, 0)] == map[0 := Proc(pc', 0, 0)];
  }

  lemma ForkStarts(i: nat, k: nat)
    ensures Next(Lone(Idle, false, 1, i, k), StartFork(0), Lone(ForkWait, false, 1, i, k))
    ensures Next(Lone(ForkWait, false, 1, i, k), Go(0), Lone(ForkTest, true, 1, i, k))
    ensures Next(Lone(ForkTest, true, 1, i, k), Go(0), Lone(ForkTake, true, 1, i, k))
    ensures Next(Lone(ForkTake, true, 1, i, k), Go(0), Lone(ForkBump(i), true, 1, i, k + 1))
  {
    LoneAt(Idle, false, 1, i, k, ForkWait);
    LoneAt(ForkWait, true, 1, i, k, ForkTest);
    LoneAt(ForkTest, true, 1, i, k, ForkTake);
    LoneAt(ForkTake, true, 1, i, k + 1, ForkBump(i));
  }

  lemma ForkReserves(n: nat, i: nat, k: nat)
    ensures Next(Lone(ForkBump(n), true, 1, i, k), Go(0), Lone(ForkCount(n), true, 1, (i + 1) % WORD, k))
    ensures Next(Lone(ForkCount(n), true, 1, i, k), Go(0), Lone(ForkRelease(n), true, 2, i, k))
    ensures Next(Lone(ForkRelease(n), true, 2, i, k), Go(0), Lone(ForkCall(n), false, 2, i, k))
  {
    LoneAt(ForkBump(n), true, 1, (i + 1) % WORD, k, ForkCount(n));
    LoneAt(ForkCount(n), true, 2, i, k, ForkRelease(n));
    LoneAt(ForkRelease(n), false, 2, i, k, ForkCall(n));
  }

  lemma ForkFails(n: nat, i: nat, k: nat)
    ensures Next(Lone(ForkCall(n), false, 2, i, k), CallFails(0), Lone(FailWait, false, 2, i, k))
    ensures Next(Lone(FailWait, false, 2, i, k), Go(0), Lone(FailDrop, true, 2, i, k))
    ensures Next(Lone(FailDrop, true, 2, i, k), Go(0), Lone(FailRelease, true, 1, i, k))
    ensures Next(Lone(FailRelease, true, 1, i, k), Go(0), Lone(Idle, false, 1, i, k))
  {
    LoneAt(ForkCall(n), false, 2, i, k, FailWait);
    LoneAt(FailWait, true, 2, i, k, FailDrop);
    LoneAt(FailDrop, true, 1, i, k, FailRelease);
    LoneAt(FailRelease, false, 1, i, k, Idle);
  }

  /** From an idle process to the call of fork. */
  lemma Calls(states: seq<Sys>, steps: seq<Step>, i: nat, k: nat) returns (states': seq<Sys>, steps': seq<Step>)
    requires RunTo(states, steps, Lone(Idle, false, 1, i, k))
    ensures RunTo(states', steps', Lone(ForkCall(i), false, 2, (i + 1) % WORD, k + 1))
  {
    hide RunTo, Next, Lone;
    var j := (i + 1) % WORD;
    ForkStarts(i, k);
    ForkReserves(i, i, k + 1);
    ForkReserves(i, j, k + 1);
    states', steps' := Extend(states, steps, Lone(Idle, false, 1, i, k), StartFork(0), Lone(ForkWait, false, 1, i, k));
    states', steps' := Extend(states', steps', Lone(ForkWait, false, 1, i, k), Go(0), Lone(ForkTest, true, 1, i, k));
    states', steps' := Extend(states', steps', Lone(ForkTest, true, 1, i, k), Go(0), Lone(ForkTake, true, 1, i, k));
    states', steps' := Extend(states', steps', Lone(ForkTake, true, 1, i, k), Go(0), Lone(ForkBump(i), true, 1, i, k + 1));
    states', steps' := Extend(states', steps', Lone(ForkBump(i), true, 1, i, k + 1), Go(0), Lone(ForkCount(i), true, 1, j, k + 1));
    states', steps' := Extend(states', steps', Lone(ForkCount(i), true, 1, j, k + 1), Go(0), Lone(ForkRelease(i), true, 2, j, k + 1));
    states', steps' := Extend(states', steps', Lone(ForkRelease(i), true, 2, j, k + 1), Go(0), Lone(ForkCall(i), false, 2, j, k + 1));
  }

  /** A run in which fork has failed `k` times: each time an id is used up. */
  lemma {:induction false} Failures(k: nat) returns (states: seq<Sys>, steps: seq<Step>)
    requires k < WORD
    ensures RunTo(states, steps, Lone(Idle, false, 1, (k + 1) % WORD, k))
  {
    if k == 0 {
      states, steps := [Lone(Idle, false, 1, 1, 0)], [];
    } else {
      hide RunTo, Next, Lone;
      var i := (k + 1) % WORD;
      states, steps := Failures(k - 1);
      states, steps := Calls(states, steps, k, k - 1);
      ForkFails(k, i, k);
      states, steps := Extend(states, steps, Lone(ForkCall(k), false, 2, i, k), CallFails(0), Lone(FailWait, false, 2, i, k));
      states, steps := Extend(states, steps, Lone(FailWait, false, 2, i, k), Go(0), Lone(FailDrop, true, 2, i, k));
      states, steps := Extend(states, steps, Lone(FailDrop, true, 2, i, k), Go(0), Lone(FailRelease, true, 1, i, k));
      states, steps := Extend(states, steps, Lone(FailRelease, true, 1, i, k), Go(0), Lone(Idle, false, 1, i, k));
    }
  }

  /** Parent and child. */
  function Pair(lock: bool, slots: seq<nat>, child: Proc): Sys {
    Sys(lock, 2, 0, 0, slots, map[0 := Proc(Idle, 0, 0), 1 := child], FREE, [])
  }

  lemma ChildSteps()
    ensures Next(Lone(ForkCall(FREE), false, 2, 0, FREE), CallForks(0, 1), Pair(false, [0, FREE], Proc(ChildWait(FREE), 0, 0)))
    ensures Next(Pair(false, [0, FREE], Proc(ChildWait(FREE), 0, 0)), Go(1), Pair(true, [0, FREE], Proc(ChildScan(FREE, 0), 0, 0)))
    ensures Next(Pair(true, [0, FREE], Proc(ChildScan(FREE, 0), 0, 0)), Go(1), Pair(true, [0, FREE], Proc(ChildScan(FREE, 1), 0, 0)))
    ensures Next(Pair(true, [0, FREE], Proc(ChildScan(FREE, 1), 0, 0)), Go(1), Pair(true, [0, FREE], Proc(ChildRelease, FREE, 1)))
  {
    var idle := Proc(Idle, 0, 0);
    forall a: Proc, b: Proc ensures map[0 := idle, 1 := a][1 := b] == map[0 := idle, 1 := b] {}
    assert map[0 := Proc(ForkCall(FREE), 0, 0)][0 := idle][1 := Proc(ChildWait(FREE), 0, 0)] == map[0 := idle, 1 := Proc(ChildWait(FREE), 0, 0)];
    assert [0, FREE][1 := FREE] == [0, FREE];
  }

  /** A run that gets there: 2^32 - 2 failed forks, and one that succeeds. The child has the id that marks a free
      slot, so that its slot still looks free, and two processes are counted where one slot is occupied. */
  lemma IdsRunOut() returns (states: seq<Sys>, steps: seq<Step>)
    ensures IsRun(states, steps)
    ensures var s := states[|states| - 1];
      && 1 in s.procs && Claims(s.procs[1].pc) && s.procs[1].index == 1 < |s.slots| && s.slots[1] == FREE
      && !Counted(s) && s.count == 2
  {
    hide Next, Lone, Counted;
    states, steps := Failures(FREE - 1);
    states, steps := Calls(states, steps, FREE, FREE - 1);
    ChildSteps();
    var a, b := Pair(false, [0, FREE], Proc(ChildWait(FREE), 0, 0)), Pair(true, [0, FREE], Proc(ChildScan(FREE, 0), 0, 0));
    var c, d := Pair(true, [0, FREE], Proc(ChildScan(FREE, 1), 0, 0)), Pair(true, [0, FREE], Proc(ChildRelease, FREE, 1));
    states, steps := Extend(states, steps, Lone(ForkCall(FREE), false, 2, 0, FREE), CallForks(0, 1), a);
    states, steps := Extend(states, steps, a, Go(1), b);
    states, steps := Extend(states, steps, b, Go(1), c);
    states, steps := Extend(states, steps, c, Go(1), d);
    Miscounted(d);
  }

  lemma Miscounted(s: Sys)
    requires s == Pair(true, [0, FREE], Proc(ChildRelease, FREE, 1))
    ensures !Counted(s)
  {
    assert Occupied(s.slots) == {0};
    assert Pending(s.procs) == {};
  }

  /** A run to the other case: 2^32 - 1 failed forks, and the counter is back at 0, the id of the first process. The next
      fork is handed that id again. */
  lemma IdsComeBack() returns (states: seq<Sys>, steps: seq<Step>)
    ensures IsRun(states, steps)
    ensures var s := states[|states| - 1];
      0 in s.procs && Claims(s.procs[0].pc) && NewId(s.procs[0].pc) == Some(s.procs[0].id) && !IdsApart(s)
  {
    hide Next, Init, Enabled, Apply, IdsApart;
    states, steps := Failures(FREE);
    states, steps := Calls(states, steps, 0, FREE);
    SameId(Lone(ForkCall(0), false, 2, 1, WORD));
  }

  lemma SameId(s: Sys)
    requires s == Lone(ForkCall(0), false, 2, 1, WORD)
    ensures !IdsApart(s)
  {
    assert NewId(s.procs[0].pc).value == s.procs[0].id;
  }
}
